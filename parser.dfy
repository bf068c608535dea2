/** The `EpubParser` class: one archive, the location of its package
    document remembered in `opfPath` and `rootPath`, and the two public
    extractions. Each method is proved to return what the corresponding
    function of `EpubRules` describes. */
module Parser {
  import opened Core
  import opened Text
  import opened Schema
  import opened EpubRules
  import HtmlClean

  class EpubParser {
    /** The opened archive. */
    const zip: Archive
    /** The library code the parser calls. */
    const env: Foreign
    /** The directory of the package document; "" until it is located. */
    var rootPath: string
    /** The path of the package document; "" until it is located. */
    var opfPath: string

    constructor(zip: Archive, env: Foreign)
      ensures this.zip == zip && this.env == env
      ensures rootPath == "" && opfPath == ""
    {
      this.zip := zip;
      this.env := env;
      rootPath := "";
      opfPath := "";
    }

    /** Reads the container document and remembers where the package
        document is; the state is left alone when it throws. */
    method FindOpfPath() returns (r: Result<string, EpubError>)
      modifies this
      ensures r == LocateOpf(zip, env)
      ensures r.Ok? ==> opfPath == r.value && rootPath == Dirname(r.value)
      ensures r.Err? ==> opfPath == old(opfPath) && rootPath == old(rootPath)
    {
      if ContainerPath !in zip {
        return Err(MissingContainer);
      }
      var container := env.parseContainer(env.utf8(zip[ContainerPath]));
      if container.None? {
        return Err(MalformedXml);
      }
      var fullPath := FirstRootfilePath(container.value);
      if fullPath.None? {
        return Err(MissingRootfile);
      }
      opfPath := fullPath.value;
      rootPath := Dirname(opfPath);
      return Ok(opfPath);
    }

    /** Reads and parses the package document at `opfPath`. */
    method ParseOpf() returns (r: Result<OpfPackage, EpubError>)
      ensures r == LoadPackage(zip, env, opfPath)
    {
      if opfPath !in zip {
        return Err(MissingOpf);
      }
      var parsed := env.parseOpf(env.utf8(zip[opfPath]));
      if parsed.None? {
        return Err(MalformedXml);
      }
      return Ok(parsed.value);
    }

    /** The book record of `filename`, or the reason extraction throws. */
    method ExtractMetadata(filename: string) returns (r: Result<Book, EpubError>)
      modifies this
      ensures r == MetadataOf(zip, env, filename)
      ensures LocateOpf(zip, env).Ok? ==> opfPath == LocateOpf(zip, env).value
    {
      var located := FindOpfPath();
      if located.Err? {
        return Err(located.error);
      }
      var opf := ParseOpf();
      if opf.Err? {
        return Err(opf.error);
      }
      var pkg := opf.value;
      if |pkg.metadata| == 0 || |pkg.manifest| == 0 {
        return Err(MalformedPackage);
      }
      var metadata := pkg.metadata[0];
      var items := pkg.manifest[0].item;
      var coverImage := CoverImage(zip, rootPath, items, env.base64);
      r := Ok(Book(
        id := GenerateBookId(env.sha256Hex, filename),
        filename := filename,
        title := BookTitle(metadata.title, filename),
        author := FirstValue(metadata.creator),
        description := FirstValue(metadata.description),
        coverImage := coverImage,
        language := FirstValue(metadata.language),
        publisher := FirstValue(metadata.publisher)));
    }

    /** The titles the NCX navigation map gives, one `set` per point. */
    method ReadChapterTitles(items: seq<ManifestItem>) returns (r: Result<map<string, string>, EpubError>)
      ensures r == ChapterTitles(zip, env, rootPath, items)
    {
      var ncxItem := NcxItem(items);
      if ncxItem.None? {
        return Ok(map[]);
      }
      var ncxFile := Join(rootPath, ncxItem.value.href);
      if ncxFile !in zip {
        return Ok(map[]);
      }
      var ncx := env.parseNcx(env.utf8(zip[ncxFile]));
      if ncx.None? {
        return Err(MalformedXml);
      }
      var chapterTitles := SetTitles(TopNavPoints(ncx.value));
      return Ok(chapterTitles);
    }

    /** The `forEach` that calls `chapterTitles.set(href, title)` for each point. */
    static method SetTitles(navPoints: seq<NavPoint>) returns (chapterTitles: map<string, string>)
      ensures chapterTitles == TitleMap(navPoints)
    {
      chapterTitles := map[];
      var i := 0;
      while i < |navPoints|
        invariant 0 <= i <= |navPoints|
        invariant chapterTitles == TitleMap(navPoints[..i])
      {
        assert navPoints[..i + 1][..i] == navPoints[..i];
        chapterTitles := chapterTitles[NavPointHref(navPoints[i]) := NavPointTitle(navPoints[i])];
        i := i + 1;
      }
      assert navPoints[..i] == navPoints;
    }

    /** One spine item that yields a document: its chapter and table-of-contents
        entry are pushed. */
    method PushChapter(ghost x: Extraction, chapters: seq<Chapter>, toc: seq<TocEntry>,
                       titles: map<string, string>, src: ChapterSource, index: nat)
      returns (chapters': seq<Chapter>, toc': seq<TocEntry>)
      requires x == Extraction(zip, rootPath, x.items, titles, env, HtmlClean.Cleaned)
      requires toc == TocOf(chapters)
      ensures chapters' == chapters + [ChapterFor(x, src, index, |chapters|)]
      ensures toc' == TocOf(chapters')
    {
      var cleanContent := HtmlClean.CleanHtmlContent(env.utf8(src.data));
      var chapterId := env.uuid(|chapters|);
      var chapterTitle := ChapterTitle(titles, src.href, index);
      var chapter := Chapter(chapterId, chapterTitle, cleanContent, index + 1);
      TocOfAppend(chapters, chapter);
      chapters' := chapters + [chapter];
      toc' := toc + [TocEntry(chapterId, chapterTitle, index + 1)];
    }

    /** The `forEach` over the spine: one chapter and one table-of-contents
        entry for each item whose document is found. */
    method WalkSpine(items: seq<ManifestItem>, titles: map<string, string>, idrefs: seq<string>)
      returns (chapters: seq<Chapter>, toc: seq<TocEntry>)
      ensures chapters == SpineChapters(Extraction(zip, rootPath, items, titles, env, HtmlClean.Cleaned), idrefs)
      ensures toc == TocOf(chapters)
    {
      ghost var x := Extraction(zip, rootPath, items, titles, env, HtmlClean.Cleaned);
      chapters := [];
      toc := [];
      var index := 0;
      while index < |idrefs|
        invariant 0 <= index <= |idrefs|
        invariant chapters == SpineChapters(x, idrefs[..index])
        invariant toc == TocOf(chapters)
      {
        SpineChaptersStep(x, idrefs, index);
        var src := SpineSource(zip, rootPath, items, idrefs[index]);
        if src.Some? {
          chapters, toc := PushChapter(x, chapters, toc, titles, src.value, index);
        }
        index := index + 1;
      }
      assert idrefs[..index] == idrefs;
    }

    /** The chapters and table of contents of the book, or the reason
        extraction throws. */
    method ExtractContent(bookId: string) returns (r: Result<BookContent, EpubError>)
      modifies this
      ensures r == ContentOf(zip, env, bookId)
      ensures LocateOpf(zip, env).Ok? ==> opfPath == LocateOpf(zip, env).value
    {
      var located := FindOpfPath();
      if located.Err? {
        return Err(located.error);
      }
      var opf := ParseOpf();
      if opf.Err? {
        return Err(opf.error);
      }
      var pkg := opf.value;
      if |pkg.manifest| == 0 || |pkg.spine| == 0 {
        return Err(MalformedPackage);
      }
      var items := pkg.manifest[0].item;
      var titles := ReadChapterTitles(items);
      if titles.Err? {
        return Err(titles.error);
      }
      var chapters, toc := WalkSpine(items, titles.value, pkg.spine[0].itemref);
      return Ok(BookContent(bookId, chapters, toc));
    }
  }
}
