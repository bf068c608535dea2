/** The extraction rules of the EPUB parser as functions of the archive:
    where the package document is (OCF 2.0.1, section 3.5.1), which metadata
    and cover a book gets, which titles the NCX navigation map gives
    (OPF 2.0.1, section 2.4.1) and which chapters the spine walk produces
    (OPF 2.0.1, sections 2.3 and 2.4). The zip archive is a map from entry
    name to bytes; the XML documents are the trees `xml2js` builds, reduced
    to the parts the parser reads; hashing, base64, UTF-8 decoding, the XML
    parser and `randomUUID` are supplied from outside as `Foreign`. */
module EpubRules {
  import opened Core
  import opened Text
  import opened Schema
  import HtmlClean

  /** The fixed location of the container document. */
  const ContainerPath := "META-INF/container.xml"
  const XhtmlMediaType := "application/xhtml+xml"
  const NcxMediaType := "application/x-dtbncx+xml"
  /** A chapter without a navigation label is called "Chương <position>". */
  const FallbackTitlePrefix := "Chương "

  type Archive = map<string, Bytes>

  // ---------------------------------------------------------------------
  // The parsed documents. Every repeated element is the list `xml2js`
  // builds for it; an element that is absent is an empty list.

  datatype RootfileElement = RootfileElement(fullPath: Option<string>)
  datatype RootfilesElement = RootfilesElement(rootfile: seq<RootfileElement>)
  datatype ContainerDocument = ContainerDocument(rootfiles: seq<RootfilesElement>)

  datatype OpfMetadata = OpfMetadata(
    title: seq<string>,
    creator: seq<string>,
    description: seq<string>,
    language: seq<string>,
    publisher: seq<string>)
  datatype ManifestItem = ManifestItem(id: string, href: string, mediaType: string)
  datatype OpfManifest = OpfManifest(item: seq<ManifestItem>)
  /** The `idref` of each `itemref`, in reading order. */
  datatype OpfSpine = OpfSpine(itemref: seq<string>)
  datatype OpfPackage = OpfPackage(
    metadata: seq<OpfMetadata>,
    manifest: seq<OpfManifest>,
    spine: seq<OpfSpine>)

  datatype NavLabel = NavLabel(text: seq<string>)
  datatype NavContent = NavContent(src: Option<string>)
  /** A top-level navigation point; nested points are not read. */
  datatype NavPoint = NavPoint(navLabel: seq<NavLabel>, content: seq<NavContent>)
  datatype NavMap = NavMap(navPoint: seq<NavPoint>)
  datatype TocNcx = TocNcx(navMap: seq<NavMap>)

  /** Why an extraction throws. */
  datatype EpubError =
    | MissingContainer   // "Invalid EPUB: Missing container.xml"
    | MissingRootfile    // "Invalid EPUB: Missing rootfile"
    | MissingOpf         // "Invalid EPUB: Missing OPF file"
    | MalformedXml       // the XML parser rejected a document
    | MalformedPackage   // a package section the parser indexes is absent

  /** `randomUUID` never repeats itself within one extraction. */
  ghost predicate UuidsDistinct(env: Foreign) {
    forall m: nat, n: nat :: m != n ==> env.uuid(m) != env.uuid(n)
  }

  /** The library code the parser calls. `parse…` is `None` where the XML
      parser rejects its input; `uuid(n)` is the id `randomUUID` returns for
      the n-th chapter of one extraction. */
  datatype Foreign = Foreign(
    sha256Hex: string -> string,
    base64: Bytes -> string,
    utf8: Bytes -> string,
    parseContainer: string -> Option<ContainerDocument>,
    parseOpf: string -> Option<OpfPackage>,
    parseNcx: string -> Option<TocNcx>,
    uuid: nat -> string)

  // ---------------------------------------------------------------------
  // Book id

  /** The first 32 characters of the hex SHA-256 digest of the file name. */
  function GenerateBookId(sha256Hex: string -> string, filename: string): (id: string)
    ensures StartsWith(sha256Hex(filename), id)
    ensures |id| == if |sha256Hex(filename)| < 32 then |sha256Hex(filename)| else 32
  {
    var digest := sha256Hex(filename);
    if |digest| <= 32 then digest else digest[..32]
  }

  // ---------------------------------------------------------------------
  // Locating and loading the package document

  /** `container.rootfiles[0].rootfile[0].$["full-path"]`, when it is set
      and not empty. */
  function FirstRootfilePath(doc: ContainerDocument): (r: Option<string>)
    ensures r.Some? <==> |doc.rootfiles| > 0 && |doc.rootfiles[0].rootfile| > 0
                         && doc.rootfiles[0].rootfile[0].fullPath.GetOr("") != ""
    ensures r.Some? ==> r.value == doc.rootfiles[0].rootfile[0].fullPath.value
  {
    if |doc.rootfiles| == 0 || |doc.rootfiles[0].rootfile| == 0 then None
    else
      match doc.rootfiles[0].rootfile[0].fullPath
      case Some(p) => if p == "" then None else Some(p)
      case None => None
  }

  /** The path of the package document, as `findOpfPath` finds it. */
  function LocateOpf(zip: Archive, env: Foreign): (r: Result<string, EpubError>)
    ensures r == Err(MissingContainer) <==> ContainerPath !in zip
    ensures r == Err(MissingRootfile) <==>
              && ContainerPath in zip
              && env.parseContainer(env.utf8(zip[ContainerPath])).Some?
              && FirstRootfilePath(env.parseContainer(env.utf8(zip[ContainerPath])).value).None?
    ensures r.Ok? ==>
              && ContainerPath in zip
              && env.parseContainer(env.utf8(zip[ContainerPath])).Some?
              && FirstRootfilePath(env.parseContainer(env.utf8(zip[ContainerPath])).value) == Some(r.value)
    ensures r.Ok? ==> r.value != ""
    ensures ContainerPath in zip && env.parseContainer(env.utf8(zip[ContainerPath])).None? ==> r == Err(MalformedXml)
    ensures (&& ContainerPath in zip && env.parseContainer(env.utf8(zip[ContainerPath])).Some?
             && FirstRootfilePath(env.parseContainer(env.utf8(zip[ContainerPath])).value).Some?) ==>
              r == Ok(FirstRootfilePath(env.parseContainer(env.utf8(zip[ContainerPath])).value).value)
  {
    if ContainerPath !in zip then Err(MissingContainer)
    else
      match env.parseContainer(env.utf8(zip[ContainerPath]))
      case None => Err(MalformedXml)
      case Some(doc) =>
        match FirstRootfilePath(doc)
        case None => Err(MissingRootfile)
        case Some(p) => Ok(p)
  }

  /** The parsed package document at `opfPath`, as `parseOpf` reads it. */
  function LoadPackage(zip: Archive, env: Foreign, opfPath: string): (r: Result<OpfPackage, EpubError>)
    ensures r == Err(MissingOpf) <==> opfPath !in zip
    ensures r.Ok? ==> env.parseOpf(env.utf8(zip[opfPath])) == Some(r.value)
    ensures opfPath in zip ==> (r.Ok? <==> env.parseOpf(env.utf8(zip[opfPath])).Some?)
    ensures opfPath in zip && env.parseOpf(env.utf8(zip[opfPath])).None? ==> r == Err(MalformedXml)
  {
    if opfPath !in zip then Err(MissingOpf)
    else
      match env.parseOpf(env.utf8(zip[opfPath]))
      case None => Err(MalformedXml)
      case Some(pkg) => Ok(pkg)
  }

  // ---------------------------------------------------------------------
  // Metadata

  /** `values?.[0] || undefined`: the first value, unless there is none or
      it is empty. */
  function FirstValue(values: seq<string>): (r: Option<string>)
    ensures r.Some? <==> |values| > 0 && values[0] != ""
    ensures r.Some? ==> r.value == values[0]
  {
    if |values| > 0 && values[0] != "" then Some(values[0]) else None
  }

  /** `metadata.title?.[0] || filename.replace(".epub", "")`. */
  function BookTitle(titles: seq<string>, filename: string): (r: string)
    ensures |titles| > 0 && titles[0] != "" ==> r == titles[0]
    ensures |titles| == 0 || titles[0] == "" ==> r == ReplaceFirst(filename, ".epub", "")
  {
    match FirstValue(titles)
    case Some(t) => t
    case None => ReplaceFirst(filename, ".epub", "")
  }

  /** Without a usable title, a file name `stem + ".epub"` gives the title
      `stem`, even when `stem` has further dots or another extension. */
  lemma {:induction false} FallbackTitleIsStem(titles: seq<string>, stem: string)
    requires FirstValue(titles).None?
    requires !Contains(stem, ".epub")
    ensures BookTitle(titles, stem + ".epub") == stem
  {
    var f := stem + ".epub";
    assert OccursAt(f, ".epub", |stem|) by {
      assert f[|stem|..|stem| + 5] == ".epub";
    }
    forall j: nat | j < |stem| ensures !OccursAt(f, ".epub", j) {
      if j + 5 <= |stem| {
        // the window lies inside `stem`, which has no occurrence
        assert f[j..j + 5] == stem[j..j + 5];
        assert !OccursAt(stem, ".epub", j);
      } else {
        // a window overlapping the suffix would need a second `.` inside ".epub"
        assert f[|stem|] == '.';
        assert f[j..j + 5][|stem| - j] == f[|stem|];
      }
    }
    assert f[..|stem|] == stem;
    assert f[|stem| + 5..] == [];
  }

  /** The match is case-sensitive: a name without ".epub" is kept whole. */
  lemma FallbackTitleKeepsOtherNames(titles: seq<string>, filename: string)
    requires FirstValue(titles).None? && !Contains(filename, ".epub")
    ensures BookTitle(titles, filename) == filename
  {
  }

  /** A manifest item the cover search accepts: an image whose id or href
      mentions "cover" in any letter case. */
  predicate IsCoverCandidate(item: ManifestItem) {
    && StartsWith(item.mediaType, "image/")
    && (Contains(ToLower(item.id), "cover") || Contains(ToLower(item.href), "cover"))
  }

  /** The test ignores letter case: an image whose id holds "Cover", "COVER"
      or any other casing of "cover" is a candidate. */
  lemma CoverCandidateIgnoresCase(item: ManifestItem, i: nat)
    requires StartsWith(item.mediaType, "image/")
    requires i + 5 <= |item.id| && ToLower(item.id[i..i + 5]) == "cover"
    ensures IsCoverCandidate(item)
  {
    var lower := ToLower(item.id);
    assert lower[i..i + 5] == ToLower(item.id[i..i + 5]);
    assert OccursAt(lower, "cover", i);
  }

  /** `data:<media-type>;base64,<bytes>`. */
  function DataUri(mediaType: string, encoded: string): string {
    "data:" + mediaType + ";base64," + encoded
  }

  /** An image's data URI starts with "data:image/". */
  lemma DataUriOfImage(mediaType: string, encoded: string)
    requires StartsWith(mediaType, "image/")
    ensures StartsWith(DataUri(mediaType, encoded), "data:image/")
  {
    assert DataUri(mediaType, encoded)[..11] == "data:" + mediaType[..6];
  }

  /** The cover of `extractMetadata`: only the first candidate in manifest
      order is tried; when its entry is missing there is no cover. */
  function CoverImage(zip: Archive, rootPath: string, items: seq<ManifestItem>,
                      base64: Bytes -> string): (r: Option<string>)
    ensures r.Some? ==> StartsWith(r.value, "data:image/")
  {
    match Find(items, IsCoverCandidate)
    case None => None
    case Some(item) =>
      var path := Join(rootPath, item.href);
      if path !in zip then None
      else
        DataUriOfImage(item.mediaType, base64(zip[path]));
        Some(DataUri(item.mediaType, base64(zip[path])))
  }

  /** The cover is the data URI of the first candidate, and there is one
      exactly when a candidate exists and the first one's entry is present. */
  lemma CoverIsFirstCandidate(zip: Archive, rootPath: string, items: seq<ManifestItem>,
                              base64: Bytes -> string, i: int)
    requires 0 <= i < |items| && IsCoverCandidate(items[i])
    requires forall j :: 0 <= j < i ==> !IsCoverCandidate(items[j])
    ensures var path := Join(rootPath, items[i].href);
            CoverImage(zip, rootPath, items, base64) ==
              if path in zip then Some(DataUri(items[i].mediaType, base64(zip[path]))) else None
  {
    var r := Find(items, IsCoverCandidate);
    var k :| 0 <= k < |items| && items[k] == r.value && forall j :: 0 <= j < k ==> !IsCoverCandidate(items[j]);
  }

  lemma NoCandidateNoCover(zip: Archive, rootPath: string, items: seq<ManifestItem>,
                           base64: Bytes -> string)
    requires forall j :: 0 <= j < |items| ==> !IsCoverCandidate(items[j])
    ensures CoverImage(zip, rootPath, items, base64).None?
  {
  }

  /** What `extractMetadata(filename)` returns or throws. */
  function MetadataOf(zip: Archive, env: Foreign, filename: string): (r: Result<Book, EpubError>)
    ensures ContainerPath !in zip ==> r == Err(MissingContainer)
    ensures LocateOpf(zip, env).Err? ==> r == Err(LocateOpf(zip, env).error)
    ensures LocateOpf(zip, env).Ok? && LoadPackage(zip, env, LocateOpf(zip, env).value).Err? ==>
              r == Err(LoadPackage(zip, env, LocateOpf(zip, env).value).error)
    ensures LocateOpf(zip, env).Ok? && LoadPackage(zip, env, LocateOpf(zip, env).value).Ok? ==>
              var pkg := LoadPackage(zip, env, LocateOpf(zip, env).value).value;
              && (r == Err(MalformedPackage) <==> |pkg.metadata| == 0 || |pkg.manifest| == 0)
              && (r.Ok? <==> |pkg.metadata| > 0 && |pkg.manifest| > 0)
    ensures r.Ok? ==>
              && LocateOpf(zip, env).Ok?
              && LoadPackage(zip, env, LocateOpf(zip, env).value).Ok?
              && var opfPath := LocateOpf(zip, env).value;
                 var pkg := LoadPackage(zip, env, opfPath).value;
                 && |pkg.metadata| > 0 && |pkg.manifest| > 0
                 && var md := pkg.metadata[0];
                    && r.value.id == GenerateBookId(env.sha256Hex, filename)
                    && r.value.filename == filename
                    && r.value.title == BookTitle(md.title, filename)
                    && r.value.author == FirstValue(md.creator)
                    && r.value.description == FirstValue(md.description)
                    && r.value.language == FirstValue(md.language)
                    && r.value.publisher == FirstValue(md.publisher)
                    && r.value.coverImage == CoverImage(zip, Dirname(opfPath), pkg.manifest[0].item, env.base64)
  {
    match LocateOpf(zip, env)
    case Err(e) => Err(e)
    case Ok(opfPath) =>
      match LoadPackage(zip, env, opfPath)
      case Err(e) => Err(e)
      case Ok(pkg) =>
        if |pkg.metadata| == 0 || |pkg.manifest| == 0 then Err(MalformedPackage)
        else
          var md := pkg.metadata[0];
          Ok(Book(
            id := GenerateBookId(env.sha256Hex, filename),
            filename := filename,
            title := BookTitle(md.title, filename),
            author := FirstValue(md.creator),
            description := FirstValue(md.description),
            coverImage := CoverImage(zip, Dirname(opfPath), pkg.manifest[0].item, env.base64),
            language := FirstValue(md.language),
            publisher := FirstValue(md.publisher)))
  }

  /** The id is a function of the file name alone: two archives read under
      one name give books with one id. */
  lemma BookIdIgnoresArchive(zip1: Archive, zip2: Archive, env: Foreign, filename: string)
    requires MetadataOf(zip1, env, filename).Ok? && MetadataOf(zip2, env, filename).Ok?
    ensures MetadataOf(zip1, env, filename).value.id == MetadataOf(zip2, env, filename).value.id
  {
  }

  // ---------------------------------------------------------------------
  // Navigation titles

  /** `navPoint.navLabel?.[0]?.text?.[0] || ""`. */
  function NavPointTitle(np: NavPoint): (r: string)
    ensures r != "" ==> |np.navLabel| > 0 && |np.navLabel[0].text| > 0 && r == np.navLabel[0].text[0]
    ensures |np.navLabel| == 0 || |np.navLabel[0].text| == 0 ==> r == ""
    ensures |np.navLabel| > 0 && |np.navLabel[0].text| > 0 ==> r == np.navLabel[0].text[0]
  {
    if |np.navLabel| > 0 && |np.navLabel[0].text| > 0 then np.navLabel[0].text[0] else ""
  }

  /** `(navPoint.content?.[0]?.$?.src || "").split("#")[0]`. */
  function NavPointHref(np: NavPoint): (r: string)
    ensures '#' !in r
    ensures |np.content| > 0 && np.content[0].src.Some? ==>
              && StartsWith(np.content[0].src.value, r)
              && (|r| < |np.content[0].src.value| ==> np.content[0].src.value[|r|] == '#')
    ensures |np.content| == 0 || np.content[0].src.None? ==> r == ""
  {
    var src := if |np.content| > 0 then np.content[0].src.GetOr("") else "";
    BeforeFirst(src, '#')
  }

  /** `ncx?.ncx?.navMap?.[0]?.navPoint || []`: the top-level points only. */
  function TopNavPoints(ncx: TocNcx): (r: seq<NavPoint>)
    ensures |ncx.navMap| == 0 ==> r == []
    ensures |ncx.navMap| > 0 ==> r == ncx.navMap[0].navPoint
    ensures forall p :: p in r ==> |ncx.navMap| > 0 && p in ncx.navMap[0].navPoint
  {
    if |ncx.navMap| > 0 then ncx.navMap[0].navPoint else []
  }

  /** The map `chapterTitles` after `set(href, title)` for each point in order. */
  function TitleMap(points: seq<NavPoint>): map<string, string>
    decreases |points|
  {
    if points == [] then map[]
    else
      var last := points[|points| - 1];
      TitleMap(points[..|points| - 1])[NavPointHref(last) := NavPointTitle(last)]
  }

  /** Each point sets at most one new href, so there are at most as many
      titles as points. */
  lemma {:induction false} TitleMapSize(points: seq<NavPoint>)
    ensures |TitleMap(points)| <= |points|
    decreases |points|
  {
    if points != [] {
      var n := |points| - 1;
      var front := TitleMap(points[..n]);
      TitleMapSize(points[..n]);
      var href := NavPointHref(points[n]);
      if href in front {
        assert TitleMap(points).Keys == front.Keys;
      } else {
        assert TitleMap(points).Keys == front.Keys + {href};
      }
    }
  }

  /** An href has a title iff some navigation point names it. */
  lemma {:induction false} TitleMapDomain(points: seq<NavPoint>, href: string)
    ensures href in TitleMap(points) <==> exists i :: 0 <= i < |points| && NavPointHref(points[i]) == href
    decreases |points|
  {
    if points != [] {
      var n := |points| - 1;
      var front := points[..n];
      TitleMapDomain(front, href);
      if href in TitleMap(points) {
        if NavPointHref(points[n]) != href {
          var i :| 0 <= i < n && NavPointHref(front[i]) == href;
          assert points[i] == front[i];
        }
      } else {
        forall i | 0 <= i < |points| ensures NavPointHref(points[i]) != href {
          if i < n {
            assert points[i] == front[i];
          }
        }
      }
    }
  }

  /** When several points name one href, the title of the LAST of them wins. */
  lemma {:induction false} TitleMapLastWins(points: seq<NavPoint>, i: int)
    requires 0 <= i < |points|
    requires forall j :: i < j < |points| ==> NavPointHref(points[j]) != NavPointHref(points[i])
    ensures NavPointHref(points[i]) in TitleMap(points)
    ensures TitleMap(points)[NavPointHref(points[i])] == NavPointTitle(points[i])
    decreases |points|
  {
    var n := |points| - 1;
    var front := points[..n];
    var href := NavPointHref(points[i]);
    assert TitleMap(points) == TitleMap(front)[NavPointHref(points[n]) := NavPointTitle(points[n])];
    if i < n {
      assert front[i] == points[i];
      forall j | i < j < n ensures NavPointHref(front[j]) != href {
        assert front[j] == points[j];
      }
      TitleMapLastWins(front, i);
      assert NavPointHref(points[n]) != href;
    }
  }

  /** The first manifest item whose media type is the NCX one. */
  function NcxItem(items: seq<ManifestItem>): (r: Option<ManifestItem>)
    ensures r.None? <==> forall j :: 0 <= j < |items| ==> items[j].mediaType != NcxMediaType
    ensures r.Some? ==> exists i :: 0 <= i < |items| && items[i] == r.value && r.value.mediaType == NcxMediaType
                                   && forall j :: 0 <= j < i ==> items[j].mediaType != NcxMediaType
  {
    Find(items, (item: ManifestItem) => item.mediaType == NcxMediaType)
  }

  /** The title map `extractContent` builds: empty without an NCX item or
      without its entry; an error when the NCX does not parse. */
  function ChapterTitles(zip: Archive, env: Foreign, rootPath: string,
                         items: seq<ManifestItem>): (r: Result<map<string, string>, EpubError>)
    ensures (forall j :: 0 <= j < |items| ==> items[j].mediaType != NcxMediaType) ==> r == Ok(map[])
    ensures NcxItem(items).Some? && Join(rootPath, NcxItem(items).value.href) !in zip ==> r == Ok(map[])
    ensures NcxItem(items).Some? && Join(rootPath, NcxItem(items).value.href) in zip ==>
              var parsed := env.parseNcx(env.utf8(zip[Join(rootPath, NcxItem(items).value.href)]));
              r == if parsed.None? then Err(MalformedXml) else Ok(TitleMap(TopNavPoints(parsed.value)))
    ensures r.Ok? && r.value != map[] ==>
              NcxItem(items).Some? && Join(rootPath, NcxItem(items).value.href) in zip &&
              exists ncx :: env.parseNcx(env.utf8(zip[Join(rootPath, NcxItem(items).value.href)])) == Some(ncx)
                            && r.value == TitleMap(TopNavPoints(ncx))
  {
    match NcxItem(items)
    case None => Ok(map[])
    case Some(item) =>
      var path := Join(rootPath, item.href);
      if path !in zip then Ok(map[])
      else
        match env.parseNcx(env.utf8(zip[path]))
        case None => Err(MalformedXml)
        case Some(ncx) => Ok(TitleMap(TopNavPoints(ncx)))
  }

  // ---------------------------------------------------------------------
  // The spine walk

  /** A content document found for a spine item. */
  datatype ChapterSource = ChapterSource(href: string, data: Bytes)

  /** The first manifest item with this id. */
  function ManifestItemById(items: seq<ManifestItem>, idref: string): Option<ManifestItem> {
    Find(items, (item: ManifestItem) => item.id == idref)
  }

  /** The document a spine item reads: its manifest item must exist, be
      exactly XHTML, and have an entry in the archive; otherwise it is
      skipped. */
  function SpineSource(zip: Archive, rootPath: string, items: seq<ManifestItem>,
                       idref: string): (r: Option<ChapterSource>)
    ensures r.Some? ==> Join(rootPath, r.value.href) in zip && r.value.data == zip[Join(rootPath, r.value.href)]
    ensures r.Some? ==> exists i :: FirstWithId(items, idref, i) && r.value.href == items[i].href
                                   && items[i].mediaType == XhtmlMediaType
  {
    match ManifestItemById(items, idref)
    case None => None
    case Some(item) =>
      var path := Join(rootPath, item.href);
      if item.mediaType == XhtmlMediaType && path in zip then Some(ChapterSource(item.href, zip[path]))
      else None
  }

  /** `items[i]` is the first manifest item with id `idref`. */
  predicate FirstWithId(items: seq<ManifestItem>, idref: string, i: int) {
    && 0 <= i < |items| && items[i].id == idref
    && forall j :: 0 <= j < i ==> items[j].id != idref
  }

  /** The first item with an id is the one looked up by that id. */
  lemma ManifestItemByIdIsFirst(items: seq<ManifestItem>, idref: string, i: int)
    requires FirstWithId(items, idref, i)
    ensures ManifestItemById(items, idref) == Some(items[i])
  {
    var found := ManifestItemById(items, idref);
    assert found.Some?;
    var k :| 0 <= k < |items| && items[k] == found.value
             && forall j :: 0 <= j < k ==> items[j].id != idref;
    assert items[k].id == idref;
    assert !(i < k) && !(k < i);
  }

  /** A spine item yields a document exactly when the FIRST manifest item
      with its id is XHTML and present in the archive; a later item with the
      same id is never consulted. */
  lemma SpineSourceUsesFirstItem(zip: Archive, rootPath: string, items: seq<ManifestItem>, idref: string)
    ensures SpineSource(zip, rootPath, items, idref).Some? <==>
              exists i :: FirstWithId(items, idref, i)
                          && items[i].mediaType == XhtmlMediaType
                          && Join(rootPath, items[i].href) in zip
  {
    var found := ManifestItemById(items, idref);
    if found.Some? {
      var k :| 0 <= k < |items| && items[k] == found.value
               && forall j :: 0 <= j < k ==> items[j].id != idref;
      assert FirstWithId(items, idref, k);
      forall i | FirstWithId(items, idref, i) ensures i == k {
        ManifestItemByIdIsFirst(items, idref, i);
      }
    } else {
      forall i | 0 <= i < |items| ensures !FirstWithId(items, idref, i) {
        assert items[i].id != idref;
      }
    }
  }

  /** The title of the chapter read from `href` at spine index `index`. */
  function ChapterTitle(titles: map<string, string>, href: string, index: nat): (r: string)
    ensures r != ""
    ensures href in titles && titles[href] != "" ==> r == titles[href]
    ensures href !in titles || titles[href] == "" ==> r == FallbackTitlePrefix + NatToString(index + 1)
  {
    if href in titles && titles[href] != "" then titles[href]
    else FallbackTitlePrefix + NatToString(index + 1)
  }

  /** Fallback titles of different spine positions differ. */
  lemma FallbackTitlesDistinct(i: nat, j: nat)
    requires i != j
    ensures FallbackTitlePrefix + NatToString(i + 1) != FallbackTitlePrefix + NatToString(j + 1)
  {
    if FallbackTitlePrefix + NatToString(i + 1) == FallbackTitlePrefix + NatToString(j + 1) {
      var n := |FallbackTitlePrefix|;
      assert (FallbackTitlePrefix + NatToString(i + 1))[n..] == NatToString(i + 1);
      assert (FallbackTitlePrefix + NatToString(j + 1))[n..] == NatToString(j + 1);
      NatToStringInjective(i + 1, j + 1);
    }
  }

  /** What the spine walk works from; `clean` is the cleaning applied to
      each document, `HtmlClean.Cleaned` in `ContentOf`. */
  datatype Extraction = Extraction(
    zip: Archive,
    rootPath: string,
    items: seq<ManifestItem>,
    titles: map<string, string>,
    env: Foreign,
    clean: string -> string)

  /** The chapter pushed as the `n`-th one, read from `src` at spine index `index`. */
  function ChapterFor(x: Extraction, src: ChapterSource, index: nat, n: nat): (r: Chapter)
    ensures r.order == index + 1 && r.title != ""
    ensures r.id == x.env.uuid(n)
    ensures r.title == ChapterTitle(x.titles, src.href, index)
    ensures r.content == x.clean(x.env.utf8(src.data))
  {
    Chapter(x.env.uuid(n), ChapterTitle(x.titles, src.href, index),
            x.clean(x.env.utf8(src.data)), index + 1)
  }

  /** `c` is the `n`-th chapter pushed, read for the spine item `idref` at `index`. */
  predicate BuiltFrom(x: Extraction, idref: string, index: nat, n: nat, c: Chapter) {
    var src := SpineSource(x.zip, x.rootPath, x.items, idref);
    src.Some? && c == ChapterFor(x, src.value, index, n)
  }

  /** The chapters `extractContent` pushes while walking `idrefs`. */
  function SpineChapters(x: Extraction, idrefs: seq<string>): (r: seq<Chapter>)
    ensures |r| <= |idrefs|
    decreases |idrefs|
  {
    if idrefs == [] then []
    else
      var i := |idrefs| - 1;
      var prev := SpineChapters(x, idrefs[..i]);
      match SpineSource(x.zip, x.rootPath, x.items, idrefs[i])
      case None => prev
      case Some(src) => prev + [ChapterFor(x, src, i, |prev|)]
  }

  /** One step of the walk: the item at `i` adds its chapter, if it yields one. */
  lemma SpineChaptersStep(x: Extraction, idrefs: seq<string>, i: int)
    requires 0 <= i < |idrefs|
    ensures var prev := SpineChapters(x, idrefs[..i]);
            SpineChapters(x, idrefs[..i + 1]) ==
              match SpineSource(x.zip, x.rootPath, x.items, idrefs[i])
              case None => prev
              case Some(src) => prev + [ChapterFor(x, src, i, |prev|)]
  {
    assert idrefs[..i + 1][..i] == idrefs[..i];
  }

  /** Each chapter is the `j`-th one pushed and comes from the spine item at
      position `order - 1`; there are at most as many chapters as items. */
  lemma {:induction false} SpineChaptersBuilt(x: Extraction, idrefs: seq<string>)
    ensures var chs := SpineChapters(x, idrefs);
            && |chs| <= |idrefs|
            && forall j :: 0 <= j < |chs| ==>
                 1 <= chs[j].order <= |idrefs|
                 && BuiltFrom(x, idrefs[chs[j].order - 1], chs[j].order - 1, j, chs[j])
    decreases |idrefs|
  {
    if idrefs != [] {
      var i := |idrefs| - 1;
      var front := idrefs[..i];
      SpineChaptersBuilt(x, front);
      var prev := SpineChapters(x, front);
      forall j | 0 <= j < |prev| ensures idrefs[prev[j].order - 1] == front[prev[j].order - 1] { }
    }
  }

  /** Chapter orders strictly increase. */
  lemma {:induction false} SpineChaptersIncreasing(x: Extraction, idrefs: seq<string>)
    ensures OrdersIncrease(SpineChapters(x, idrefs))
    decreases |idrefs|
  {
    if idrefs != [] {
      var front := idrefs[..|idrefs| - 1];
      SpineChaptersIncreasing(x, front);
      SpineChaptersBuilt(x, front);
    }
  }

  /** Every spine item that yields a document has a chapter, at order `index + 1`. */
  lemma {:induction false} SpineChaptersComplete(x: Extraction, idrefs: seq<string>, i: int)
    requires 0 <= i < |idrefs| && SpineSource(x.zip, x.rootPath, x.items, idrefs[i]).Some?
    ensures exists j :: 0 <= j < |SpineChapters(x, idrefs)| && SpineChapters(x, idrefs)[j].order == i + 1
    decreases |idrefs|
  {
    var n := |idrefs| - 1;
    var front := idrefs[..n];
    var prev := SpineChapters(x, front);
    var chs := SpineChapters(x, idrefs);
    if i == n {
      assert chs[|prev|].order == i + 1;
    } else {
      assert front[i] == idrefs[i];
      SpineChaptersComplete(x, front, i);
      var j :| 0 <= j < |prev| && prev[j].order == i + 1;
      assert chs[j] == prev[j];
    }
  }

  /** With `randomUUID` never repeating itself, chapter ids are distinct. */
  lemma SpineChapterIdsDistinct(x: Extraction, idrefs: seq<string>)
    ensures UuidsDistinct(x.env) ==> DistinctChapterIds(SpineChapters(x, idrefs))
  {
    SpineChaptersBuilt(x, idrefs);
  }

  /** A spine item that yields nothing still uses up its position: when the
      first of two items is skipped, the only chapter has order 2. */
  lemma SkippedItemLeavesGap(x: Extraction, first: string, second: string)
    requires SpineSource(x.zip, x.rootPath, x.items, first).None?
    requires SpineSource(x.zip, x.rootPath, x.items, second).Some?
    ensures |SpineChapters(x, [first, second])| == 1
    ensures SpineChapters(x, [first, second])[0].order == 2
  {
    var idrefs := [first, second];
    assert idrefs[..1] == [first];
    assert [first][..0] == [];
    assert SpineChapters(x, [first]) == [];
  }

  /** Without navigation titles every chapter is named after its spine position. */
  lemma UntitledChaptersUseFallback(x: Extraction, idrefs: seq<string>)
    requires x.titles == map[]
    ensures var chs := SpineChapters(x, idrefs);
            forall j :: 0 <= j < |chs| ==>
              chs[j].order >= 1 && chs[j].title == FallbackTitlePrefix + NatToString(chs[j].order)
  {
    SpineChaptersBuilt(x, idrefs);
  }

  /** Each chapter's title is looked up under the href of the manifest item
      its spine entry names, with the spine position as the fallback. */
  lemma {:induction false} SpineChapterTitle(x: Extraction, idrefs: seq<string>, i: int, j: int)
    requires 0 <= j < |SpineChapters(x, idrefs)| && SpineChapters(x, idrefs)[j].order == i + 1
    ensures 0 <= i < |idrefs| && SpineSource(x.zip, x.rootPath, x.items, idrefs[i]).Some?
    ensures SpineChapters(x, idrefs)[j].title
            == ChapterTitle(x.titles, SpineSource(x.zip, x.rootPath, x.items, idrefs[i]).value.href, i)
  {
    SpineChaptersBuilt(x, idrefs);
    assert BuiltFrom(x, idrefs[i], i, j, SpineChapters(x, idrefs)[j]);
  }

  /** With the titles read from navigation points, the chapter built for a
      spine item whose document is named by a point's href is titled with that
      point's label, provided the label is non-empty and no later point names
      the same href. */
  lemma {:induction false} NavLabelTitlesChapter(x: Extraction, idrefs: seq<string>, points: seq<NavPoint>,
                              i: int, j: int, p: int)
    requires x.titles == TitleMap(points)
    requires 0 <= p < |points| && NavPointTitle(points[p]) != ""
    requires forall q :: p < q < |points| ==> NavPointHref(points[q]) != NavPointHref(points[p])
    requires 0 <= i < |idrefs|
    requires var src := SpineSource(x.zip, x.rootPath, x.items, idrefs[i]);
             src.Some? && src.value.href == NavPointHref(points[p])
    requires 0 <= j < |SpineChapters(x, idrefs)| && SpineChapters(x, idrefs)[j].order == i + 1
    ensures SpineChapters(x, idrefs)[j].title == NavPointTitle(points[p])
  {
    SpineChapterTitle(x, idrefs, i, j);
    var href := SpineSource(x.zip, x.rootPath, x.items, idrefs[i]).value.href;
    assert SpineChapters(x, idrefs)[j].title == ChapterTitle(x.titles, href, i);
    TitleMapLastWins(points, p);
    assert href in x.titles && x.titles[href] == NavPointTitle(points[p]);
  }

  /** The text of a cleaned chapter neither starts nor ends with whitespace. */
  lemma CleanedChapterTrimmed(x: Extraction, idrefs: seq<string>, j: int)
    requires x.clean == HtmlClean.Cleaned
    requires 0 <= j < |SpineChapters(x, idrefs)|
    ensures var c := SpineChapters(x, idrefs)[j].content;
            c != [] ==> !IsJsWhitespace(c[0]) && !IsJsWhitespace(c[|c| - 1])
  {
    SpineChaptersBuilt(x, idrefs);
    var chs := SpineChapters(x, idrefs);
    var k := chs[j].order - 1;
    assert BuiltFrom(x, idrefs[k], k, j, chs[j]);
    var src := SpineSource(x.zip, x.rootPath, x.items, idrefs[k]).value;
    assert chs[j] == ChapterFor(x, src, k, j);
    assert chs[j].content == HtmlClean.Cleaned(x.env.utf8(src.data));
  }

  /** What `extractContent(bookId)` returns or throws. The manifest and the
      spine are indexed before the navigation document is read. */
  function ContentOf(zip: Archive, env: Foreign, bookId: string): (r: Result<BookContent, EpubError>)
    ensures ContainerPath !in zip ==> r == Err(MissingContainer)
    ensures LocateOpf(zip, env).Err? ==> r == Err(LocateOpf(zip, env).error)
    ensures LocateOpf(zip, env).Ok? && LoadPackage(zip, env, LocateOpf(zip, env).value).Err? ==>
              r == Err(LoadPackage(zip, env, LocateOpf(zip, env).value).error)
    ensures LocateOpf(zip, env).Ok? && LoadPackage(zip, env, LocateOpf(zip, env).value).Ok? ==>
              var pkg := LoadPackage(zip, env, LocateOpf(zip, env).value).value;
              |pkg.manifest| == 0 || |pkg.spine| == 0 ==> r == Err(MalformedPackage)
    ensures LocateOpf(zip, env).Ok? && LoadPackage(zip, env, LocateOpf(zip, env).value).Ok? ==>
              var pkg := LoadPackage(zip, env, LocateOpf(zip, env).value).value;
              |pkg.manifest| > 0 && |pkg.spine| > 0 ==>
                var titles := ChapterTitles(zip, env, Dirname(LocateOpf(zip, env).value), pkg.manifest[0].item);
                (r.Ok? <==> titles.Ok?) && (titles.Err? ==> r == Err(titles.error))
    ensures r.Ok? ==>
              && LocateOpf(zip, env).Ok?
              && LoadPackage(zip, env, LocateOpf(zip, env).value).Ok?
              && var rootPath := Dirname(LocateOpf(zip, env).value);
                 var pkg := LoadPackage(zip, env, LocateOpf(zip, env).value).value;
                 && |pkg.manifest| > 0 && |pkg.spine| > 0
                 && ChapterTitles(zip, env, rootPath, pkg.manifest[0].item).Ok?
                 && var titles := ChapterTitles(zip, env, rootPath, pkg.manifest[0].item).value;
                    r.value.chapters ==
                      SpineChapters(Extraction(zip, rootPath, pkg.manifest[0].item, titles, env, HtmlClean.Cleaned),
                                    pkg.spine[0].itemref)
    ensures r.Ok? ==> r.value.bookId == bookId && r.value.toc == TocOf(r.value.chapters)
    ensures r.Ok? ==> OrdersIncrease(r.value.chapters)
    ensures r.Ok? && UuidsDistinct(env) ==>
              DistinctChapterIds(r.value.chapters) && DistinctTocIds(r.value.toc)
  {
    match LocateOpf(zip, env)
    case Err(e) => Err(e)
    case Ok(opfPath) =>
      match LoadPackage(zip, env, opfPath)
      case Err(e) => Err(e)
      case Ok(pkg) =>
        if |pkg.manifest| == 0 || |pkg.spine| == 0 then Err(MalformedPackage)
        else
          var rootPath := Dirname(opfPath);
          var items := pkg.manifest[0].item;
          match ChapterTitles(zip, env, rootPath, items)
          case Err(e) => Err(e)
          case Ok(titles) =>
            var x := Extraction(zip, rootPath, items, titles, env, HtmlClean.Cleaned);
            var chapters := SpineChapters(x, pkg.spine[0].itemref);
            SpineChaptersIncreasing(x, pkg.spine[0].itemref);
            SpineChapterIdsDistinct(x, pkg.spine[0].itemref);
            TocOfDistinctIds(chapters);
            Ok(BookContent(bookId, chapters, TocOf(chapters)))
  }
}
