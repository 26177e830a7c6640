/**
 * The path generator: the bucket a file is filed under, and the organised
 * download path `website-downloader/<domain>/<path>/<bucket>/<file>` built
 * from a page URL.
 */
module FileUtils {
  import opened Text
  import opened Wrappers
  import opened Urls
  import opened Constants

  /** The folder every generated download path starts with. */
  const RootFolder: AStr := "website-downloader"

  /** The answers `DetermineFileType` can give: the table's folders, then the fallback. */
  const Buckets: seq<AStr> := ["html", "css", "javascript", "images", "fonts", "media", "documents", "data", "other"]

  /** What the host reports of a download: its file name and MIME type (empty when unknown). */
  datatype DownloadItem = DownloadItem(filename: AStr, mime: string)

  /**
   * The `.ext` the classifier looks up: a dot and the lower-cased text after
   * the name's last dot, which is the whole lower-cased name when it has no dot.
   */
  function ExtensionOf(filename: AStr): (ext: AStr)
    ensures |ext| >= 1 && ext[0] == '.'
    ensures IsLastPiece(ext[1..], Lower(filename), '.')
    ensures IsLowerCase(ext)
  {
    var low := Lower(filename);
    var last := LastPiece(low, '.');
    LastPieceIsLast(low, '.');
    DotSuffix(low, last);
    "." + last
  }

  /** A dot followed by a piece at the end of a lower-case string is lower case. */
  lemma DotSuffix(low: AStr, last: AStr)
    requires IsLowerCase(low) && |last| <= |low| && low[|low| - |last|..] == last
    ensures IsLowerCase("." + last) && ("." + last)[1..] == last
  {
    assert forall i :: 0 <= i < |last| ==> last[i] == low[|low| - |last| + i];
  }

  /** A row accepts a file when its extension or its MIME type is listed there. */
  predicate Matches(row: FileType, ext: AStr, mime: string) {
    ext in row.extensions || mime in row.mimeTypes
  }

  /** Row `k` is the first row of `table` that accepts the file. */
  predicate IsFirstMatch(table: seq<FileType>, k: int, ext: AStr, mime: string) {
    && 0 <= k < |table|
    && Matches(table[k], ext, mime)
    && forall j :: 0 <= j < k ==> !Matches(table[j], ext, mime)
  }

  /**
   * The search over the table: rows in order, the extension and then the
   * MIME type within a row; the first hit decides, no hit gives `other`.
   */
  function FindFolder(table: seq<FileType>, ext: AStr, mime: string): (folder: AStr)
    ensures || (exists k :: IsFirstMatch(table, k, ext, mime) && folder == table[k].folder)
            || ((forall k :: 0 <= k < |table| ==> !Matches(table[k], ext, mime)) && folder == Other)
  {
    if |table| == 0 then Other
    else if ext in table[0].extensions then
      assert IsFirstMatch(table, 0, ext, mime);
      table[0].folder
    else if mime in table[0].mimeTypes then
      assert IsFirstMatch(table, 0, ext, mime);
      table[0].folder
    else
      var folder := FindFolder(table[1..], ext, mime);
      assert forall k :: 0 < k < |table| ==> table[k] == table[1..][k - 1];
      assert forall k :: IsFirstMatch(table[1..], k, ext, mime) ==> IsFirstMatch(table, k + 1, ext, mime);
      folder
  }

  /**
   * `determineFileType`: the folder of the first row accepting the file's
   * extension (case-insensitively) or its MIME type (exactly), else `other`.
   */
  function DetermineFileType(filename: AStr, mime: string): (folder: AStr)
    ensures folder in Buckets
    ensures folder == Other <==> forall k :: 0 <= k < |FileTypes| ==> !Matches(FileTypes[k], ExtensionOf(filename), mime)
    ensures folder != Other ==>
      exists k :: IsFirstMatch(FileTypes, k, ExtensionOf(filename), mime) && folder == FileTypes[k].folder
  {
    TableOrder();
    FoldersDistinct();
    assert forall k :: 0 <= k < |FileTypes| ==> FileTypes[k].folder == Buckets[k];
    FindFolder(FileTypes, ExtensionOf(filename), mime)
  }

  /** Lower-casing the file name first changes nothing: extensions are compared case-insensitively. */
  lemma ExtensionCaseInsensitive(filename: AStr, mime: string)
    ensures DetermineFileType(Lower(filename), mime) == DetermineFileType(filename, mime)
  {
    LowerIdempotent(filename);
  }

  /** The search stops at the first row listing the extension or the MIME type. */
  lemma {:induction false} FindFolderStops(table: seq<FileType>, k: nat, ext: AStr, mime: string)
    requires k < |table| && Matches(table[k], ext, mime)
    requires forall j :: 0 <= j < k ==> !Matches(table[j], ext, mime)
    ensures FindFolder(table, ext, mime) == table[k].folder
  {
    if k > 0 {
      assert forall j :: 0 <= j < k - 1 ==> table[1..][j] == table[j + 1];
      FindFolderStops(table[1..], k - 1, ext, mime);
    }
  }

  /** A listed extension decides the folder unless an earlier row lists the MIME type. */
  lemma ExtensionDecides(k: nat, filename: AStr, mime: string)
    requires k < |FileTypes|
    requires ExtensionOf(filename) in FileTypes[k].extensions
    requires forall j :: 0 <= j < k ==> mime !in FileTypes[j].mimeTypes
    ensures DetermineFileType(filename, mime) == FileTypes[k].folder
  {
    var ext := ExtensionOf(filename);
    forall j | 0 <= j < k
      ensures ext !in FileTypes[j].extensions
    {
      if ext in FileTypes[j].extensions {
        ExtensionListedOnce(j, k, ext);
      }
    }
    FindFolderStops(FileTypes, k, ext, mime);
  }

  /** A listed MIME type decides the folder unless the extension is listed in its row or an earlier one. */
  lemma MimeTypeDecides(k: nat, filename: AStr, mime: string)
    requires k < |FileTypes|
    requires mime in FileTypes[k].mimeTypes
    requires forall j :: 0 <= j <= k ==> ExtensionOf(filename) !in FileTypes[j].extensions
    ensures DetermineFileType(filename, mime) == FileTypes[k].folder
  {
    var ext := ExtensionOf(filename);
    forall j | 0 <= j < k
      ensures mime !in FileTypes[j].mimeTypes
    {
      if mime in FileTypes[j].mimeTypes {
        MimeTypeListedOnce(j, k, mime);
      }
    }
    FindFolderStops(FileTypes, k, ext, mime);
  }

  /** A well-formed extension is its own `.ext`. */
  lemma ExtensionOfExtension(e: AStr)
    requires IsExtension(e)
    ensures ExtensionOf(e) == e
  {
    assert Lower(e) == e;
    assert IsLastPiece(e[1..], e, '.');
    LastPieceUnique(ExtensionOf(e)[1..], e[1..], e, '.');
  }

  /** Every extension of the table is reachable: a file named by it alone lands in its row's folder. */
  lemma EveryExtensionReachable(k: nat, e: AStr)
    requires k < |FileTypes| && e in FileTypes[k].extensions
    ensures DetermineFileType(e, "") == FileTypes[k].folder
  {
    ExtensionsWellFormed();
    MimeTypesDisjoint();
    ExtensionOfExtension(e);
    ExtensionDecides(k, e, "");
  }

  /** A name without a dot is its own extension. */
  lemma DotlessName(filename: AStr)
    requires '.' !in filename
    ensures ExtensionOf(filename) == "." + Lower(filename)
  {
    var low := Lower(filename);
    assert '.' !in low;
    assert IsLastPiece(low, low, '.');
    LastPieceUnique(ExtensionOf(filename)[1..], low, low, '.');
  }

  /** The `.ext` of a name with one dot. */
  lemma ExtensionAfterDot(stem: AStr, ext: AStr)
    requires '.' !in stem && '.' !in ext
    requires IsLowerCase(stem) && IsLowerCase(ext)
    ensures ExtensionOf(stem + "." + ext) == "." + ext
  {
    var name := stem + "." + ext;
    assert Lower(name) == name;
    assert name[|name| - |ext|..] == ext;
    assert IsLastPiece(ext, name, '.');
    LastPieceUnique(ExtensionOf(name)[1..], ext, name, '.');
  }

  /** The `.ext` of a style sheet name. */
  lemma CssExtension(stem: AStr)
    requires '.' !in stem && IsLowerCase(stem)
    ensures ExtensionOf(stem + ".css") == ".css"
  {
    ExtensionAfterDot(stem, "css");
    assert stem + "." + "css" == stem + ".css";
  }

  /** Rows are tried one at a time: the HTML row's MIME type wins over the CSS row's extension. */
  lemma RowOrderWins(stem: AStr)
    requires '.' !in stem && IsLowerCase(stem)
    ensures DetermineFileType(stem + ".css", "text/html") == "html"
  {
    CssExtension(stem);
    MimeTypeDecides(0, stem + ".css", "text/html");
  }

  /** The `.ext` of a name that is `css` in some case. */
  lemma CssName(name: AStr)
    requires Lower(name) == "css"
    ensures ExtensionOf(name) == ".css"
  {
    assert '.' !in Lower(name);
    DotlessName(name);
  }

  /** A name without a dot is looked up whole, in any case: `CSS` is filed with the style sheets. */
  lemma WholeNameIsExtension(name: AStr)
    requires Lower(name) == "css"
    ensures DetermineFileType(name, "") == "css"
  {
    CssName(name);
    MimeTypesDisjoint();
    ExtensionDecides(1, name, "");
  }

  /** `ensureDirectoryStructure`: the bucket of a finished download, by its name and MIME type. */
  function EnsureDirectoryStructure(item: DownloadItem): (folder: AStr)
    ensures folder in Buckets
    ensures folder == DetermineFileType(item.filename, item.mime)
  {
    DetermineFileType(item.filename, item.mime)
  }

  /** The characters a domain folder keeps: `[A-Za-z0-9-]`. */
  predicate IsDomainChar(c: char) {
    'a' <= c <= 'z' || 'A' <= c <= 'Z' || '0' <= c <= '9' || c == '-'
  }

  /**
   * `getDomainFromUrl`: the hostname without a leading `www.`, every other
   * character replaced by `-`; `website` when the URL does not parse.
   */
  function GetDomainFromUrl(p: UrlParser, url: string): (domain: AStr)
    ensures forall i :: 0 <= i < |domain| ==> IsDomainChar(domain[i])
    ensures p.parse(url).None? ==> domain == "website"
    ensures p.parse(url).Some? ==>
      var host := StripWww(p.parse(url).value.hostname);
      && |domain| == |host|
      && forall i :: 0 <= i < |host| ==> domain[i] == (if IsDomainChar(host[i]) then host[i] else '-')
  {
    match p.parse(url)
    case None => "website"
    case Some(u) =>
      var host := StripWww(u.hostname);
      seq(|host|, i requires 0 <= i < |host| => if IsDomainChar(host[i]) then host[i] else '-')
  }

  /** A host name made only of domain characters is kept as it is, after `www.` is dropped. */
  lemma DomainOfPlainHost(p: UrlParser, url: string)
    requires p.parse(url).Some?
    requires forall c :: c in StripWww(p.parse(url).value.hostname) ==> IsDomainChar(c)
    ensures GetDomainFromUrl(p, url) == StripWww(p.parse(url).value.hostname)
  {
  }

  /** `.filter(Boolean)` on the pieces of a path: the empty ones go, the others stay in order. */
  function NonEmpty(parts: seq<AStr>): seq<AStr> {
    if |parts| == 0 then []
    else if parts[0] == [] then NonEmpty(parts[1..])
    else [parts[0]] + NonEmpty(parts[1..])
  }

  /** The pieces kept are non-empty pieces of the input, and nothing goes when every piece is non-empty. */
  lemma {:induction false} NonEmptySpec(parts: seq<AStr>)
    ensures forall k :: 0 <= k < |NonEmpty(parts)| ==> NonEmpty(parts)[k] != [] && NonEmpty(parts)[k] in parts
    ensures (forall k :: 0 <= k < |parts| ==> parts[k] != []) ==> NonEmpty(parts) == parts
  {
    if |parts| > 0 {
      NonEmptySpec(parts[1..]);
      assert forall x :: x in parts[1..] ==> x in parts;
      if parts[0] != [] {
        assert parts == [parts[0]] + parts[1..];
      }
    }
  }

  /** Filtering a concatenation filters each part: the kept pieces stay in input order. */
  lemma {:induction false} NonEmptyAppend(a: seq<AStr>, b: seq<AStr>)
    ensures NonEmpty(a + b) == NonEmpty(a) + NonEmpty(b)
    decreases |a|
  {
    if a == [] {
      assert a + b == b;
    } else {
      NonEmptyAppend(a[1..], b);
      assert (a + b)[0] == a[0] && (a + b)[1..] == a[1..] + b;
    }
  }

  /** A single piece is kept exactly when it is not empty. */
  lemma NonEmptySingle(x: AStr)
    ensures NonEmpty([x]) == if x == [] then [] else [x]
  {
    assert [x][1..] == [];
  }

  /**
   * `pathToSnakeCase`: `root` for the empty path and `/`, otherwise the
   * non-empty `/`-pieces joined by `-` and lower-cased.
   */
  function PathToSnakeCase(path: AStr): (dir: AStr)
    ensures path == [] || path == "/" ==> dir == "root"
    ensures '/' !in dir
    ensures IsLowerCase(dir)
  {
    if path == [] || path == "/" then "root"
    else
      var pieces := NonEmpty(Split(path, '/'));
      SplitPieces(path, '/');
      NonEmptySpec(Split(path, '/'));
      JoinAvoids(pieces, '-', '/');
      var joined := Join(pieces, '-');
      assert forall i :: 0 <= i < |joined| ==> Lower(joined)[i] == LowerChar(joined[i]);
      Lower(joined)
  }

  /** A path of non-empty pieces becomes those pieces joined by `-`, lower-cased. */
  lemma SnakeCaseOfSegments(segments: seq<AStr>)
    requires |segments| >= 1
    requires forall k :: 0 <= k < |segments| ==> segments[k] != [] && '/' !in segments[k]
    ensures PathToSnakeCase("/" + Join(segments, '/')) == Lower(Join(segments, '-'))
  {
    PiecesOfSegments(segments);
    SnakeCaseOfPieces("/" + Join(segments, '/'), segments);
  }

  /** A `/` before every one of some non-empty pieces splits back into those pieces. */
  lemma PiecesOfSegments(segments: seq<AStr>)
    requires |segments| >= 1
    requires forall k :: 0 <= k < |segments| ==> segments[k] != [] && '/' !in segments[k]
    ensures var path := "/" + Join(segments, '/'); path != [] && path != "/" && NonEmpty(Split(path, '/')) == segments
  {
    var parts := Split("/" + Join(segments, '/'), '/');
    SplitLeadingSlash(segments);
    assert parts[0] == [] && parts[1..] == segments;
    NonEmptySpec(segments);
    JoinNonEmpty(segments, '/');
  }

  /** A leading `/` splits off an empty first piece. */
  lemma SplitLeadingSlash(segments: seq<AStr>)
    requires |segments| >= 1
    requires forall k :: 0 <= k < |segments| ==> '/' !in segments[k]
    ensures Split("/" + Join(segments, '/'), '/') == [[]] + segments
  {
    var joined := Join(segments, '/');
    assert "/" + joined == [] + ['/'] + joined;
    SplitAfterPiece([], joined, '/');
    SplitJoin(segments, '/');
  }

  /** Past the two special cases, the result is the non-empty pieces joined by `-`, lower-cased. */
  lemma SnakeCaseOfPieces(path: AStr, pieces: seq<AStr>)
    requires path != [] && path != "/"
    requires NonEmpty(Split(path, '/')) == pieces
    ensures PathToSnakeCase(path) == Lower(Join(pieces, '-'))
  {
  }

  /** A join starting with a non-empty piece is not empty. */
  lemma JoinNonEmpty(parts: seq<AStr>, sep: Ascii)
    requires |parts| >= 1 && parts[0] != []
    ensures |Join(parts, sep)| >= 2 || (|parts| == 1 && Join(parts, sep) == parts[0])
  {
  }

  /** The folder names a download path is built from hold no `/`. */
  lemma FolderNamesHaveNoSlash()
    ensures '/' !in RootFolder && '/' !in PagesFolder && '/' !in MainPageFile
    ensures forall b :: b in Buckets ==> '/' !in b
  {
  }

  /** `website-downloader/<domain>/<path>`: the folder a page's files go under. */
  function BaseDir(domain: AStr, dir: AStr): AStr {
    Join([RootFolder, domain, dir], '/')
  }

  /**
   * `generateDownloadPath`: the base folder and then `pages/index.html` for
   * the main page or `<bucket>/<filename>` for a resource. `new URL(url)` is
   * not guarded there, so a URL that does not parse gives no path.
   */
  function GenerateDownloadPath(p: UrlParser, filename: AStr, mime: string, url: string, isMainPage: bool): (path: Option<AStr>)
    ensures path.None? <==> p.parse(url).None?
  {
    match p.parse(url)
    case None => None
    case Some(u) => Some(BaseDir(GetDomainFromUrl(p, url), PathToSnakeCase(u.pathname)) + "/" + Tail(filename, mime, isMainPage))
  }

  /**
   * The generated path splits at `/` into the root folder, the domain, the
   * path folder, and then `pages`, `index.html` for the main page or the
   * bucket followed by the pieces of the file name.
   */
  lemma DownloadPathLayout(p: UrlParser, filename: AStr, mime: string, url: string, isMainPage: bool)
    requires p.parse(url).Some?
    ensures
      Split(GenerateDownloadPath(p, filename, mime, url, isMainPage).value, '/') ==
        [RootFolder, GetDomainFromUrl(p, url), PathToSnakeCase(p.parse(url).value.pathname)]
        + (if isMainPage then [PagesFolder, MainPageFile] else [DetermineFileType(filename, mime)] + Split(filename, '/'))
  {
    var domain := GetDomainFromUrl(p, url);
    var dir := PathToSnakeCase(p.parse(url).value.pathname);
    var tail := Tail(filename, mime, isMainPage);
    assert GenerateDownloadPath(p, filename, mime, url, isMainPage).value == BaseDir(domain, dir) + "/" + tail;
    PathPieces(domain, dir, tail);
    TailPieces(filename, mime, isMainPage);
  }

  const PagesFolder: AStr := "pages"
  const MainPageFile: AStr := "index.html"

  /** What follows the base folder: `pages/index.html` for the main page, else `<bucket>/<filename>`. */
  function Tail(filename: AStr, mime: string, isMainPage: bool): AStr {
    if isMainPage then PagesFolder + "/" + MainPageFile else DetermineFileType(filename, mime) + "/" + filename
  }

  /** The three folders of the base split off as three pieces. */
  lemma PathPieces(domain: AStr, dir: AStr, tail: AStr)
    requires forall i :: 0 <= i < |domain| ==> IsDomainChar(domain[i])
    requires '/' !in dir
    ensures Split(BaseDir(domain, dir) + "/" + tail, '/') == [RootFolder, domain, dir] + Split(tail, '/')
  {
    FolderNamesHaveNoSlash();
    assert '/' !in domain;
    SplitAfterPieces([RootFolder, domain, dir], tail, '/');
  }

  /** The pieces after the base: the main page's two, or the bucket and the file name's. */
  lemma TailPieces(filename: AStr, mime: string, isMainPage: bool)
    ensures Split(Tail(filename, mime, isMainPage), '/') ==
      if isMainPage then [PagesFolder, MainPageFile] else [DetermineFileType(filename, mime)] + Split(filename, '/')
  {
    if isMainPage {
      MainPagePieces();
    } else {
      var bucket := DetermineFileType(filename, mime);
      FolderNamesHaveNoSlash();
      SplitAfterPiece(bucket, filename, '/');
    }
  }

  lemma MainPagePieces()
    ensures Split(PagesFolder + "/" + MainPageFile, '/') == [PagesFolder, MainPageFile]
  {
    FolderNamesHaveNoSlash();
    SplitAfterPiece(PagesFolder, MainPageFile, '/');
    SplitNoSep(MainPageFile, '/');
  }
}
