# Site downloader naming, extraction and dispatch in Dafny

This project models the core of a browser extension that saves a web page and
the resources it links to. That core has three parts:

- **`WebDownloader`** (`background/downloader.js`). It turns a page URL into
  folder names. `sanitizeName`, `getWebsiteRoot`, `getPathName` and
  `createFolderPath` do this. `getPageResources` finds the stylesheets,
  scripts, images and linked `.html` pages of a parsed page, with its
  `resolveUrl` and `getFilename` helpers. `downloadResources` requests one
  download per resource and sorts the resources into `succeeded` and `failed`.
- **The path generator** (`utils/fileUtils.js`).
  - `determineFileType` is the first-match classifier that picks a bucket
    folder.
  - `getDomainFromUrl` and `pathToSnakeCase` derive folder names.
  - `generateDownloadPath` builds
    `website-downloader/<domain>/<path>/<bucket>/<file>`.
  - `ensureDirectoryStructure` returns a finished download's bucket.
- **The classification table `FILE_TYPES`** (`utils/constants.js`). It holds
  eight ordered rows of extensions, folder and MIME types.

The Dafny modules follow that structure:

- `Wrappers` defines `Option`.
- `Text` covers ASCII characters, `toLowerCase`, `split`, `join`, `pop` and the
  slash-run regular expressions.
- `Urls` holds the parsed-URL record and the URL parser, which is passed in as
  a parameter.
- `Constants`, `FileUtils` and `WebDownloader` hold the three parts above.

The pure naming code is modelled as functions with lemmas. The four `forEach`
loops of `getPageResources` and the `for…of` loop of `downloadResources` are
methods with loops. Each method is proved against a specification function.
The browser's download service is a class, `DownloadHost`. Its log of issued
requests is updated in place, and an outcome oracle decides which requests
succeed.

Foreign code is abstracted as follows:

- **`new URL`** (the WHATWG URL Standard parser) is a `UrlParser` value. It
  holds two functions, `parse` and `parseWithBase`. `None` stands for the
  `TypeError` they throw.
- **`DOMParser`** is replaced by its output: the page is a sequence of
  `Element` records in document order. Each record carries a tag and the
  `href`, `src` and `rel` attributes, with `None` for an absent attribute.
- **`browser.downloads.download`** is `DownloadHost.Download`. It appends the
  request to `issued`, and `outcome(n)` decides whether the n-th request ever
  made succeeds.

Some behaviour of the code that a reader might not expect, and that the model
keeps:

- **Download path.** `generateDownloadPath` puts the snake-cased path folder
  between the domain and the bucket. A main page goes to
  `<path>/pages/index.html`.
- **Downloaded file names.** `downloadResources` saves each resource as
  `createFolderPath(basePath, pageUrl)/<resource filename>`. It does not use
  the bucket layout.
- **Unparseable URLs in `generateDownloadPath`.** The second `new URL(url)` is
  unguarded, so a URL that does not parse gives no path (`None`). It does not
  degrade to a fallback.
- **Unresolvable references.** `resolveUrl` keeps such a reference as it is;
  it is not skipped. For an absolute reference the record then carries the
  reference as its URL and `unknown` as its file name. For a relative one the
  file name is what `getFilename` makes of the bare reference, which depends
  on the URL parser.
- **File names.** The file name is the last `/`-piece of the resolved path,
  not the last non-empty one. A path ending in `/` gives `index.html`.
- **Empty `rel`.** A `<link>` whose `rel` is empty counts as a stylesheet,
  because `!link.getAttribute('rel')` holds for `''`. An empty `src` or `href`
  is skipped.
- **Older tests.** `tests/unit/downloader.test.js` expects `example.com` from
  `getWebsiteRoot` and `root` from `getPathName`. The current code gives
  `example` and `home`, as `tests/unit/WebDownloader.test.js` expects.

## Model

| member | source | states |
|---|---|---|
| `Text.LowerChar` | background/downloader.js:13 | `toLowerCase` on one ASCII character moves `A`–`Z` up by 32 code points (`A` 65 becomes `a` 97) and leaves every other character alone |
| `Text.Lower` | background/downloader.js:13 | lower-casing keeps the length, maps every character by `LowerChar` and gives a string with no upper-case letter; a lower-case string is unchanged |
| `Text.LowerIdempotent` | utils/fileUtils.js:11 | lower-casing twice is lower-casing once |
| `Text.LowerConcat` | background/downloader.js:13 | lower-casing distributes over concatenation |
| `Text.IndexOfFinds` | utils/fileUtils.js:11 | the search for a separator stops at its first occurrence, or at the end when there is none |
| `Text.LastPieceIsLast` | background/downloader.js:28-29 | `split(sep).pop()` is the text after the last separator: it holds no separator and ends the string, right after a separator when it is shorter than the string |
| `Text.LastPieceUnique` | background/downloader.js:28-29 | only one piece of a string is its last piece |
| `Text.SplitPieces` | utils/fileUtils.js:57 | no piece of `split(sep)` holds the separator |
| `Text.SplitLast` | background/downloader.js:114-115 | the last element of `split(sep)` is the text after the last separator |
| `Text.JoinSplit` | utils/fileUtils.js:57-59 | joining the pieces of a split with the same separator gives the string back |
| `Text.SplitJoin` | utils/fileUtils.js:57-59 | splitting a join of separator-free pieces gives the pieces back |
| `Text.SplitConcat` | background/downloader.js:71 | a separator between two strings splits the whole into the pieces of the first, then the pieces of the second |
| `Text.SplitAfterPieces` | utils/fileUtils.js:75 | separator-free pieces joined by the separator and followed by it split off one by one |
| `Text.JoinAvoids` | utils/fileUtils.js:59 | a character that is neither in any piece nor the separator is not in the join |
| `Text.DropLeadingSpec` | background/downloader.js:53 | `^/+` removal leaves a suffix that does not start with `/`, and only `/` was removed |
| `Text.DropTrailingSpec` | background/downloader.js:53 | `/+$` removal leaves a prefix that does not end with `/`, and only `/` was removed |
| `Urls.StripWww` | background/downloader.js:26 | removing `^www\.` either keeps the host name or removes exactly the prefix `www.`, and removes it exactly when it is there |
| `Constants.TableOrder` | utils/constants.js:1-57 | the table has eight rows, keyed HTML, CSS, JAVASCRIPT, IMAGES, FONTS, MEDIA, DOCUMENTS, DATA in that order, with folders html … data |
| `Constants.FoldersDistinct` | utils/constants.js:5-54 | the eight folders are pairwise distinct and none is `other` |
| `Constants.ExtensionsWellFormed` | utils/constants.js:4-53 | every listed extension is a dot followed by a lower-case name without dots, the shape the lower-cased `.ext` lookup produces |
| `Constants.ExtensionsDisjoint` | utils/constants.js:4-53 | no extension is listed in two rows |
| `Constants.MimeTypesDisjoint` | utils/constants.js:6-55 | no MIME type is listed in two rows, and the empty type in none |
| `Constants.ExtensionListedOnce` | utils/constants.js:4-53 | an extension found in rows j and k forces j = k |
| `Constants.MimeTypeListedOnce` | utils/constants.js:6-55 | a MIME type found in rows j and k forces j = k, and it is not empty |
| `FileUtils.ExtensionOf` | utils/fileUtils.js:11-12 | the looked-up extension is a dot, then the last `.`-piece of the lower-cased name; it is lower case |
| `FileUtils.FindFolder` | utils/fileUtils.js:15-28 | on any table, the search returns either the folder of the first row listing the extension or the MIME type, or `other` when no row does; on `FileTypes`, whose folders are never `other` (`FoldersDistinct`), `other` therefore means that no row matches |
| `FileUtils.DetermineFileType` | utils/fileUtils.js:9-29 | the result is one of the nine buckets; it is `other` exactly when no row matches, otherwise the folder of the first matching row |
| `FileUtils.FindFolderStops` | utils/fileUtils.js:15-25 | the search returns the folder of row k when row k matches and no earlier row does |
| `FileUtils.ExtensionDecides` | utils/fileUtils.js:17-18 | a listed extension decides the folder when no earlier row lists the MIME type |
| `FileUtils.MimeTypeDecides` | utils/fileUtils.js:22-23 | a listed MIME type decides the folder when neither its row nor an earlier one lists the extension |
| `FileUtils.ExtensionCaseInsensitive` | utils/fileUtils.js:11 | lower-casing the file name first does not change the bucket |
| `FileUtils.ExtensionOfExtension` | utils/fileUtils.js:11-12 | a well-formed extension used as a file name is its own `.ext` |
| `FileUtils.EveryExtensionReachable` | utils/fileUtils.js:15-19 | every extension of every row sends a file named by it alone, with no MIME type, to that row's folder |
| `FileUtils.DotlessName` | utils/fileUtils.js:11-12 | a name without a dot is looked up whole, lower-cased, behind a dot |
| `FileUtils.ExtensionAfterDot` | utils/fileUtils.js:11-12 | the `.ext` of `stem.ext` is `.ext` |
| `FileUtils.CssExtension` | utils/fileUtils.js:11-12 | the `.ext` of `stem.css` is `.css` |
| `FileUtils.RowOrderWins` | utils/fileUtils.js:15-25 | `stem.css` with MIME type `text/html` is filed under `html`, because the HTML row is tried first and matches by MIME type |
| `FileUtils.CssName` | utils/fileUtils.js:11-12 | a name that lower-cases to `css` has the extension `.css` |
| `FileUtils.WholeNameIsExtension` | utils/fileUtils.js:11-18 | a name that lower-cases to `css`, such as `CSS`, is filed under `css` |
| `FileUtils.EnsureDirectoryStructure` | utils/fileUtils.js:90-96 | the folder of a finished download is a bucket, exactly the one `determineFileType` gives for its name and MIME type |
| `FileUtils.GetDomainFromUrl` | utils/fileUtils.js:36-47 | `website` when the URL does not parse; otherwise the host name without `www.`, of the same length, each character outside `[A-Za-z0-9-]` replaced by `-`; every character is in `[A-Za-z0-9-]` |
| `FileUtils.DomainOfPlainHost` | utils/fileUtils.js:40-42 | a host name made only of domain characters is kept as it is once `www.` is removed |
| `FileUtils.NonEmptySpec` | utils/fileUtils.js:58 | `filter(Boolean)` keeps only non-empty pieces of the input, and keeps everything when no piece is empty |
| `FileUtils.NonEmptyAppend` | utils/fileUtils.js:58 | filtering a concatenation is filtering each part and concatenating: with `NonEmptySingle`, every non-empty piece is kept, in input order, and only empty ones go |
| `FileUtils.NonEmptySingle` | utils/fileUtils.js:58 | a single piece is kept exactly when it is non-empty |
| `FileUtils.PathToSnakeCase` | utils/fileUtils.js:54-61 | `root` for `''` and `/`; the result never holds `/` and is lower case |
| `FileUtils.SnakeCaseOfSegments` | utils/fileUtils.js:54-61 | a path `/s1/…/sn` of non-empty segments gives the segments joined by `-`, lower-cased |
| `FileUtils.PiecesOfSegments` | utils/fileUtils.js:57-58 | the non-empty `/`-pieces of `/s1/…/sn` are `s1 … sn` |
| `FileUtils.FolderNamesHaveNoSlash` | utils/fileUtils.js:75-82 | `website-downloader`, `pages`, `index.html` and every bucket hold no `/` |
| `FileUtils.BaseDir` | utils/fileUtils.js:75 | the folder `website-downloader/<domain>/<path>` as a join by `/` (no contract of its own; `DownloadPathLayout` states its pieces) |
| `FileUtils.Tail` | utils/fileUtils.js:77-82 | the part after the base folder, `pages/index.html` for the main page or `<bucket>/<filename>` (no contract of its own; `TailPieces` states its pieces) |
| `FileUtils.GenerateDownloadPath` | utils/fileUtils.js:71-83 | there is a path exactly when the URL parses (the second `new URL` is unguarded) |
| `FileUtils.DownloadPathLayout` | utils/fileUtils.js:71-83 | a generated path splits at `/` into `website-downloader`, the domain, the snake-cased path, then `pages`, `index.html` for the main page, or the bucket followed by the pieces of the file name |
| `FileUtils.TailPieces` | utils/fileUtils.js:77-82 | the part after the base folder splits into `pages`, `index.html` or into the bucket and the file name's pieces |
| `WebDownloader.ReplaceInvalid` | background/downloader.js:10 | the first step keeps the length and turns exactly the characters of `<>:"/\|?*` and white space into `_` |
| `WebDownloader.ReplaceInvalidClean` | background/downloader.js:10 | after the replacement no invalid character is left |
| `WebDownloader.Collapse` | background/downloader.js:11 | the second step, `_+` to `_` (no contract of its own; `CollapseSpec`, `CollapseRun` and `CollapseWord` state what it does) |
| `WebDownloader.Trim` | background/downloader.js:12 | the third step, one `^_` and one `_$` removed (no contract of its own; `TrimSpec` states what it does) |
| `WebDownloader.CollapseSpec` | background/downloader.js:11 | collapsing `_+` leaves no `__`, keeps the first and last characters, adds no character, and leaves a string without `__` unchanged |
| `WebDownloader.CollapseRun` | background/downloader.js:11 | a run of underscores before a non-underscore becomes one underscore |
| `WebDownloader.TrimSpec` | background/downloader.js:12 | the input is the result with one `_` put back in front when the input starts with `_` and one at the back when the rest ends with `_`, so exactly those are removed and the middle is kept; after the collapse the result neither starts nor ends with `_`; nothing is added; a string with no `_` at either end is kept |
| `WebDownloader.TrimWrapped` | background/downloader.js:12 | a string with no `_` at either end, with or without one `_` added before and after, trims back to itself |
| `WebDownloader.Sanitize` | background/downloader.js:7-14 | the result holds no `<>:"/\|?*`, no white space and no `__`, neither starts nor ends with `_`, and is lower case |
| `WebDownloader.LowerKeepsSanitized` | background/downloader.js:13 | the final lower-casing keeps the guarantees of the first three steps |
| `WebDownloader.SanitizeFixpoint` | background/downloader.js:9-13 | a name is left unchanged exactly when it already has every property of a sanitised name |
| `WebDownloader.SanitizeIdempotent` | background/downloader.js:9-13 | sanitising twice is sanitising once |
| `WebDownloader.SanitizeKeepsCharacters` | background/downloader.js:9-13 | every character of the result is `_` or the lower case of a character of the input |
| `WebDownloader.SanitizeAvoids` | background/downloader.js:9-13 | a character that is not `_`, not a lower-case letter and not in the input is not in the result |
| `WebDownloader.SanitizedHasNoSlash` | background/downloader.js:10 | a sanitised name holds no `/` |
| `WebDownloader.SanitizeWords` | background/downloader.js:9-13 | any number of words separated by non-empty gaps of white space, invalid characters or `_`, with or without such a gap before and after, become the words joined by one `_`, in lower case (`Hello World` → `hello_world`, `File/With\Invalid:Chars` → `file_with_invalid_chars`, `  Multiple   Spaces  ` → `multiple_spaces`, `_leading_trailing_` → `leading_trailing`) |
| `WebDownloader.SanitizeTidy` | background/downloader.js:9-13 | a name of valid characters without `__` and without `_` at either end is only lower-cased |
| `WebDownloader.DropLastLabel` | background/downloader.js:27 | `\.[^.]+$` removal takes off a final `.label` when the text after the last dot is non-empty and the host has a dot; otherwise the host is kept |
| `WebDownloader.HostRoot` | background/downloader.js:25-31 | the name derived from a parsed host name is sanitised and holds no `.` |
| `WebDownloader.GetWebsiteRoot` | background/downloader.js:21-36 | `unknown_site` when the URL does not parse; the result is always sanitised and holds no `.` |
| `WebDownloader.WebsiteRootOfName` | background/downloader.js:25-31 | for a host `[www.][prefix.]name.tld` the result is the sanitised `name` (`subdomain.example.com` → `example`) |
| `WebDownloader.WebsiteRootOfSingleLabel` | background/downloader.js:25-31 | a host without a dot, after `www.` is removed, is kept whole and sanitised |
| `WebDownloader.ReplaceSlashes` | background/downloader.js:54 | every `/` becomes `_` and nothing else changes |
| `WebDownloader.PathNameOf` | background/downloader.js:46-55 | the name derived from a parsed path is always sanitised |
| `WebDownloader.GetPathName` | background/downloader.js:43-60 | `home` when the URL does not parse or its path is empty or `/`; the result is sanitised and holds no `/` |
| `WebDownloader.PathNameOfSegments` | background/downloader.js:46-55 | a path `/w1/…/wn` of words gives the lower-cased words joined by `_` (`/UPPER/case/PATH` → `upper_case_path`) |
| `WebDownloader.PathNameOfInner` | background/downloader.js:52-55 | a path with one leading `/` and no trailing `/` loses only that `/` before the slashes are replaced and the result is sanitised |
| `WebDownloader.ReplaceSlashesJoin` | background/downloader.js:54 | replacing the slashes of words joined by `/` joins them by `_` |
| `WebDownloader.CreateFolderPath` | background/downloader.js:68-72 | `basePath/<website root>/<path name>` (no contract of its own; `FolderPathLayout` states its pieces and `RequestLayout` its use in downloads) |
| `WebDownloader.FolderPathLayout` | background/downloader.js:68-72 | the folder path splits at `/` into the pieces of the base path, then the website root, then the path name; both added pieces are free of `/` |
| `WebDownloader.Reference` | background/downloader.js:123-180 | a reference picked from an element is never empty, so the `if (url)` tests of the four loops always pass; which elements qualify (a `link` with a non-empty `href` and `rel` absent, empty or `stylesheet`; a `script` or `img` with a non-empty `src`; an `a` whose `href` ends in `.html`) is the definition, and `GroupOfElement` states the record each one gives |
| `WebDownloader.RootPath` | background/downloader.js:86-87 | the origin root `protocol//host/` of the page URL (no contract of its own; `LeadingSlashIgnored` states that relative references resolve against it) |
| `WebDownloader.LetterRunSpec` | background/downloader.js:93 | the scheme test reads the longest leading run of lower-case letters |
| `WebDownloader.AbsoluteRefMeaning` | background/downloader.js:93 | a reference is taken as absolute exactly when it starts with `[a-z]+://` or `//` |
| `WebDownloader.ResolveUrl` | background/downloader.js:90-108 | a non-empty reference resolves to a non-empty URL |
| `WebDownloader.LeadingSlashIgnored` | background/downloader.js:97-103 | a relative reference gives the same URL with or without a leading `/`: both resolve against the origin root |
| `WebDownloader.ResolveUrlFallback` | background/downloader.js:90-108 | where the parse that applies to the reference (on its own, against the root without the leading `/`, or against the root) fails, the reference itself is returned |
| `WebDownloader.AbsoluteIgnoresRoot` | background/downloader.js:93-95 | an absolute reference resolves the same way on every page, to the parser's `href` when it parses |
| `WebDownloader.GetFilename` | background/downloader.js:111-120 | `unknown` when the URL does not parse, `index.html` when the path is empty or ends in `/`, otherwise the text after the last `/`; never empty and never holding `/` |
| `WebDownloader.LastSegment` | background/downloader.js:114-115 | the last `/`-piece of a path is its last piece, and it is empty exactly when the path is empty or ends in `/` |
| `WebDownloader.Record` | background/downloader.js:126-132 | the record `{url, filename, type}` for a reference: its resolved URL and that URL's file name (no contract of its own; `GroupOfElement` states when it is emitted) |
| `WebDownloader.UnresolvableAbsoluteRecord` | background/downloader.js:90-118 | an absolute reference that does not parse gives the record with the reference itself as URL and `unknown` as file name |
| `WebDownloader.Emit` | background/downloader.js:124-134 | what one element contributes to a group: its record when it qualifies, nothing otherwise (no contract of its own; `GroupOfElement` states it) |
| `WebDownloader.Group` | background/downloader.js:123-135 | the records of one `forEach` pass, in document order (no contract of its own; `GroupOfElement`, `GroupAppend` and `GroupKinds` state it) |
| `WebDownloader.Extract` | background/downloader.js:122-182 | the four groups css, js, image, html, one after the other (no contract of its own; `ExtractGrouped` states the order and `GetPageResources` that the loops compute it) |
| `WebDownloader.GroupOfElement` | background/downloader.js:123-180 | a single element gives one record of the group when it qualifies for it, and none otherwise |
| `WebDownloader.GroupAppend` | background/downloader.js:123-180 | the records of a page are the records of its first part followed by those of the rest, so document order is kept and repeats are not merged |
| `WebDownloader.GroupKinds` | background/downloader.js:128-177 | every record of a group carries the group's type |
| `WebDownloader.ExtractGrouped` | background/downloader.js:122-182 | the records come as stylesheets, then scripts, then images, then pages |
| `WebDownloader.CollectGroup` | background/downloader.js:123-180 | one `forEach` pass pushes exactly the group's records, in document order, after those already found |
| `WebDownloader.GetPageResources` | background/downloader.js:80-183 | fails exactly when the page URL does not parse; otherwise returns the four groups in order, with references resolved against `protocol//host/` of the page URL |
| `WebDownloader.DownloadHost.Download` | background/downloader.js:202-205 | the request is appended to the host's log, and its outcome is the oracle's answer for its position |
| `WebDownloader.Requests` | background/downloader.js:202-205 | one request per resource, in order, each with the resource's URL and the file name `folder/filename` |
| `WebDownloader.Sift` | background/downloader.js:206-209 | the resources whose outcome is the wanted one, in input order (no contract of its own; `SiftAppend`, `SiftPartition`, `SiftAllSucceed` and `SiftOneFailure` state it) |
| `WebDownloader.SiftAppend` | background/downloader.js:200-211 | sifting a concatenation sifts each part and concatenates, so `succeeded` and `failed` each keep input order across any split of the input |
| `WebDownloader.SiftPartition` | background/downloader.js:200-211 | every resource lands in exactly one of `succeeded` and `failed`: the lengths add up and the two lists together are a permutation of the input |
| `WebDownloader.SiftAllSucceed` | background/downloader.js:200-211 | when every download succeeds, `succeeded` is the input and `failed` is empty |
| `WebDownloader.SiftOneFailure` | background/downloader.js:200-211 | when only the k-th download fails, `failed` is that resource alone and `succeeded` is every other one in order, later ones included: a failure does not stop the loop |
| `WebDownloader.RequestLayout` | background/downloader.js:198-205 | the file name of each request splits at `/` into the base path's pieces, the website root, the path name, and then the pieces of the resource's own file name |
| `WebDownloader.DownloadResources` | background/downloader.js:192-214 | exactly one request per resource, in order, saved under `createFolderPath(basePath, pageUrl)`; `succeeded` and `failed` are the resources whose request succeeded or failed, in input order |
| `WebDownloader.DownloadAll` | background/downloader.js:200-211 | the loop issues the requests one by one and sorts each resource by its outcome |

## Left out

- The background script's event-listener orchestration (`background.js`) is not part of this model. The same goes for the content script's live DOM queries and `fetch`, and for the popup and page-downloader UI with its folder picker, storage, type filters and cancellation.
- `DOMParser` and `new URL` are foreign code. The model takes parsed elements and parser functions as inputs, so it does not check their behaviour against the WHATWG URL Standard or the HTML standard.
- Characters are ASCII only. The Unicode reach of `\s` and `toLowerCase` is not modelled.
- `console.error` logging is not modelled.
- Promises are not modelled. A rejected download is `ok == false`, and the rejection from an unguarded `new URL(baseUrl)` in `getPageResources` is the `None` result.
- The host's conflict handling for file names that already exist is not modelled. So is the content it downloads.
- `FileUtils.GenerateDownloadPath`, `FileUtils.DetermineFileType`, `FileUtils.EnsureDirectoryStructure`: an undefined MIME type is modelled as the empty string, which no row lists.
- `WebDownloader.DownloadHost.Download`: the outcome of a request depends only on how many requests came before it, not on the request itself.
- `WebDownloader.DownloadAll`: this is the loop of `downloadResources`, factored out. The folder path is computed once before the loop, as in the source.
- `WebDownloader.ResolveUrl`: the contract says only that the URL is non-empty. Which URL results is stated by `LeadingSlashIgnored` and `AbsoluteIgnoresRoot` for relative and absolute references that parse, and by `ResolveUrlFallback` (the reference itself) for those that do not.
