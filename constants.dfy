/**
 * `FILE_TYPES`: the ordered classification table. Each category lists the
 * file extensions (with their dot, lower case) and the MIME types that send a
 * file into its folder. The order of the rows is the order in which the
 * classifier tries them.
 */
module Constants {
  import opened Text

  datatype FileType = FileType(key: string, extensions: seq<AStr>, folder: AStr, mimeTypes: seq<string>)

  const FileTypes: seq<FileType> := [
    FileType("HTML", [".html", ".htm", ".xhtml"], "html",
      ["text/html", "application/xhtml+xml"]),
    FileType("CSS", [".css", ".scss", ".sass", ".less"], "css",
      ["text/css"]),
    FileType("JAVASCRIPT", [".js", ".jsx", ".mjs", ".ts", ".tsx"], "javascript",
      ["text/javascript", "application/javascript", "application/x-javascript"]),
    FileType("IMAGES", [".jpg", ".jpeg", ".png", ".gif", ".svg", ".webp", ".ico", ".bmp"], "images",
      ["image/jpeg", "image/png", "image/gif", "image/svg+xml", "image/webp", "image/x-icon", "image/bmp"]),
    FileType("FONTS", [".woff", ".woff2", ".ttf", ".eot", ".otf"], "fonts",
      ["font/woff", "font/woff2", "font/ttf", "application/vnd.ms-fontobject", "font/otf"]),
    FileType("MEDIA", [".mp4", ".webm", ".ogg", ".mp3", ".wav"], "media",
      ["video/mp4", "video/webm", "audio/ogg", "audio/mp3", "audio/wav"]),
    FileType("DOCUMENTS", [".pdf", ".doc", ".docx", ".xls", ".xlsx", ".txt", ".md"], "documents",
      ["application/pdf", "application/msword",
       "application/vnd.openxmlformats-officedocument.wordprocessingml.document", "text/plain", "text/markdown"]),
    FileType("DATA", [".json", ".xml", ".csv", ".yaml", ".yml"], "data",
      ["application/json", "application/xml", "text/csv", "application/yaml"])
  ]

  /** The folder the classifier falls back to when no row matches. */
  const Other: AStr := "other"

  /** An extension the classifier can hit: a dot, then a lower-case name without dots. */
  predicate IsExtension(e: AStr) {
    |e| >= 2 && e[0] == '.' && '.' !in e[1..] && IsLowerCase(e)
  }

  /** The table holds eight rows in the order HTML, CSS, JAVASCRIPT, IMAGES, FONTS, MEDIA, DOCUMENTS, DATA. */
  lemma TableOrder()
    ensures |FileTypes| == 8
    ensures seq(8, k requires 0 <= k < 8 => FileTypes[k].key)
         == ["HTML", "CSS", "JAVASCRIPT", "IMAGES", "FONTS", "MEDIA", "DOCUMENTS", "DATA"]
    ensures seq(8, k requires 0 <= k < 8 => FileTypes[k].folder)
         == ["html", "css", "javascript", "images", "fonts", "media", "documents", "data"]
  {
  }

  /** Every row has its own folder, and none of them is the fallback. */
  lemma FoldersDistinct()
    ensures forall j, k :: 0 <= j < k < |FileTypes| ==> FileTypes[j].folder != FileTypes[k].folder
    ensures forall k :: 0 <= k < |FileTypes| ==> FileTypes[k].folder != Other
  {
  }

  /** Every listed extension has the shape that the lower-cased `.ext` lookup produces. */
  lemma ExtensionsWellFormed()
    ensures forall k, e :: 0 <= k < |FileTypes| && e in FileTypes[k].extensions ==> IsExtension(e)
  {
    ExtensionsWellFormedHtml();
    ExtensionsWellFormedCss();
    ExtensionsWellFormedJavaScript();
    ExtensionsWellFormedImages();
    ExtensionsWellFormedFonts();
    ExtensionsWellFormedMedia();
    ExtensionsWellFormedDocuments();
    ExtensionsWellFormedData();
  }

  /** No extension is listed in two rows. */
  lemma ExtensionsDisjoint()
    ensures forall j, k, e :: 0 <= j < k < |FileTypes| && e in FileTypes[j].extensions ==> e !in FileTypes[k].extensions
  {
    ExtensionsDisjointHtml();
    ExtensionsDisjointCss();
    ExtensionsDisjointJavaScript();
    ExtensionsDisjointImages();
    ExtensionsDisjointFonts();
    ExtensionsDisjointMedia();
    ExtensionsDisjointDocuments();
  }

  /** No MIME type is listed in two rows, and the empty MIME type is in none. */
  lemma MimeTypesDisjoint()
    ensures forall j, k, m :: 0 <= j < k < |FileTypes| && m in FileTypes[j].mimeTypes ==> m !in FileTypes[k].mimeTypes
    ensures forall k :: 0 <= k < |FileTypes| ==> "" !in FileTypes[k].mimeTypes
  {
    forall j, k, m | 0 <= j < k < |FileTypes| && m in FileTypes[j].mimeTypes
      ensures m !in FileTypes[k].mimeTypes
    {
      if j == 0 {
        MimeTypesDisjointHtml();
      } else if j == 1 {
        MimeTypesDisjointCss();
      } else if j == 2 {
        MimeTypesDisjointJavaScript();
      } else if j == 3 {
        MimeTypesDisjointImages();
      } else if j == 4 {
        MimeTypesDisjointFonts();
      } else if j == 5 {
        MimeTypesDisjointMedia();
      } else {
        MimeTypesDisjointDocuments();
      }
    }
    MimeTypesNonEmpty();
  }

  /** An extension is listed in one row at most. */
  lemma ExtensionListedOnce(j: nat, k: nat, e: AStr)
    requires j < |FileTypes| && k < |FileTypes|
    requires e in FileTypes[j].extensions && e in FileTypes[k].extensions
    ensures j == k
  {
    ExtensionsDisjoint();
  }

  /** A MIME type is listed in one row at most, and the empty type in none. */
  lemma MimeTypeListedOnce(j: nat, k: nat, m: string)
    requires j < |FileTypes| && k < |FileTypes|
    requires m in FileTypes[j].mimeTypes && m in FileTypes[k].mimeTypes
    ensures j == k && m != ""
  {
    MimeTypesDisjoint();
  }

  // The facts above, checked one row at a time so that each proof stays small.

  /** A dot followed by lower-case letters and digits is an extension. */
  lemma DottedName(e: AStr)
    requires |e| >= 2 && e[0] == '.'
    requires forall i :: 1 <= i < |e| ==> 'a' <= e[i] <= 'z' || '0' <= e[i] <= '9'
    ensures IsExtension(e)
  {
    assert forall c :: c in e[1..] ==> 'a' <= c <= 'z' || '0' <= c <= '9';
  }

  lemma ExtensionsWellFormedHtml()
    ensures forall a :: 0 <= a < |FileTypes[0].extensions| ==> IsExtension(FileTypes[0].extensions[a])
  {
    forall a | 0 <= a < |FileTypes[0].extensions| {
      DottedName(FileTypes[0].extensions[a]);
    }
  }

  lemma ExtensionsWellFormedCss()
    ensures forall a :: 0 <= a < |FileTypes[1].extensions| ==> IsExtension(FileTypes[1].extensions[a])
  {
    forall a | 0 <= a < |FileTypes[1].extensions| {
      DottedName(FileTypes[1].extensions[a]);
    }
  }

  lemma ExtensionsWellFormedJavaScript()
    ensures forall a :: 0 <= a < |FileTypes[2].extensions| ==> IsExtension(FileTypes[2].extensions[a])
  {
    forall a | 0 <= a < |FileTypes[2].extensions| {
      DottedName(FileTypes[2].extensions[a]);
    }
  }

  lemma ExtensionsWellFormedImages()
    ensures forall a :: 0 <= a < |FileTypes[3].extensions| ==> IsExtension(FileTypes[3].extensions[a])
  {
    forall a | 0 <= a < |FileTypes[3].extensions| {
      DottedName(FileTypes[3].extensions[a]);
    }
  }

  lemma ExtensionsWellFormedFonts()
    ensures forall a :: 0 <= a < |FileTypes[4].extensions| ==> IsExtension(FileTypes[4].extensions[a])
  {
    forall a | 0 <= a < |FileTypes[4].extensions| {
      DottedName(FileTypes[4].extensions[a]);
    }
  }

  lemma ExtensionsWellFormedMedia()
    ensures forall a :: 0 <= a < |FileTypes[5].extensions| ==> IsExtension(FileTypes[5].extensions[a])
  {
    forall a | 0 <= a < |FileTypes[5].extensions| {
      DottedName(FileTypes[5].extensions[a]);
    }
  }

  lemma ExtensionsWellFormedDocuments()
    ensures forall a :: 0 <= a < |FileTypes[6].extensions| ==> IsExtension(FileTypes[6].extensions[a])
  {
    forall a | 0 <= a < |FileTypes[6].extensions| {
      DottedName(FileTypes[6].extensions[a]);
    }
  }

  lemma ExtensionsWellFormedData()
    ensures forall a :: 0 <= a < |FileTypes[7].extensions| ==> IsExtension(FileTypes[7].extensions[a])
  {
    forall a | 0 <= a < |FileTypes[7].extensions| {
      DottedName(FileTypes[7].extensions[a]);
    }
  }

  lemma ExtensionsDisjointHtml()
    ensures forall k, a, b :: 0 < k < |FileTypes| && 0 <= a < |FileTypes[0].extensions| && 0 <= b < |FileTypes[k].extensions|
              ==> FileTypes[0].extensions[a] != FileTypes[k].extensions[b]
  {
  }

  lemma ExtensionsDisjointCss()
    ensures forall k, a, b :: 1 < k < |FileTypes| && 0 <= a < |FileTypes[1].extensions| && 0 <= b < |FileTypes[k].extensions|
              ==> FileTypes[1].extensions[a] != FileTypes[k].extensions[b]
  {
  }

  lemma ExtensionsDisjointJavaScript()
    ensures forall k, a, b :: 2 < k < |FileTypes| && 0 <= a < |FileTypes[2].extensions| && 0 <= b < |FileTypes[k].extensions|
              ==> FileTypes[2].extensions[a] != FileTypes[k].extensions[b]
  {
  }

  lemma ExtensionsDisjointImages()
    ensures forall k, a, b :: 3 < k < |FileTypes| && 0 <= a < |FileTypes[3].extensions| && 0 <= b < |FileTypes[k].extensions|
              ==> FileTypes[3].extensions[a] != FileTypes[k].extensions[b]
  {
  }

  lemma ExtensionsDisjointFonts()
    ensures forall k, a, b :: 4 < k < |FileTypes| && 0 <= a < |FileTypes[4].extensions| && 0 <= b < |FileTypes[k].extensions|
              ==> FileTypes[4].extensions[a] != FileTypes[k].extensions[b]
  {
  }

  lemma ExtensionsDisjointMedia()
    ensures forall k, a, b :: 5 < k < |FileTypes| && 0 <= a < |FileTypes[5].extensions| && 0 <= b < |FileTypes[k].extensions|
              ==> FileTypes[5].extensions[a] != FileTypes[k].extensions[b]
  {
  }

  lemma ExtensionsDisjointDocuments()
    ensures forall k, a, b :: 6 < k < |FileTypes| && 0 <= a < |FileTypes[6].extensions| && 0 <= b < |FileTypes[k].extensions|
              ==> FileTypes[6].extensions[a] != FileTypes[k].extensions[b]
  {
  }

  lemma MimeTypesDisjointHtml()
    ensures forall k, a, b :: 0 < k < |FileTypes| && 0 <= a < |FileTypes[0].mimeTypes| && 0 <= b < |FileTypes[k].mimeTypes|
              ==> FileTypes[0].mimeTypes[a] != FileTypes[k].mimeTypes[b]
  {
  }

  lemma MimeTypesDisjointCss()
    ensures forall k, a, b :: 1 < k < |FileTypes| && 0 <= a < |FileTypes[1].mimeTypes| && 0 <= b < |FileTypes[k].mimeTypes|
              ==> FileTypes[1].mimeTypes[a] != FileTypes[k].mimeTypes[b]
  {
  }

  lemma MimeTypesDisjointJavaScript()
    ensures forall k, a, b :: 2 < k < |FileTypes| && 0 <= a < |FileTypes[2].mimeTypes| && 0 <= b < |FileTypes[k].mimeTypes|
              ==> FileTypes[2].mimeTypes[a] != FileTypes[k].mimeTypes[b]
  {
  }

  lemma MimeTypesDisjointImages()
    ensures forall k, a, b :: 3 < k < |FileTypes| && 0 <= a < |FileTypes[3].mimeTypes| && 0 <= b < |FileTypes[k].mimeTypes|
              ==> FileTypes[3].mimeTypes[a] != FileTypes[k].mimeTypes[b]
  {
  }

  lemma MimeTypesDisjointFonts()
    ensures forall k, a, b :: 4 < k < |FileTypes| && 0 <= a < |FileTypes[4].mimeTypes| && 0 <= b < |FileTypes[k].mimeTypes|
              ==> FileTypes[4].mimeTypes[a] != FileTypes[k].mimeTypes[b]
  {
  }

  lemma MimeTypesDisjointMedia()
    ensures forall k, a, b :: 5 < k < |FileTypes| && 0 <= a < |FileTypes[5].mimeTypes| && 0 <= b < |FileTypes[k].mimeTypes|
              ==> FileTypes[5].mimeTypes[a] != FileTypes[k].mimeTypes[b]
  {
  }

  lemma MimeTypesDisjointDocuments()
    ensures forall k, a, b :: 6 < k < |FileTypes| && 0 <= a < |FileTypes[6].mimeTypes| && 0 <= b < |FileTypes[k].mimeTypes|
              ==> FileTypes[6].mimeTypes[a] != FileTypes[k].mimeTypes[b]
  {
  }

  lemma MimeTypesNonEmpty()
    ensures forall k, a :: 0 <= k < |FileTypes| && 0 <= a < |FileTypes[k].mimeTypes| ==> FileTypes[k].mimeTypes[a] != []
  {
  }
}
