/** The Word-to-PDF backend (WordToPdfConverterMain/backend/server.js): the upload filter and
    size limit, the stored and output file names, and the response the `/convert` handler
    chooses. Text extraction, PDF layout, HTTP and the disk are library calls; their results
    are parameters here, and the delayed cleanup is the list of paths it will delete. */
module ConvertServer {
  import opened Common

  const DocxMime: string := "application/vnd.openxmlformats-officedocument.wordprocessingml.document"
  const DocMime: string := "application/msword"

  /** The upload ceiling, in bytes. */
  const MaxFileSize: nat := 10 * 1024 * 1024

  const OnlyWordMessage: string := "Only .doc and .docx files are allowed"
  /** The message the upload library gives when the size limit is exceeded. */
  const TooLargeMessage: string := "File too large"
  const NoFileMessage: string := "No file uploaded"
  const ConversionFailedPrefix: string := "Conversion failed: "
  const PdfCreationFailedMessage: string := "PDF creation failed"

  /** The `fileFilter` allow-list. */
  predicate MimeAllowed(mimeType: string)
  {
    mimeType == DocxMime || mimeType == DocMime
  }

  /** One multipart file field as received. */
  datatype Upload = Upload(originalName: string, mimeType: string, size: nat)

  /** The limit lets a file of exactly 10 MiB through and stops anything larger. */
  predicate WithinLimit(u: Upload)
  {
    u.size <= MaxFileSize
  }

  // ---------------------------------------------------------------------------
  // File names

  /** The scratch name: `Date.now() + '-' + file.originalname`. */
  function StoredName(now: nat, originalName: string): string
  {
    Decimal(now) + "-" + originalName
  }

  predicate AllDigits(d: string)
  {
    forall k :: 0 <= k < |d| ==> IsDigit(d[k])
  }

  /** In a digit string followed by `-`, the first `-` is the one right after the digits. */
  lemma DashAfterDigits(d: string, x: string)
    requires AllDigits(d)
    ensures IndexOf(d + "-" + x, "-") == |d|
  {
    var s := d + "-" + x;
    assert s[|d|..|d| + 1] == "-";
    assert OccursAt(s, "-", |d|);
    forall k | 0 <= k < |d| ensures !OccursAt(s, "-", k) {
      assert s[k..k + 1] == [d[k]];
    }
  }

  /** The timestamp can be read back from the front of any name of the form `<digits>-...`. */
  lemma {:induction false} TimestampOf(now: nat, x: string)
    ensures var s := Decimal(now) + "-" + x;
      IndexOf(s, "-") == |Decimal(now)| &&
      AllDigits(s[..IndexOf(s, "-")]) &&
      ParseDecimal(s[..IndexOf(s, "-")]) == now &&
      s[IndexOf(s, "-") + 1..] == x
  {
    var s := Decimal(now) + "-" + x;
    DashAfterDigits(Decimal(now), x);
    assert s[..|Decimal(now)|] == Decimal(now);
    ParseDecimalOfDecimal(now);
  }

  /** Scratch names never collide unless both the millisecond and the original name agree. */
  lemma StoredNameInjective(t1: nat, o1: string, t2: nat, o2: string)
    requires StoredName(t1, o1) == StoredName(t2, o2)
    ensures t1 == t2 && o1 == o2
  {
    TimestampOf(t1, o1);
    TimestampOf(t2, o2);
  }

  /** `path.parse(name).name` for a plain file name: everything before the last dot, except
      that a leading dot does not start an extension and `..` is kept whole. */
  function ParsedName(base: string): (r: string)
    ensures |r| <= |base| && r == base[..|r|]
    ensures '.' !in base ==> r == base
  {
    var i := LastIndex(base, '.');
    if i <= 0 || base == ".." then base else base[..i]
  }

  /** The output file name and the download name: the stored name's stem plus `.pdf`. */
  function OutputName(storedName: string): string
  {
    ParsedName(storedName) + ".pdf"
  }

  /** The original name up to its last dot, or the whole of it when it has none. */
  function OriginalStem(o: string): string
  {
    var j := LastIndex(o, '.');
    if j < 0 then o else o[..j]
  }

  lemma OriginalStemOf(stem: string, ext: string)
    requires '.' !in ext
    ensures OriginalStem(stem + "." + ext) == stem
  {
    var o := stem + "." + ext;
    assert o[|stem|] == '.';
    assert forall k :: |stem| < k < |o| ==> o[k] == ext[k - |stem| - 1];
    assert LastIndex(o, '.') == |stem|;
    assert o[..|stem|] == stem;
  }

  /** The stem of a stored name is the timestamp, the dash and the original's stem. */
  lemma StoredStem(now: nat, original: string)
    ensures ParsedName(StoredName(now, original)) == Decimal(now) + "-" + OriginalStem(original)
  {
    var prefix := Decimal(now) + "-";
    var s := StoredName(now, original);
    assert s == prefix + original;
    assert '.' !in prefix by {
      forall k | 0 <= k < |prefix| ensures prefix[k] != '.' {
        if k < |Decimal(now)| { assert IsDigit(prefix[k]); }
      }
    }
    LastIndexAppend(prefix, original, '.');
    assert s[0] != '.' && s != "..";
    if '.' in original {
      assert s[..|prefix| + LastIndex(original, '.')] == prefix + original[..LastIndex(original, '.')];
    }
  }

  /** The output name keeps the timestamp prefix and drops the original's last extension. */
  lemma OutputOfStored(now: nat, original: string)
    ensures OutputName(StoredName(now, original)) == Decimal(now) + "-" + (OriginalStem(original) + ".pdf")
  {
    StoredStem(now, original);
  }

  /** A Word upload `<stem>.<ext>` comes back as `<timestamp>-<stem>.pdf`, whatever dots the
      stem itself holds: only the last extension is dropped. */
  lemma OutputOfWordName(now: nat, stem: string, ext: string)
    requires '.' !in ext
    ensures OutputName(StoredName(now, stem + "." + ext)) == Decimal(now) + "-" + stem + ".pdf"
  {
    OriginalStemOf(stem, ext);
    OutputOfStored(now, stem + "." + ext);
  }

  /** Uploads stored in different milliseconds never share an output file. */
  lemma OutputsDistinctAcrossInstants(t1: nat, o1: string, t2: nat, o2: string)
    requires t1 != t2
    ensures OutputName(StoredName(t1, o1)) != OutputName(StoredName(t2, o2))
  {
    OutputOfStored(t1, o1);
    OutputOfStored(t2, o2);
    TimestampOf(t1, OriginalStem(o1) + ".pdf");
    TimestampOf(t2, OriginalStem(o2) + ".pdf");
  }

  /** Within one millisecond the output name is not unique: two uploads that differ only in
      their extension, such as `a.doc` and `a.docx`, are stored apart but are converted to the
      same file. */
  lemma SameInstantOutputsCollide(now: nat, stem: string, ext1: string, ext2: string)
    requires '.' !in ext1 && '.' !in ext2 && ext1 != ext2
    ensures StoredName(now, stem + "." + ext1) != StoredName(now, stem + "." + ext2)
    ensures OutputName(StoredName(now, stem + "." + ext1)) == OutputName(StoredName(now, stem + "." + ext2))
  {
    OutputOfWordName(now, stem, ext1);
    OutputOfWordName(now, stem, ext2);
    TimestampOf(now, stem + "." + ext1);
    TimestampOf(now, stem + "." + ext2);
    assert (stem + "." + ext1)[|stem| + 1..] == ext1;
    assert (stem + "." + ext2)[|stem| + 1..] == ext2;
  }

  // ---------------------------------------------------------------------------
  // The /convert handler

  /** What the text extractor returned. */
  datatype Extraction = Extracted(text: string) | ExtractionFailed(message: string)

  /** A JSON error, or the generated PDF sent as an attachment (its text is the extracted text). */
  datatype Response = Json(status: nat, error: string) | Download(path: string, name: string, text: string)

  /** The response, whether the extractor was run, and the paths the delayed cleanup deletes. */
  datatype Handled = Handled(response: Response, extracted: bool, cleanup: seq<string>)

  function StatusCode(r: Response): nat
  {
    if r.Download? then 200 else r.status
  }

  /** `path.join(dir, name)`. */
  function Join(dir: string, name: string): string
  {
    dir + "/" + name
  }

  /** One POST /convert. A refused type or an oversize upload fails inside the upload
      middleware and reaches the error middleware, which answers 500 with the error's message.
      `written` says whether the PDF stream finished. A failed send of the finished PDF is only
      logged, and the cleanup is scheduled either way, so its outcome is not a parameter. */
  function HandleConvert(upload: Option<Upload>, now: nat, uploadDir: string,
                         extraction: Extraction, written: bool): (h: Handled)
    ensures upload.None? ==> h.response == Json(400, NoFileMessage) && !h.extracted && h.cleanup == []
    ensures upload.Some? && !MimeAllowed(upload.value.mimeType) ==>
              h.response == Json(500, OnlyWordMessage) && !h.extracted && h.cleanup == []
    ensures upload.Some? && MimeAllowed(upload.value.mimeType) && !WithinLimit(upload.value) ==>
              h.response == Json(500, TooLargeMessage) && h.cleanup == []
    ensures h.extracted <==> upload.Some? && MimeAllowed(upload.value.mimeType) && WithinLimit(upload.value)
    ensures h.extracted && extraction.ExtractionFailed? ==>
              h.response == Json(500, ConversionFailedPrefix + extraction.message)
    ensures h.extracted && extraction.Extracted? && !written ==>
              h.response == Json(500, PdfCreationFailedMessage)
    ensures h.response.Download? <==> h.extracted && extraction.Extracted? && written
    ensures h.response.Download? ==>
              var stored := StoredName(now, upload.value.originalName);
              h.response == Download(Join(uploadDir, OutputName(stored)), OutputName(stored), extraction.text) &&
              h.cleanup == [Join(uploadDir, stored), Join(uploadDir, OutputName(stored))]
    ensures !h.response.Download? ==> h.cleanup == []
    ensures StatusCode(h.response) in {200, 400, 500}
  {
    if upload.None? then Handled(Json(400, NoFileMessage), false, [])
    else if !MimeAllowed(upload.value.mimeType) then Handled(Json(500, OnlyWordMessage), false, [])
    else if !WithinLimit(upload.value) then Handled(Json(500, TooLargeMessage), false, [])
    else
      var stored := StoredName(now, upload.value.originalName);
      var inputPath := Join(uploadDir, stored);
      var outputPath := Join(uploadDir, OutputName(stored));
      match extraction
      case ExtractionFailed(message) => Handled(Json(500, ConversionFailedPrefix + message), true, [])
      case Extracted(text) =>
        if !written then Handled(Json(500, PdfCreationFailedMessage), true, [])
        else Handled(Download(outputPath, OutputName(stored), text), true, [inputPath, outputPath])
  }

  /** A 200 always comes with its output and the cleanup of both scratch files; the two
      scratch files are one and the same path exactly when the original was itself named
      `*.pdf`, since the output then overwrites the upload. */
  lemma SuccessCleansBoth(u: Upload, now: nat, uploadDir: string, text: string)
    requires MimeAllowed(u.mimeType) && WithinLimit(u)
    ensures var h := HandleConvert(Some(u), now, uploadDir, Extracted(text), true);
      StatusCode(h.response) == 200 &&
      h.cleanup == [Join(uploadDir, StoredName(now, u.originalName)), h.response.path] &&
      (h.cleanup[0] == h.cleanup[1] <==> EndsWith(u.originalName, ".pdf"))
  {
    var stored := StoredName(now, u.originalName);
    JoinSame(uploadDir, stored, OutputName(stored));
    OutputIsStoredIff(now, u.originalName);
  }

  lemma JoinSame(dir: string, a: string, b: string)
    ensures Join(dir, a) == Join(dir, b) <==> a == b
  {
    var prefix := dir + "/";
    if Join(dir, a) == Join(dir, b) {
      assert a == Join(dir, a)[|prefix|..];
      assert b == Join(dir, b)[|prefix|..];
    }
  }

  /** The output file overwrites the upload exactly when the original is named `*.pdf`. */
  lemma OutputIsStoredIff(now: nat, o: string)
    ensures OutputName(StoredName(now, o)) == StoredName(now, o) <==> EndsWith(o, ".pdf")
  {
    var stored := StoredName(now, o);
    if OutputName(stored) == stored {
      assert EndsWith(stored, ".pdf");
      DashNameEndsWith(Decimal(now), o, ".pdf");
    }
    if EndsWith(o, ".pdf") {
      PdfOriginalOverwritten(now, o[..|o| - 4]);
      assert o == o[..|o| - 4] + ".pdf";
    }
  }

  lemma PdfOriginalOverwritten(now: nat, stem: string)
    ensures OutputName(StoredName(now, stem + ".pdf")) == StoredName(now, stem + ".pdf")
  {
    assert stem + ".pdf" == stem + "." + "pdf";
    OriginalStemOf(stem, "pdf");
    StoredStem(now, stem + ".pdf");
  }

  /** A name `d-o` ends in a suffix without `-` only when `o` itself does. */
  lemma DashNameEndsWith(d: string, o: string, suffix: string)
    requires '-' !in suffix
    ensures EndsWith(d + "-" + o, suffix) ==> EndsWith(o, suffix)
  {
    var s := d + "-" + o;
    if |suffix| <= |o| {
      assert s[|s| - |suffix|..] == o[|o| - |suffix|..];
    } else if |suffix| <= |s| {
      var p := |d|;
      assert s[p] == '-';
      assert s[|s| - |suffix|..][p - (|s| - |suffix|)] == '-';
    }
  }
}
