/** The image queue of the ImageToPdf home screen (ImageToPdf/frontend/src/screens/HomeScreen.js):
    a list of image records keyed by `uri`, the per-file conversion handler, the batch
    "convert all pending" loop, the CSS fragments derived from the settings and the filter,
    and the output file names. Reading the image, printing HTML to PDF, moving and sharing
    files are library calls; their results are parameters here. */
module ImageQueue {
  import opened Common
  import opened ImageFiles
  import opened PdfSettings

  /** What the pickers hand to `addFile`. */
  datatype Asset = Asset(uri: string, name: string, size: nat, mimeType: string)

  /** The record `addFile` appends for a fresh asset. */
  function NewEntry(a: Asset): (r: ImageFile)
    ensures r.uri == a.uri && r.name == a.name && r.size == a.size && r.mimeType == a.mimeType
    ensures r.status == Pending && r.filter == "Normal" && r.pdfUri == ""
  {
    ImageFile(a.uri, a.name, a.size, a.mimeType, Pending, "Normal", "")
  }

  predicate HasUri(files: seq<ImageFile>, uri: string)
  {
    exists i :: 0 <= i < |files| && files[i].uri == uri
  }

  /** No two entries share a `uri`. */
  predicate DistinctUris(files: seq<ImageFile>)
  {
    forall i, j :: 0 <= i < j < |files| ==> files[i].uri != files[j].uri
  }

  // ---------------------------------------------------------------------------
  // The list updates, as the new lists the handlers assign to `files`

  /** `addFile`: a duplicate `uri` leaves the list alone; otherwise one pending record with the
      Normal filter goes at the end. */
  function WithFile(files: seq<ImageFile>, a: Asset): (r: seq<ImageFile>)
    ensures HasUri(files, a.uri) ==> r == files
    ensures !HasUri(files, a.uri) ==> |r| == |files| + 1 && r[..|files|] == files && r[|files|] == NewEntry(a)
    ensures DistinctUris(files) ==> DistinctUris(r)
  {
    if HasUri(files, a.uri) then files else files + [NewEntry(a)]
  }

  /** The list with entries `i` and `j` exchanged. */
  function Swap(s: seq<ImageFile>, i: nat, j: nat): (r: seq<ImageFile>)
    requires i < |s| && j < |s|
    ensures |r| == |s| && r[i] == s[j] && r[j] == s[i]
    ensures forall k :: 0 <= k < |s| && k != i && k != j ==> r[k] == s[k]
    ensures multiset(r) == multiset(s)
  {
    s[i := s[j]][j := s[i]]
  }

  /** `moveFile`: 'up' swaps an entry with the one before it, 'down' with the one after it;
      at either end, and for any other direction, the list is unchanged. */
  function Moved(files: seq<ImageFile>, index: nat, direction: string): (r: seq<ImageFile>)
    requires index < |files|
    ensures |r| == |files| && multiset(r) == multiset(files)
    ensures direction == "up" && index > 0 ==> r == Swap(files, index, index - 1)
    ensures direction == "down" && index < |files| - 1 ==> r == Swap(files, index, index + 1)
    ensures !(direction == "up" && index > 0) && !(direction == "down" && index < |files| - 1) ==> r == files
  {
    if direction == "up" && index > 0 then Swap(files, index, index - 1)
    else if direction == "down" && index < |files| - 1 then Swap(files, index, index + 1)
    else files
  }

  /** Moving an entry up and then moving it back down restores the list. */
  lemma MoveUpThenDown(files: seq<ImageFile>, index: nat)
    requires 0 < index < |files|
    ensures Moved(Moved(files, index, "up"), index - 1, "down") == files
  {
    var up := Swap(files, index, index - 1);
    assert Moved(files, index, "up") == up;
    var back := Swap(up, index - 1, index);
    assert Moved(up, index - 1, "down") == back;
    forall k | 0 <= k < |files| ensures back[k] == files[k] {
      if k != index && k != index - 1 {
        assert up[k] == files[k];
      }
    }
  }

  /** Position `k` after exchanging positions `i` and `j`. */
  function Swapped(k: nat, i: nat, j: nat): nat
  {
    if k == i then j else if k == j then i else k
  }

  lemma SwapKeepsDistinct(s: seq<ImageFile>, i: nat, j: nat)
    requires i < |s| && j < |s| && DistinctUris(s)
    ensures DistinctUris(Swap(s, i, j))
  {
    var r := Swap(s, i, j);
    assert forall k :: 0 <= k < |r| ==> r[k] == s[Swapped(k, i, j)];
    forall x, y | 0 <= x < y < |r| ensures r[x].uri != r[y].uri {
      var px, py := Swapped(x, i, j), Swapped(y, i, j);
      if px < py {
        assert s[px].uri != s[py].uri;
      } else {
        assert s[py].uri != s[px].uri;
      }
    }
  }

  /** `moveFile` keeps the uris distinct. */
  lemma MovedKeepsDistinct(files: seq<ImageFile>, index: nat, direction: string)
    requires index < |files|
    requires DistinctUris(files)
    ensures DistinctUris(Moved(files, index, direction))
  {
    if direction == "up" && index > 0 {
      SwapKeepsDistinct(files, index, index - 1);
    } else if direction == "down" && index < |files| - 1 {
      SwapKeepsDistinct(files, index, index + 1);
    }
  }

  /** One entry after `updateFileStatus`: status set, `pdfUri: pdfUri || f.pdfUri`. */
  function StatusSet(f: ImageFile, status: Status, pdfUri: string): (r: ImageFile)
    ensures r.status == status
    ensures pdfUri != "" ==> r.pdfUri == pdfUri
    ensures pdfUri == "" ==> r.pdfUri == f.pdfUri
    ensures r.(status := f.status, pdfUri := f.pdfUri) == f
  {
    f.(status := status, pdfUri := Or(pdfUri, f.pdfUri))
  }

  /** `updateFileStatus`: every entry with this `uri` gets the new status, and the new `pdfUri`
      when one is given; every other entry is untouched. */
  function WithStatus(files: seq<ImageFile>, uri: string, status: Status, pdfUri: string): (r: seq<ImageFile>)
    ensures |r| == |files|
    ensures forall k :: 0 <= k < |files| && files[k].uri != uri ==> r[k] == files[k]
    ensures forall k :: 0 <= k < |files| && files[k].uri == uri ==> r[k] == StatusSet(files[k], status, pdfUri)
    ensures forall k :: 0 <= k < |files| ==> r[k].uri == files[k].uri
  {
    seq(|files|, k requires 0 <= k < |files| =>
      if files[k].uri == uri then StatusSet(files[k], status, pdfUri) else files[k])
  }

  lemma WithStatusKeepsDistinct(files: seq<ImageFile>, uri: string, status: Status, pdfUri: string)
    requires DistinctUris(files)
    ensures DistinctUris(WithStatus(files, uri, status, pdfUri))
  {
  }

  /** A later status update of the same entries wins over an earlier one that gave no `pdfUri`. */
  lemma WithStatusOverwrites(files: seq<ImageFile>, uri: string, s1: Status, s2: Status, pdfUri: string)
    ensures WithStatus(WithStatus(files, uri, s1, ""), uri, s2, pdfUri) == WithStatus(files, uri, s2, pdfUri)
  {
    var a := WithStatus(WithStatus(files, uri, s1, ""), uri, s2, pdfUri);
    var b := WithStatus(files, uri, s2, pdfUri);
    forall k | 0 <= k < |files| ensures a[k] == b[k] {
    }
  }

  /** `removeFile`: the list without the entries carrying `uri`, the others in their order. */
  function Without(files: seq<ImageFile>, uri: string): (r: seq<ImageFile>)
    ensures |r| <= |files|
    ensures !HasUri(r, uri)
  {
    if files == [] then []
    else if files[|files| - 1].uri == uri then Without(files[..|files| - 1], uri)
    else Without(files[..|files| - 1], uri) + [files[|files| - 1]]
  }

  /** What `removeFile` keeps: exactly the entries whose `uri` differs. */
  lemma {:induction false} WithoutMembers(files: seq<ImageFile>, uri: string)
    ensures forall f :: f in Without(files, uri) <==> f in files && f.uri != uri
  {
    if files != [] {
      var init := files[..|files| - 1];
      WithoutMembers(init, uri);
      assert files == init + [files[|files| - 1]];
    }
  }

  /** Removing an entry that was never there changes nothing. */
  lemma {:induction false} WithoutAbsent(files: seq<ImageFile>, uri: string)
    requires !HasUri(files, uri)
    ensures Without(files, uri) == files
  {
    if files != [] {
      var init := files[..|files| - 1];
      forall j | 0 <= j < |init| ensures init[j].uri != uri {
        assert init[j] == files[j];
      }
      WithoutAbsent(init, uri);
      assert files == init + [files[|files| - 1]];
    }
  }

  lemma DistinctInit(files: seq<ImageFile>)
    requires files != [] && DistinctUris(files)
    ensures DistinctUris(files[..|files| - 1])
    ensures forall j :: 0 <= j < |files| - 1 ==> files[j].uri != files[|files| - 1].uri
  {
  }

  /** With distinct uris, removing the entry at `i` closes the gap and keeps the rest in order. */
  lemma {:induction false} WithoutAt(files: seq<ImageFile>, i: nat)
    requires i < |files| && DistinctUris(files)
    ensures Without(files, files[i].uri) == files[..i] + files[i + 1..]
  {
    var uri := files[i].uri;
    var last := |files| - 1;
    var init := files[..last];
    DistinctInit(files);
    if i == last {
      forall j | 0 <= j < |init| ensures init[j].uri != uri {
        assert init[j] == files[j];
      }
      WithoutAbsent(init, uri);
      assert files[..i] == init;
    } else {
      assert files[last].uri != uri;
      assert init[i] == files[i];
      assert Without(files, uri) == Without(init, uri) + [files[last]];
      WithoutAt(init, i);
      assert files[..i] == init[..i];
      assert files[i + 1..] == init[i + 1..] + [files[last]];
    }
  }

  /** Adding a new asset and then removing its uri gives back the original list. */
  lemma AddThenRemove(files: seq<ImageFile>, a: Asset)
    requires !HasUri(files, a.uri)
    ensures Without(WithFile(files, a), a.uri) == files
  {
    var added := WithFile(files, a);
    assert added[..|files|] == files;
    WithoutAbsent(files, a.uri);
  }

  lemma {:induction false} WithoutKeepsDistinct(files: seq<ImageFile>, uri: string)
    requires DistinctUris(files)
    ensures DistinctUris(Without(files, uri))
  {
    if files != [] {
      var init := files[..|files| - 1];
      var lastEntry := files[|files| - 1];
      WithoutKeepsDistinct(init, uri);
      WithoutMembers(init, uri);
      if lastEntry.uri != uri {
        var w := Without(init, uri);
        forall k | 0 <= k < |w| ensures w[k].uri != lastEntry.uri {
          assert w[k] in init;
        }
      }
    }
  }

  /** The merge done by `saveEditedImage`: `{ ...f, ...updated, status: 'pending' }`. Every key
      of the edited record overrides the entry, except an absent `pdfUri`. */
  function Merge(f: ImageFile, updated: ImageFile): (r: ImageFile)
    ensures r.status == Pending
    ensures r.(status := updated.status, pdfUri := updated.pdfUri) == updated
    ensures r.pdfUri == (if updated.pdfUri != "" then updated.pdfUri else f.pdfUri)
  {
    updated.(status := Pending, pdfUri := Or(updated.pdfUri, f.pdfUri))
  }

  /** `saveEditedImage`: the entries carrying the edited file's original `uri` take the edited
      record and go back to pending; the other entries are untouched. */
  function Merged(files: seq<ImageFile>, editedUri: string, updated: ImageFile): (r: seq<ImageFile>)
    ensures |r| == |files|
    ensures forall k :: 0 <= k < |files| && files[k].uri != editedUri ==> r[k] == files[k]
    ensures forall k :: 0 <= k < |files| && files[k].uri == editedUri ==> r[k] == Merge(files[k], updated)
  {
    seq(|files|, k requires 0 <= k < |files| =>
      if files[k].uri == editedUri then Merge(files[k], updated) else files[k])
  }

  /** The edited entry keeps the uris distinct when its new uri is its old one or is fresh. */
  lemma MergedKeepsDistinct(files: seq<ImageFile>, editedUri: string, updated: ImageFile)
    requires DistinctUris(files)
    requires updated.uri == editedUri || !HasUri(files, updated.uri)
    ensures DistinctUris(Merged(files, editedUri, updated))
  {
    var r := Merged(files, editedUri, updated);
    forall i, j | 0 <= i < j < |r| ensures r[i].uri != r[j].uri {
      if files[i].uri == editedUri {
        assert files[j].uri != editedUri;
        assert r[j] == files[j];
      } else if files[j].uri == editedUri {
        assert r[i] == files[i];
      }
    }
  }

  // ---------------------------------------------------------------------------
  // Styles and names

  const GrayscaleCss: string := "filter: grayscale(100%);"
  const DocumentCss: string := "filter: grayscale(100%) contrast(150%) brightness(110%);"

  /** The CSS of the `<img>` for a filter: both BW and Document are grayscale, Document also
      raises contrast and brightness, and Normal or any other name adds nothing. */
  method FilterStyle(filter: string) returns (filterStyle: string)
    ensures filter == "BW" ==> filterStyle == GrayscaleCss
    ensures filter == "Document" ==> filterStyle == DocumentCss
    ensures filter != "BW" && filter != "Document" ==> filterStyle == ""
  {
    filterStyle := "";
    if filter == "BW" { filterStyle := GrayscaleCss; }
    if filter == "Document" { filterStyle := DocumentCss; }
  }

  /** The `@page` margin for a margins setting. */
  method PageMargin(margins: string) returns (margin: string)
    ensures margins == "Small" ==> margin == "20px"
    ensures margins == "Normal" ==> margin == "40px"
    ensures margins != "Small" && margins != "Normal" ==> margin == "0"
  {
    margin := "0";
    if margins == "Small" { margin := "20px"; }
    if margins == "Normal" { margin := "40px"; }
  }

  /** The characters `[a-zA-Z0-9-_]` that survive `pdfName.replace(/[^a-zA-Z0-9-_]/g, '')`. */
  predicate NameChar(c: char)
  {
    'a' <= c <= 'z' || 'A' <= c <= 'Z' || '0' <= c <= '9' || c == '-' || c == '_'
  }

  /** The user's PDF name with every other character deleted. */
  function Sanitize(s: string): (r: string)
    ensures |r| <= |s|
    ensures forall k :: 0 <= k < |r| ==> NameChar(r[k])
    ensures forall c :: c in r ==> c in s
  {
    if s == [] then [] else Sanitize(s[..|s| - 1]) + (if NameChar(s[|s| - 1]) then [s[|s| - 1]] else [])
  }

  /** Sanitizing works character by character: it distributes over concatenation. */
  lemma {:induction false} SanitizeAppend(a: string, b: string)
    ensures Sanitize(a + b) == Sanitize(a) + Sanitize(b)
  {
    if b != [] {
      assert (a + b)[..|a + b| - 1] == a + b[..|b| - 1];
      SanitizeAppend(a, b[..|b| - 1]);
    } else {
      assert a + b == a;
    }
  }

  /** A name made only of allowed characters is kept as it is; so sanitizing is idempotent. */
  lemma {:induction false} SanitizeKeepsClean(s: string)
    requires forall k :: 0 <= k < |s| ==> NameChar(s[k])
    ensures Sanitize(s) == s
  {
    if s != [] {
      SanitizeKeepsClean(s[..|s| - 1]);
    }
  }

  lemma SanitizeIdempotent(s: string)
    ensures Sanitize(Sanitize(s)) == Sanitize(s)
  {
    SanitizeKeepsClean(Sanitize(s));
  }

  /** The renamed output: `<sanitized name>_<timestamp>.pdf`. */
  function PdfFileName(pdfName: string, stamp: nat): string
  {
    Sanitize(pdfName) + "_" + Decimal(stamp) + ".pdf"
  }

  predicate Clean(s: string)
  {
    forall k :: 0 <= k < |s| ==> NameChar(s[k])
  }

  lemma CleanStem(pdfName: string, stamp: nat)
    ensures Clean(Sanitize(pdfName) + "_" + Decimal(stamp))
  {
    var a, d := Sanitize(pdfName), Decimal(stamp);
    var stem := a + "_" + d;
    forall k | 0 <= k < |stem| ensures NameChar(stem[k]) {
      if k < |a| {
        assert stem[k] == a[k];
      } else if k > |a| {
        assert stem[k] == d[k - |a| - 1];
      }
    }
  }

  /** The renamed file never leaves the document directory (no `/`), carries exactly one dot,
      and that dot starts the `.pdf` extension. */
  lemma PdfFileNameShape(pdfName: string, stamp: nat)
    ensures '/' !in PdfFileName(pdfName, stamp)
    ensures StripExtension(PdfFileName(pdfName, stamp)) == Sanitize(pdfName) + "_" + Decimal(stamp)
    ensures forall k :: 0 <= k < |PdfFileName(pdfName, stamp)| - 4 ==> PdfFileName(pdfName, stamp)[k] != '.'
  {
    var stem := Sanitize(pdfName) + "_" + Decimal(stamp);
    var name := PdfFileName(pdfName, stamp);
    CleanStem(pdfName, stamp);
    assert name == stem + "." + "pdf";
    assert '/' !in stem;
    assert forall k :: 0 <= k < |stem| ==> name[k] == stem[k];
    StripExtensionOf(stem, "pdf");
  }

  /** Where a converted file ends up: the printed file, or the renamed copy in the document
      directory when a PDF name was typed. */
  function FinalUri(printed: string, pdfName: string, docDir: string, stamp: nat): (r: string)
    ensures pdfName == "" ==> r == printed
    ensures pdfName != "" ==> r == docDir + PdfFileName(pdfName, stamp)
  {
    if pdfName != "" then docDir + PdfFileName(pdfName, stamp) else printed
  }

  /** The file `openFile` shares: the recorded PDF, or else the document directory plus the
      name with its extension replaced by `.pdf`. */
  function OpenTarget(item: ImageFile, docDir: string): (r: string)
    ensures item.pdfUri != "" ==> r == item.pdfUri
    ensures item.pdfUri == "" ==> r == docDir + StripExtension(item.name) + ".pdf"
  {
    Or(item.pdfUri, docDir + StripExtension(item.name) + ".pdf")
  }

  lemma OpenTargetFallback(item: ImageFile, docDir: string, stem: string, ext: string)
    requires item.pdfUri == "" && item.name == stem + "." + ext && IsExtension(ext)
    ensures OpenTarget(item, docDir) == docDir + stem + ".pdf"
  {
    StripExtensionOf(stem, ext);
  }

  // ---------------------------------------------------------------------------
  // Batch conversion

  /** `files.filter(f => f.status === 'pending')`. */
  function PendingOf(files: seq<ImageFile>): (r: seq<ImageFile>)
    ensures |r| <= |files|
    ensures forall k :: 0 <= k < |r| ==> r[k].status == Pending
  {
    if files == [] then []
    else PendingOf(files[..|files| - 1]) + (if files[|files| - 1].status == Pending then [files[|files| - 1]] else [])
  }

  /** The selection keeps list order: it distributes over concatenation. */
  lemma {:induction false} PendingOfAppend(a: seq<ImageFile>, b: seq<ImageFile>)
    ensures PendingOf(a + b) == PendingOf(a) + PendingOf(b)
    decreases |b|
  {
    if b == [] {
      assert a + b == a;
    } else {
      var init := b[..|b| - 1];
      PendingOfAppend(a, init);
      assert (a + b)[..|a + b| - 1] == a + init;
      assert (a + b)[|a + b| - 1] == b[|b| - 1];
    }
  }

  /** The batch picks up exactly the pending entries. */
  lemma {:induction false} PendingMembers(files: seq<ImageFile>)
    ensures forall f :: f in PendingOf(files) <==> f in files && f.status == Pending
  {
    if files != [] {
      var init := files[..|files| - 1];
      PendingMembers(init);
      assert files == init + [files[|files| - 1]];
    }
  }

  /** The status and `pdfUri` that one conversion leaves: done with the final uri when the
      printing and renaming went through (`printed` holds the printed file), error otherwise. */
  function Outcome(printed: Option<string>, pdfName: string, docDir: string, stamp: nat): (Status, string)
  {
    match printed
    case Some(p) => (Done, FinalUri(p, pdfName, docDir, stamp))
    case None => (Failed, "")
  }

  /** The list after the first `k` pending files were converted in order. */
  function ConvertedUpTo(files: seq<ImageFile>, pending: seq<ImageFile>, printed: seq<Option<string>>,
                         stamps: seq<nat>, pdfName: string, docDir: string, k: nat): (r: seq<ImageFile>)
    requires k <= |pending| == |printed| == |stamps|
    ensures |r| == |files|
  {
    if k == 0 then files
    else
      var o := Outcome(printed[k - 1], pdfName, docDir, stamps[k - 1]);
      WithStatus(ConvertedUpTo(files, pending, printed, stamps, pdfName, docDir, k - 1), pending[k - 1].uri, o.0, o.1)
  }

  /** The uris of the first `k` entries of `pending`. */
  predicate UriAmong(pending: seq<ImageFile>, k: nat, uri: string)
    requires k <= |pending|
  {
    exists j :: 0 <= j < k && pending[j].uri == uri
  }

  lemma {:induction false} ConvertedUpToEffect(files: seq<ImageFile>, pending: seq<ImageFile>, printed: seq<Option<string>>,
                                               stamps: seq<nat>, pdfName: string, docDir: string, k: nat)
    requires k <= |pending| == |printed| == |stamps|
    ensures var r := ConvertedUpTo(files, pending, printed, stamps, pdfName, docDir, k);
      forall i :: 0 <= i < |files| ==>
        r[i].uri == files[i].uri &&
        (!UriAmong(pending, k, files[i].uri) ==> r[i] == files[i]) &&
        (UriAmong(pending, k, files[i].uri) ==> r[i].status in {Done, Failed})
  {
    if k > 0 {
      ConvertedUpToEffect(files, pending, printed, stamps, pdfName, docDir, k - 1);
      var r := ConvertedUpTo(files, pending, printed, stamps, pdfName, docDir, k);
      forall i | 0 <= i < |files|
        ensures r[i].uri == files[i].uri
        ensures !UriAmong(pending, k, files[i].uri) ==> r[i] == files[i]
        ensures UriAmong(pending, k, files[i].uri) ==> r[i].status in {Done, Failed}
      {
        if !UriAmong(pending, k, files[i].uri) {
          assert !UriAmong(pending, k - 1, files[i].uri);
        } else if files[i].uri != pending[k - 1].uri {
          var j :| 0 <= j < k && pending[j].uri == files[i].uri;
          assert UriAmong(pending, k - 1, files[i].uri);
        }
      }
    }
  }

  /** "Convert all": every entry that was pending ends done or error, and every other entry is
      left exactly as it was. */
  lemma ConvertAllSettles(files: seq<ImageFile>, printed: seq<Option<string>>, stamps: seq<nat>,
                          pdfName: string, docDir: string)
    requires |PendingOf(files)| == |printed| == |stamps|
    ensures var r := ConvertedUpTo(files, PendingOf(files), printed, stamps, pdfName, docDir, |printed|);
      |r| == |files| &&
      forall i :: 0 <= i < |files| ==>
        r[i].uri == files[i].uri &&
        (DistinctUris(files) && files[i].status != Pending ==> r[i] == files[i]) &&
        (files[i].status == Pending ==> r[i].status in {Done, Failed})
  {
    var pending := PendingOf(files);
    var k := |printed|;
    PendingMembers(files);
    ConvertedUpToEffect(files, pending, printed, stamps, pdfName, docDir, k);
    var r := ConvertedUpTo(files, pending, printed, stamps, pdfName, docDir, k);
    forall i | 0 <= i < |files|
      ensures DistinctUris(files) && files[i].status != Pending ==> r[i] == files[i]
      ensures files[i].status == Pending ==> r[i].status in {Done, Failed}
    {
      if files[i].status == Pending {
        assert files[i] in pending;
        var j :| 0 <= j < |pending| && pending[j] == files[i];
        assert UriAmong(pending, k, files[i].uri);
      } else if DistinctUris(files) {
        forall j | 0 <= j < k ensures pending[j].uri != files[i].uri {
          assert pending[j] in files;
          var m :| 0 <= m < |files| && files[m] == pending[j];
          assert m != i;
        }
      }
    }
  }

  // ---------------------------------------------------------------------------
  // The screen

  class HomeScreen {
    var files: seq<ImageFile>
    var converting: bool
    var pdfName: string
    var settings: Settings
    var editingFile: Option<ImageFile>

    constructor ()
      ensures files == [] && !converting && pdfName == ""
      ensures settings == DefaultSettings && editingFile == None
    {
      files := [];
      converting := false;
      pdfName := "";
      settings := DefaultSettings;
      editingFile := None;
    }

    method AddFile(a: Asset)
      modifies this`files
      ensures files == WithFile(old(files), a)
    {
      if HasUri(files, a.uri) {
        return;
      }
      files := files + [NewEntry(a)];
    }

    /** Copies the list into a fresh array, swaps the two neighbours in place and stores the
        copy. The index comes from the rendered row, so it is always in range. */
    method MoveFile(index: nat, direction: string)
      requires index < |files|
      modifies this`files
      ensures files == Moved(old(files), index, direction)
    {
      var s := files;
      var a := new ImageFile[|s|](k requires 0 <= k < |s| => s[k]);
      if direction == "up" && index > 0 {
        a[index], a[index - 1] := a[index - 1], a[index];
      } else if direction == "down" && index < a.Length - 1 {
        a[index], a[index + 1] := a[index + 1], a[index];
      }
      files := a[..];
    }

    method OpenEditor(file: ImageFile)
      modifies this`editingFile
      ensures editingFile == Some(file)
    {
      editingFile := Some(file);
    }

    /** The editor only calls this while a file is open in it. */
    method SaveEditedImage(updated: ImageFile)
      requires editingFile.Some?
      modifies this`files
      ensures files == Merged(old(files), old(editingFile).value.uri, updated)
    {
      files := Merged(files, editingFile.value.uri, updated);
    }

    method UpdateFileStatus(uri: string, status: Status, pdfUri: string)
      modifies this`files
      ensures files == WithStatus(old(files), uri, status, pdfUri)
    {
      files := WithStatus(files, uri, status, pdfUri);
    }

    method RemoveFile(uri: string)
      modifies this`files
      ensures files == Without(old(files), uri)
    {
      files := Without(files, uri);
    }

    method UpdateSettings(s: Settings)
      modifies this`settings
      ensures settings == s
    {
      settings := s;
    }

    /** `handleConvert` for one file: mark it converting, then done with its final uri, or
        error when reading, printing or renaming threw (`printed` is None). */
    method HandleConvert(file: ImageFile, printed: Option<string>, stamp: nat, docDir: string)
      modifies this`files, this`converting
      ensures var o := Outcome(printed, pdfName, docDir, stamp);
        files == WithStatus(old(files), file.uri, o.0, o.1)
      ensures !converting
    {
      converting := true;
      UpdateFileStatus(file.uri, Converting, "");
      if printed.Some? {
        var finalUri := FinalUri(printed.value, pdfName, docDir, stamp);
        UpdateFileStatus(file.uri, Done, finalUri);
        converting := false;
      } else {
        UpdateFileStatus(file.uri, Failed, "");
        converting := false;
      }
      WithStatusOverwrites(old(files), file.uri, Converting,
                           Outcome(printed, pdfName, docDir, stamp).0, Outcome(printed, pdfName, docDir, stamp).1);
    }

    /** The loop of `convertAll`: converts the entries of `pending` one after the other in
        list order; `printed[k]` and `stamps[k]` are what the libraries and the clock give for
        the k-th of them. */
    method ConvertEach(pending: seq<ImageFile>, printed: seq<Option<string>>, stamps: seq<nat>, docDir: string)
      requires |pending| == |printed| == |stamps|
      modifies this`files, this`converting
      ensures files == ConvertedUpTo(old(files), pending, printed, stamps, pdfName, docDir, |pending|)
      ensures pending != [] ==> !converting
      ensures pending == [] ==> converting == old(converting)
    {
      ghost var start := files;
      var k := 0;
      while k < |pending|
        invariant 0 <= k <= |pending|
        invariant files == ConvertedUpTo(start, pending, printed, stamps, pdfName, docDir, k)
        invariant k == 0 ==> converting == old(converting)
        invariant k > 0 ==> !converting
      {
        ghost var o := Outcome(printed[k], pdfName, docDir, stamps[k]);
        assert ConvertedUpTo(start, pending, printed, stamps, pdfName, docDir, k + 1)
            == WithStatus(files, pending[k].uri, o.0, o.1);
        HandleConvert(pending[k], printed[k], stamps[k], docDir);
        k := k + 1;
      }
    }

    /** `convertAll`: converts the files that were pending when it started, in list order.
        Reports whether there was nothing to convert. */
    method ConvertAll(printed: seq<Option<string>>, stamps: seq<nat>, docDir: string) returns (nonePending: bool)
      requires |printed| == |stamps| == |PendingOf(files)|
      modifies this`files, this`converting
      ensures nonePending <==> PendingOf(old(files)) == []
      ensures nonePending ==> files == old(files) && converting == old(converting)
      ensures !nonePending ==>
        files == ConvertedUpTo(old(files), PendingOf(old(files)), printed, stamps, pdfName, docDir, |printed|)
        && !converting
    {
      var pending := PendingOf(files);
      if |pending| == 0 {
        nonePending := true;
        return;
      }
      nonePending := false;
      converting := true;
      ConvertEach(pending, printed, stamps, docDir);
      converting := false;
    }
  }
}
