/** The multi-format front-end (WordToPdfConverterMain/frontend/App.js): what the document
    picker's answer becomes, which files are let into the list, where each accepted file is
    sent for conversion, where its PDF is written, and when it leaves the list. Picking,
    reading, printing, copying, uploading and sharing are library calls; their results are
    parameters here. */
module WordIntake {
  import opened Common

  /** One asset of the picker's answer; an absent name is "". */
  datatype Asset = Asset(uri: string, name: string, fileName: string, size: nat)

  /** The picker's answer: the `canceled` flag (or `type === 'cancel'`), the `assets` array, and
      the older single-file shape (`type === 'success'`, `uri`, `name`). */
  datatype PickResult = PickResult(canceled: bool, assets: seq<Asset>, success: bool, uri: string, name: string)

  /** An entry of the `files` list. */
  datatype PickedFile = PickedFile(uri: string, name: string)

  /** The display name of an asset: `name`, else `fileName`, else the last `/` segment of the uri. */
  function AssetName(a: Asset): (r: string)
    ensures a.name != "" ==> r == a.name
    ensures a.name == "" && a.fileName != "" ==> r == a.fileName
    ensures a.name == "" && a.fileName == "" ==> r == AfterLast(a.uri, '/') && '/' !in r
  {
    Or(Or(a.name, a.fileName), AfterLast(a.uri, '/'))
  }

  /** The file a (non-cancelled) answer designates, if any. */
  function Interpret(r: PickResult): (p: Option<PickedFile>)
    ensures |r.assets| > 0 ==> p == Some(PickedFile(r.assets[0].uri, AssetName(r.assets[0])))
    ensures |r.assets| == 0 ==> (p.Some? <==> r.success || r.uri != "")
    ensures |r.assets| == 0 && p.Some? ==> p.value.uri == r.uri && p.value.name == Or(r.name, AfterLast(r.uri, '/'))
  {
    if |r.assets| > 0 then Some(PickedFile(r.assets[0].uri, AssetName(r.assets[0])))
    else if r.success || r.uri != "" then Some(PickedFile(r.uri, Or(r.name, AfterLast(r.uri, '/'))))
    else None
  }

  /** `name.split('.').pop().toLowerCase()`: the lower-cased text after the last dot, or the
      whole name lower-cased when it has no dot. */
  function Extension(name: string): (r: string)
    ensures '.' !in r
    ensures |r| <= |name|
  {
    Lower(AfterLast(name, '.'))
  }

  /** The extension of `stem.ext` is the lower-cased `ext`, whatever dots the stem holds. */
  lemma ExtensionOf(stem: string, ext: string)
    requires '.' !in ext
    ensures Extension(stem + "." + ext) == Lower(ext)
  {
    var s := stem + "." + ext;
    var i := LastIndex(s, '.');
    assert s[|stem|] == '.';
    assert forall k :: |stem| < k < |s| ==> s[k] == ext[k - |stem| - 1];
    assert i == |stem|;
    assert s[i + 1..] == ext;
  }

  /** A name without a dot is its own extension: a file called `PDF` passes the allow-list. */
  lemma ExtensionOfDotless(name: string)
    requires '.' !in name
    ensures Extension(name) == Lower(name)
  {
  }

  const Allowed: seq<string> := ["doc", "docx", "pdf", "jpg", "jpeg", "png", "mp4"]

  predicate Accepted(name: string)
  {
    Extension(name) in Allowed
  }

  /** Where `doConvert` sends a file, by extension. */
  datatype Route = Image(mime: string) | CopyPdf | VideoThumbnail | Backend | Unrouted

  function RouteOf(ext: string): (r: Route)
    ensures r.Image? <==> ext in ["jpg", "jpeg", "png"]
    ensures r.Image? ==> r.mime == (if ext == "png" then "image/png" else "image/jpeg")
    ensures r == CopyPdf <==> ext == "pdf"
    ensures r == VideoThumbnail <==> ext == "mp4"
    ensures r == Backend <==> ext in ["doc", "docx"]
  {
    if ext in ["jpg", "jpeg", "png"] then Image(if ext == "png" then "image/png" else "image/jpeg")
    else if ext == "pdf" then CopyPdf
    else if ext == "mp4" then VideoThumbnail
    else if ext in ["doc", "docx"] then Backend
    else Unrouted
  }

  /** `file.name || 'file'`. */
  function ConvertName(file: PickedFile): string
  {
    Or(file.name, "file")
  }

  function Dispatch(file: PickedFile): Route
  {
    RouteOf(Extension(ConvertName(file)))
  }

  /** The allow-list and the dispatch agree: a file has a conversion route exactly when its
      name passed the allow-list. */
  lemma RoutedIffAccepted(file: PickedFile)
    ensures Dispatch(file) != Unrouted <==> Accepted(file.name)
  {
    if file.name == "" {
      DefaultNameUnrouted();
    } else {
      RouteIffAllowed(Extension(file.name));
    }
  }

  /** A nameless file is converted as `file`, which has no route; and the empty name is not
      on the allow-list. */
  lemma DefaultNameUnrouted()
    ensures RouteOf(Extension("file")) == Unrouted
    ensures !Accepted("")
  {
    ExtensionOfDotless("file");
    var f := Lower("file");
    assert f[0] == 'f' && f[1] == 'i' && f[2] == 'l' && f[3] == 'e';
    assert f == "file";
    assert Extension("") == "";
  }

  /** The dispatch covers exactly the allow-list. */
  lemma RouteIffAllowed(ext: string)
    ensures RouteOf(ext) != Unrouted <==> ext in Allowed
  {
    assert ext in Allowed <==> ext in ["jpg", "jpeg", "png"] || ext == "pdf" || ext == "mp4" || ext in ["doc", "docx"];
  }

  /** `baseName`: the name (or 'file') with only its last extension removed. */
  function BaseName(file: PickedFile): string
  {
    StripExtension(ConvertName(file))
  }

  /** Every route writes to the document directory under the base name plus `.pdf`. */
  function Destination(docDir: string, file: PickedFile): string
  {
    docDir + BaseName(file) + ".pdf"
  }

  lemma DestinationOf(docDir: string, uri: string, stem: string, ext: string)
    requires IsExtension(ext)
    ensures Destination(docDir, PickedFile(uri, stem + "." + ext)) == docDir + stem + ".pdf"
  {
    StripExtensionOf(stem, ext);
  }

  /** A failure on the image and PDF routes escapes to the outer handler and keeps the file in
      the list; the video and Word routes catch their own failures, so their files are removed
      whether or not they converted. */
  predicate KeptAfterConvert(route: Route, failed: bool)
  {
    failed && (route.Image? || route == CopyPdf)
  }

  predicate HasUri(files: seq<PickedFile>, uri: string)
  {
    exists i :: 0 <= i < |files| && files[i].uri == uri
  }

  predicate DistinctUris(files: seq<PickedFile>)
  {
    forall i, j :: 0 <= i < j < |files| ==> files[i].uri != files[j].uri
  }

  /** `files.filter(f => f.uri !== uri)`. */
  function WithoutUri(files: seq<PickedFile>, uri: string): (r: seq<PickedFile>)
    ensures |r| <= |files|
    ensures !HasUri(r, uri)
  {
    if files == [] then []
    else if files[|files| - 1].uri == uri then WithoutUri(files[..|files| - 1], uri)
    else WithoutUri(files[..|files| - 1], uri) + [files[|files| - 1]]
  }

  lemma {:induction false} WithoutUriMembers(files: seq<PickedFile>, uri: string)
    ensures forall f :: f in WithoutUri(files, uri) <==> f in files && f.uri != uri
  {
    if files != [] {
      var init := files[..|files| - 1];
      WithoutUriMembers(init, uri);
      assert files == init + [files[|files| - 1]];
    }
  }

  /** What a pick ends with. */
  datatype PickOutcome = Cancelled | Unreadable | Unsupported | Selected | AlreadySelected

  class WordConverter {
    var files: seq<PickedFile>

    constructor ()
      ensures files == []
    {
      files := [];
    }

    /** `pickWordFiles`: one file is appended when the answer designates a file whose extension
        is allowed and whose uri is not listed yet; in every other case the list is unchanged. */
    method PickWordFiles(r: PickResult) returns (outcome: PickOutcome)
      modifies this
      ensures r.canceled ==> outcome == Cancelled
      ensures !r.canceled && Interpret(r).None? ==> outcome == Unreadable
      ensures !r.canceled && Interpret(r).Some? ==>
        var f := Interpret(r).value;
        (!Accepted(f.name) ==> outcome == Unsupported) &&
        (Accepted(f.name) && HasUri(old(files), f.uri) ==> outcome == AlreadySelected) &&
        (Accepted(f.name) && !HasUri(old(files), f.uri) ==> outcome == Selected)
      ensures outcome == Selected ==> files == old(files) + [Interpret(r).value]
      ensures outcome != Selected ==> files == old(files)
      ensures DistinctUris(old(files)) ==> DistinctUris(files)
    {
      if r.canceled {
        return Cancelled;
      }
      var picked := Interpret(r);
      if picked.None? {
        return Unreadable;
      }
      var file := picked.value;
      var name := Or(file.name, "");
      var ext := Extension(name);
      if ext !in Allowed {
        return Unsupported;
      }
      if HasUri(files, file.uri) {
        outcome := AlreadySelected;
      } else {
        files := files + [file];
        outcome := Selected;
      }
    }

    /** `convertToPDF`: picks the route and the destination, and removes the file from the list
        unless its route's library step threw (`failed`) on a route that does not catch. */
    method ConvertToPdf(file: PickedFile, docDir: string, failed: bool) returns (route: Route, dest: string)
      modifies this
      ensures route == Dispatch(file) && dest == Destination(docDir, file)
      ensures KeptAfterConvert(route, failed) ==> files == old(files)
      ensures !KeptAfterConvert(route, failed) ==> files == WithoutUri(old(files), file.uri)
    {
      var name := Or(file.name, "file");
      var ext := Extension(name);
      var baseName := StripExtension(name);
      route := RouteOf(ext);
      dest := docDir + baseName + ".pdf";
      if failed && (route.Image? || route == CopyPdf) {
        return;
      }
      files := WithoutUri(files, file.uri);
    }

    /** `confirmDelete`: the entry goes only when the user presses Delete. */
    method ConfirmDelete(file: PickedFile, confirmed: bool)
      modifies this
      ensures confirmed ==> files == WithoutUri(old(files), file.uri)
      ensures !confirmed ==> files == old(files)
    {
      if confirmed {
        files := WithoutUri(files, file.uri);
      }
    }
  }
}
