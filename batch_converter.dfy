/** The batch Word-to-PDF screen (WordToPdfConverter/App.js): the picked-files list, the
    simulated conversion in which every file's progress advances by 20 per interval tick, the
    pending count and the convert button's disabled state, and the download name. The
    document picker and `Math.random` are parameters; the interval ticks run one after the
    other, one file at a time. */
module BatchConverter {
  import opened Common

  /** One entry of `pickedFiles`; the asset's other fields are not used by the screen. */
  datatype DocFile = DocFile(id: string, name: string, isConverted: bool, progress: nat)

  /** Progress added by one tick, and the value at which a file is finished. */
  const Step: nat := 20
  const Full: nat := 100

  function Min(a: int, b: int): (r: int)
    ensures r <= a && r <= b && (r == a || r == b)
  {
    if a <= b then a else b
  }

  /** The progress shown after `ticks` ticks of one file's interval: `Math.min(progress, 100)`. */
  function ShownAfter(ticks: nat): (r: nat)
  {
    Min(Step * ticks, Full)
  }

  /** A file's interval stops after exactly five ticks: before the fifth the bar is below 100,
      from the fifth on it is full, and each tick shows 20 more than the last. */
  lemma FiveTicks(ticks: nat)
    ensures ShownAfter(ticks) >= Full <==> ticks >= 5
    ensures ticks < 5 ==> ShownAfter(ticks) == 20 * ticks && ShownAfter(ticks + 1) == ShownAfter(ticks) + Step
    ensures ShownAfter(ticks) <= Full
  {
  }

  // ---------------------------------------------------------------------------
  // Picking

  /** A freshly picked asset: `{ ...asset, id: asset.name + Math.random(), isConverted: false, progress: 0 }`. */
  function NewFile(name: string, random: string): DocFile
  {
    DocFile(name + random, name, false, 0)
  }

  function NewFiles(names: seq<string>, randoms: seq<string>): (r: seq<DocFile>)
    requires |randoms| == |names|
    ensures |r| == |names|
    ensures forall k :: 0 <= k < |r| ==> r[k].name == names[k] && !r[k].isConverted && r[k].progress == 0
  {
    if names == [] then []
    else NewFiles(names[..|names| - 1], randoms[..|randoms| - 1])
         + [NewFile(names[|names| - 1], randoms[|randoms| - 1])]
  }

  // ---------------------------------------------------------------------------
  // Counting and the convert button

  /** `pickedFiles.filter(f => !f.isConverted).length`. */
  function PendingCount(files: seq<DocFile>): (r: nat)
    ensures r <= |files|
  {
    if files == [] then 0
    else PendingCount(files[..|files| - 1]) + (if files[|files| - 1].isConverted then 0 else 1)
  }

  /** `pickedFiles.every(f => f.isConverted)`. */
  predicate AllConverted(files: seq<DocFile>)
  {
    forall k :: 0 <= k < |files| ==> files[k].isConverted
  }

  lemma {:induction false} PendingCountZero(files: seq<DocFile>)
    ensures PendingCount(files) == 0 <==> AllConverted(files)
  {
    if files != [] {
      var init := files[..|files| - 1];
      PendingCountZero(init);
      assert forall k :: 0 <= k < |init| ==> init[k] == files[k];
    }
  }

  lemma {:induction false} PendingCountAppend(files: seq<DocFile>, more: seq<DocFile>)
    ensures PendingCount(files + more) == PendingCount(files) + PendingCount(more)
    decreases |more|
  {
    if more == [] {
      assert files + more == files;
    } else {
      var init := more[..|more| - 1];
      assert (files + more)[..|files + more| - 1] == files + init;
      PendingCountAppend(files, init);
    }
  }

  /** Every picked file adds one to the pending count. */
  lemma PickAddsPending(files: seq<DocFile>, names: seq<string>, randoms: seq<string>)
    requires |randoms| == |names|
    ensures PendingCount(files + NewFiles(names, randoms)) == PendingCount(files) + |names|
  {
    var added := NewFiles(names, randoms);
    PendingCountAppend(files, added);
    PendingCountAll(added);
  }

  lemma {:induction false} PendingCountAll(files: seq<DocFile>)
    requires forall k :: 0 <= k < |files| ==> !files[k].isConverted
    ensures PendingCount(files) == |files|
  {
    if files != [] {
      PendingCountAll(files[..|files| - 1]);
    }
  }

  /** Extending the visited prefix by one file. */
  lemma PrefixStep(files: seq<DocFile>, i: nat)
    requires i < |files|
    ensures PendingIds(files[..i + 1]) == PendingIds(files[..i]) + (if files[i].isConverted then {} else {files[i].id})
    ensures PendingCount(files[..i + 1]) == PendingCount(files[..i]) + (if files[i].isConverted then 0 else 1)
  {
    assert files[..i + 1][..i] == files[..i];
  }

  /** The convert button is disabled while processing or once every file is converted. */
  function ConvertDisabled(files: seq<DocFile>, isProcessing: bool): (r: bool)
    ensures r <==> isProcessing || PendingCount(files) == 0
  {
    PendingCountZero(files);
    isProcessing || AllConverted(files)
  }

  // ---------------------------------------------------------------------------
  // The state updates of one tick

  /** `prevFiles.map(f => f.id === id ? { ...f, progress: p } : f)`. */
  function WithProgress(files: seq<DocFile>, id: string, p: nat): (r: seq<DocFile>)
    ensures |r| == |files|
    ensures forall k :: 0 <= k < |r| ==> r[k] == (if files[k].id == id then files[k].(progress := p) else files[k])
  {
    seq(|files|, k requires 0 <= k < |files| => if files[k].id == id then files[k].(progress := p) else files[k])
  }

  /** `prevFiles.map(f => f.id === id ? { ...f, isConverted: true } : f)`. */
  function MarkConverted(files: seq<DocFile>, id: string): (r: seq<DocFile>)
    ensures |r| == |files|
    ensures forall k :: 0 <= k < |r| ==> r[k] == (if files[k].id == id then files[k].(isConverted := true) else files[k])
  {
    seq(|files|, k requires 0 <= k < |files| => if files[k].id == id then files[k].(isConverted := true) else files[k])
  }

  // ---------------------------------------------------------------------------
  // The end state of a conversion run

  /** A finished entry: full bar, marked converted. */
  function Finished(f: DocFile): DocFile
  {
    f.(progress := Full, isConverted := true)
  }

  /** The ids of the files of `done` that were not converted when the run started; every
      entry carrying one of them is driven to `Finished`. */
  function PendingIds(done: seq<DocFile>): set<string>
  {
    if done == [] then {}
    else PendingIds(done[..|done| - 1])
         + (if done[|done| - 1].isConverted then {} else {done[|done| - 1].id})
  }

  lemma {:induction false} PendingIdsHas(done: seq<DocFile>, k: nat)
    requires k < |done| && !done[k].isConverted
    ensures done[k].id in PendingIds(done)
  {
    if k < |done| - 1 {
      PendingIdsHas(done[..|done| - 1], k);
    }
  }

  /** Each entry of `files` finished when its id is in `ids`, unchanged otherwise. */
  function FinishedBy(files: seq<DocFile>, ids: set<string>): (r: seq<DocFile>)
    ensures |r| == |files|
    ensures forall k :: 0 <= k < |r| ==> r[k] == (if files[k].id in ids then Finished(files[k]) else files[k])
  {
    seq(|files|, k requires 0 <= k < |files| => if files[k].id in ids then Finished(files[k]) else files[k])
  }

  /** The list once a run over `files` has settled. */
  function Settled(files: seq<DocFile>): seq<DocFile>
  {
    FinishedBy(files, PendingIds(files))
  }

  /** One file's interval, from its first tick to its `clearInterval`, finishes every entry
      with its id and leaves the others alone. */
  lemma FinishOne(files: seq<DocFile>, ids: set<string>, id: string)
    ensures MarkConverted(WithProgress(FinishedBy(files, ids), id, Full), id) == FinishedBy(files, ids + {id})
  {
  }

  /** Another tick overwrites the progress the previous tick stored. */
  lemma ProgressOverwrites(files: seq<DocFile>, id: string, p: nat, q: nat)
    ensures WithProgress(WithProgress(files, id, p), id, q) == WithProgress(files, id, q)
  {
  }

  /** After a run every file is converted, so nothing is pending and the button is disabled. */
  lemma SettledAllConverted(files: seq<DocFile>)
    ensures AllConverted(Settled(files))
    ensures PendingCount(Settled(files)) == 0
    ensures ConvertDisabled(Settled(files), false)
  {
    var r := Settled(files);
    forall k | 0 <= k < |r| ensures r[k].isConverted {
      if !files[k].isConverted {
        PendingIdsHas(files, k);
      }
    }
    PendingCountZero(r);
  }

  predicate DistinctIds(files: seq<DocFile>)
  {
    forall i, j :: 0 <= i < j < |files| ==> files[i].id != files[j].id
  }

  lemma {:induction false} PendingIdsOutside(done: seq<DocFile>, id: string)
    requires forall j :: 0 <= j < |done| && !done[j].isConverted ==> done[j].id != id
    ensures id !in PendingIds(done)
  {
    if done != [] {
      PendingIdsOutside(done[..|done| - 1], id);
    }
  }

  /** With distinct ids a run finishes exactly the files that were pending: converted files
      keep their entries, and every other file ends at 100 and converted. */
  lemma SettledWithDistinctIds(files: seq<DocFile>)
    requires DistinctIds(files)
    ensures forall k :: 0 <= k < |files| ==>
      Settled(files)[k] == (if files[k].isConverted then files[k] else Finished(files[k]))
  {
    forall k | 0 <= k < |files|
      ensures Settled(files)[k] == (if files[k].isConverted then files[k] else Finished(files[k]))
    {
      if files[k].isConverted {
        forall j | 0 <= j < |files| && !files[j].isConverted ensures files[j].id != files[k].id {
          if j < k { assert files[j].id != files[k].id; } else { assert files[k].id != files[j].id; }
        }
        PendingIdsOutside(files, files[k].id);
      } else {
        PendingIdsHas(files, k);
      }
    }
  }

  // ---------------------------------------------------------------------------
  // Download

  /** `fileName.replace('.docx', '.pdf').replace('.doc', '.pdf')` as written. */
  function DownloadNameAsWritten(fileName: string): string
  {
    ReplaceFirst(ReplaceFirst(fileName, ".docx", ".pdf"), ".doc", ".pdf")
  }

  /** The first replacement finds the real extension: in `a.doc<b>.docx` the only dots are
      the one before `doc` and the one before `docx`, and `b` does not begin with `x`. */
  lemma {:induction false} DocxReplacedFirst(a: string, b: string)
    requires '.' !in a && '.' !in b && (b == [] || b[0] != 'x')
    ensures ReplaceFirst(a + ".doc" + b + ".docx", ".docx", ".pdf") == a + ".doc" + b + ".pdf"
  {
    var s := a + ".doc" + b + ".docx";
    var j := |a| + 4 + |b|;
    forall k | 0 <= k < j ensures !OccursAt(s, ".docx", k) {
      assert s[k..k + 5][0] == s[k] && s[k..k + 5][4] == s[k + 4];
      if k < |a| {
        assert s[k] == a[k];
      } else if k == |a| {
        assert s[k + 4] == (if b == [] then '.' else b[0]);
      } else if k < |a| + 4 {
        assert s[k] == ".doc"[k - |a|];
      } else {
        assert s[k] == b[k - |a| - 4];
      }
    }
    assert s[j..j + 5] == ".docx";
    IndexOfFirst(s, ".docx", j);
    assert s[..j] == a + ".doc" + b;
    assert s[j + 5..] == [];
  }

  /** The second replacement finds the first `.doc`, here the one right after the dotless `a`. */
  lemma {:induction false} DocReplacedSecond(a: string, c: string)
    requires '.' !in a
    ensures ReplaceFirst(a + ".doc" + c, ".doc", ".pdf") == a + ".pdf" + c
  {
    var t := a + ".doc" + c;
    forall k | 0 <= k < |a| ensures !OccursAt(t, ".doc", k) {
      assert t[k..k + 4][0] == t[k] && t[k] == a[k];
    }
    assert t[|a|..|a| + 4] == ".doc";
    IndexOfFirst(t, ".doc", |a|);
    assert t[..|a|] == a;
    assert t[|a| + 4..] == c;
  }

  /** With no dot but the one before `doc`, and no `x` right after `doc`, there is no `.docx`. */
  lemma {:induction false} NoDocx(a: string, b: string)
    requires '.' !in a && '.' !in b && (b == [] || b[0] != 'x')
    ensures IndexOf(a + ".doc" + b, ".docx") == -1
  {
    var s := a + ".doc" + b;
    forall k | 0 <= k ensures !OccursAt(s, ".docx", k) {
      if k + 5 <= |s| {
        assert s[k..k + 5][0] == s[k] && s[k..k + 5][4] == s[k + 4];
        if k < |a| {
          assert s[k] == a[k];
        } else if k == |a| {
          assert s[k + 4] == b[0];
        } else if k < |a| + 4 {
          assert s[k] == ".doc"[k - |a|];
        } else {
          assert s[k] == b[k - |a| - 4];
        }
      }
    }
  }

  /** A name with `.doc` inside but no Word extension is still renamed as written:
      `a.doc<b>` is offered as `a.pdf<b>`, so `notes.document` becomes `notes.pdfument`,
      where the corrected rule leaves it alone. */
  lemma DownloadNameAsWrittenRewritesOther(a: string, b: string)
    requires '.' !in a && '.' !in b && b != [] && b[0] != 'x'
    ensures DownloadNameAsWritten(a + ".doc" + b) == a + ".pdf" + b
    ensures DownloadName(a + ".doc" + b) == a + ".doc" + b
  {
    NoDocx(a, b);
    DocReplacedSecond(a, b);
    var s := a + ".doc" + b;
    var n := |s|;
    assert s[n - 4] != '.' by {
      if |b| >= 4 { assert s[n - 4] == b[|b| - 4]; } else { assert s[n - 4] == ".doc"[|b|]; }
    }
    assert !EndsWith(s, ".doc") by { assert n >= 4 ==> s[n - 4..][0] == s[n - 4]; }
    if |b| == 1 {
      assert !EndsWith(s, ".docx") by { assert s[n - 5..][4] == s[n - 1] == b[0]; }
    } else {
      assert s[n - 5] != '.' by {
        if |b| >= 5 { assert s[n - 5] == b[|b| - 5]; } else { assert s[n - 5] == ".doc"[|b| - 1]; }
      }
      assert !EndsWith(s, ".docx") by { assert n >= 5 ==> s[n - 5..][0] == s[n - 5]; }
    }
  }

  /** A `.doc` inside the stem is rewritten too: `a.doc<b>.docx` is offered as `a.pdf<b>.pdf`,
      so `my.document.docx` becomes `my.pdfument.pdf`. */
  lemma DownloadNameAsWrittenRewritesStem(a: string, b: string)
    requires '.' !in a && '.' !in b && (b == [] || b[0] != 'x')
    ensures DownloadNameAsWritten(a + ".doc" + b + ".docx") == a + ".pdf" + b + ".pdf"
    ensures a + ".pdf" + b + ".pdf" != a + ".doc" + b + ".pdf"
  {
    DocxReplacedFirst(a, b);
    DocReplacedSecond(a, b + ".pdf");
    assert a + ".doc" + b + ".pdf" == a + ".doc" + (b + ".pdf");
    assert a + ".pdf" + b + ".pdf" == a + ".pdf" + (b + ".pdf");
    assert (a + ".pdf" + b + ".pdf")[|a| + 1] == 'p';
    assert (a + ".doc" + b + ".pdf")[|a| + 1] == 'd';
  }

  /** The download name: the file's `.docx` or `.doc` extension becomes `.pdf`, and only that. */
  function DownloadName(fileName: string): (r: string)
    ensures !EndsWith(fileName, ".docx") && !EndsWith(fileName, ".doc") ==> r == fileName
  {
    if EndsWith(fileName, ".docx") then fileName[..|fileName| - 5] + ".pdf"
    else if EndsWith(fileName, ".doc") then fileName[..|fileName| - 4] + ".pdf"
    else fileName
  }

  /** Whatever the stem holds, a Word name is offered under the same stem with `.pdf`. */
  lemma DownloadNameOf(stem: string)
    ensures DownloadName(stem + ".docx") == stem + ".pdf"
    ensures DownloadName(stem + ".doc") == stem + ".pdf"
  {
    var x := stem + ".docx";
    assert x[|x| - 5..] == ".docx";
    assert x[..|x| - 5] == stem;
    var d := stem + ".doc";
    assert d[|d| - 4..] == ".doc";
    assert d[|d| - 1] == 'c';
    assert d[..|d| - 4] == stem;
  }

  // ---------------------------------------------------------------------------
  // The screen

  class ConverterApp {
    var pickedFiles: seq<DocFile>
    var isProcessing: bool

    constructor ()
      ensures pickedFiles == [] && !isProcessing
    {
      pickedFiles := [];
      isProcessing := false;
    }

    /** `pickDocument`: ignored while processing; otherwise the picked assets (one random
        suffix each) are appended after the existing files. A cancelled or failed pick is
        `canceled`. */
    method PickDocument(canceled: bool, names: seq<string>, randoms: seq<string>)
      requires |randoms| == |names|
      modifies this`pickedFiles
      ensures old(isProcessing) || canceled ==> pickedFiles == old(pickedFiles)
      ensures !old(isProcessing) && !canceled ==> pickedFiles == old(pickedFiles) + NewFiles(names, randoms)
    {
      if isProcessing {
        return;
      }
      if !canceled {
        pickedFiles := pickedFiles + NewFiles(names, randoms);
      }
    }

    /** The `setInterval` one unconverted file gets: each tick adds 20 to its local progress
        and stores `Math.min(progress, 100)` on every entry with the file's id; the tick that
        reaches 100 clears the interval, counts the file, marks its entries converted, and
        clears `isProcessing` when the count reaches `total`. */
    method RunInterval(id: string, total: nat, countBefore: nat) returns (convertedCount: nat, ticks: nat)
      modifies this
      ensures pickedFiles == MarkConverted(WithProgress(old(pickedFiles), id, Full), id)
      ensures convertedCount == countBefore + 1
      ensures isProcessing == (old(isProcessing) && convertedCount != total)
      ensures ticks == 5
    {
      var before := pickedFiles;
      var progress := 0;
      var cleared := false;
      convertedCount := countBefore;
      ticks := 0;
      while !cleared
        invariant progress % Step == 0 && progress <= Full
        invariant cleared <==> progress == Full
        invariant ticks == progress / Step
        invariant !cleared ==> convertedCount == countBefore && isProcessing == old(isProcessing)
        invariant !cleared && progress == 0 ==> pickedFiles == before
        invariant !cleared && progress > 0 ==> pickedFiles == WithProgress(before, id, progress)
        invariant cleared ==> convertedCount == countBefore + 1
        invariant cleared ==> isProcessing == (old(isProcessing) && convertedCount != total)
        invariant cleared ==> pickedFiles == MarkConverted(WithProgress(before, id, Full), id)
        decreases Full - progress
      {
        progress := progress + Step;
        if progress > Step {
          ProgressOverwrites(before, id, progress - Step, Min(progress, Full));
        }
        pickedFiles := WithProgress(pickedFiles, id, Min(progress, Full));
        ticks := ticks + 1;
        if progress >= Full {
          cleared := true;
          convertedCount := convertedCount + 1;
          pickedFiles := MarkConverted(pickedFiles, id);
          if convertedCount == total {
            isProcessing := false;
          }
        }
      }
    }

    /** `convertFiles`: ignored when the list is empty or a run is under way. Otherwise each
        file of the list as it was when the run started is visited in order: a converted one is
        only counted, any other runs its interval. The last count clears `isProcessing`.
        `ticks` is the number of interval ticks the run took. */
    method ConvertFiles() returns (ticks: nat)
      modifies this
      ensures old(|pickedFiles| == 0 || isProcessing) ==>
        pickedFiles == old(pickedFiles) && isProcessing == old(isProcessing) && ticks == 0
      ensures !old(|pickedFiles| == 0 || isProcessing) ==>
        pickedFiles == Settled(old(pickedFiles)) && !isProcessing &&
        ticks == 5 * PendingCount(old(pickedFiles))
    {
      ticks := 0;
      if |pickedFiles| == 0 || isProcessing {
        return;
      }
      isProcessing := true;
      var convertedCount := 0;
      var snapshot := pickedFiles;
      var n := |snapshot|;
      var i := 0;
      while i < n
        invariant 0 <= i <= n == |snapshot|
        invariant convertedCount == i
        invariant isProcessing <==> i < n
        invariant pickedFiles == FinishedBy(snapshot, PendingIds(snapshot[..i]))
        invariant ticks == 5 * PendingCount(snapshot[..i])
      {
        var file := snapshot[i];
        PrefixStep(snapshot, i);
        if file.isConverted {
          convertedCount := convertedCount + 1;
          if convertedCount == n {
            isProcessing := false;
          }
        } else {
          var ids := PendingIds(snapshot[..i]);
          var fileTicks;
          FinishOne(snapshot, ids, file.id);
          convertedCount, fileTicks := RunInterval(file.id, n, convertedCount);
          ticks := ticks + fileTicks;
        }
        i := i + 1;
      }
      assert snapshot[..n] == snapshot;
    }
  }
}
