/**
 * The batch converter from `.doc` to `.docx`: the work queue `main` fills,
 * the effects of `process_file` in their order, and one worker's loop.
 *
 * Word is an external engine: each of its calls either returns or raises,
 * and which one happens for a file is given as data (`StepResults`). The
 * file system is a set of existing paths.
 */
module Conversion {
  import opened Text
  import opened Progress
  import opened Discovery

  const SourceExt := ".doc"
  const TargetExt := ".docx"
  /** Word's `wdFormatXMLDocument`, the format `SaveAs` is asked for. */
  const WdFormatXmlDocument := 12
  const NumThreads := 4

  /** `doc_path + "x"`: the converted file sits next to the original. */
  function TargetPath(docPath: string): string {
    docPath + "x"
  }

  /**
   * The target differs from the source; distinct sources have distinct
   * targets; and a `.doc` candidate's target is a `.docx` name, which the
   * converter itself never picks up again.
   */
  lemma TargetPathSpec(docPath: string, other: string)
    ensures TargetPath(docPath) != docPath
    ensures TargetPath(docPath) == TargetPath(other) ==> docPath == other
    ensures EndsWith(Lower(docPath), SourceExt) ==> EndsWith(Lower(TargetPath(docPath)), TargetExt)
    ensures !EndsWith(Lower(TargetPath(docPath)), SourceExt)
  {
    var t := TargetPath(docPath);
    assert |t| != |docPath|;
    if TargetPath(docPath) == TargetPath(other) {
      assert docPath == t[..|t| - 1] == other;
    }
    LowerSpec(t);
    LowerSpec(docPath);
    assert Lower(t) == Lower(docPath) + "x";
    assert Lower(t)[|Lower(t)| - 1] == 'x';
  }

  /** Whether each external step returns normally for one file. */
  datatype StepResults = StepResults(open: bool, saveAs: bool, close: bool, remove: bool)

  /** The effects `process_file` attempts, in the order it attempts them. */
  datatype Call =
    | Open(path: string)                     // `word_app.Documents.Open(doc_path)`
    | SaveAs(path: string, format: int)      // `doc.SaveAs(docx_path, FileFormat=...)`
    | Close                                  // `doc.Close()`
    | Remove(path: string)                   // `os.remove(doc_path)`
    | MarkProcessed(path: string)            // `mark_as_processed(doc_path)`
    | CloseDiscarding                        // `doc.Close(SaveChanges=False)` in the handler

  /** The step that raised, if any. Opening a path that does not exist fails. */
  datatype Stage = OpenStage | SaveAsStage | CloseStage | RemoveStage

  function FailedStage(present: bool, r: StepResults): Option<Stage> {
    if !(present && r.open) then Some(OpenStage)
    else if !r.saveAs then Some(SaveAsStage)
    else if !r.close then Some(CloseStage)
    else if !r.remove then Some(RemoveStage)
    else None
  }

  /** The effects of converting `docPath`, given whether it exists and how each step ends. */
  function Calls(docPath: string, present: bool, r: StepResults): seq<Call> {
    var steps := [Open(docPath), SaveAs(TargetPath(docPath), WdFormatXmlDocument), Close, Remove(docPath)];
    match FailedStage(present, r)
    case None => steps + [MarkProcessed(docPath)]
    case Some(OpenStage) => steps[..1]
    case Some(SaveAsStage) => steps[..2] + [CloseDiscarding]
    case Some(CloseStage) => steps[..3] + [CloseDiscarding]
    case Some(RemoveStage) => steps[..4]
  }

  /**
   * The original is removed only after Open, SaveAs and Close, in that
   * order, each returned; the path is marked only as the last effect, after
   * the removal returned.
   */
  lemma RemoveOnlyAfterConversion(docPath: string, present: bool, r: StepResults)
    ensures var cs := Calls(docPath, present, r);
      Remove(docPath) in cs ==>
        && cs[..4] == [Open(docPath), SaveAs(TargetPath(docPath), WdFormatXmlDocument), Close, Remove(docPath)]
        && present && r.open && r.saveAs && r.close
    ensures var cs := Calls(docPath, present, r);
      MarkProcessed(docPath) in cs <==> FailedStage(present, r) == None
    ensures var cs := Calls(docPath, present, r);
      MarkProcessed(docPath) in cs ==> cs[|cs| - 1] == MarkProcessed(docPath) && cs[|cs| - 2] == Remove(docPath)
  {
    var cs := Calls(docPath, present, r);
    var steps := [Open(docPath), SaveAs(TargetPath(docPath), WdFormatXmlDocument), Close, Remove(docPath)];
    assert steps[..1] == [Open(docPath)];
    assert steps[..2] == [Open(docPath), SaveAs(TargetPath(docPath), WdFormatXmlDocument)];
    assert steps[..3] == [Open(docPath), SaveAs(TargetPath(docPath), WdFormatXmlDocument), Close];
    assert steps[..4] == steps;
  }

  /**
   * On failure the path is not marked, and the document is closed without
   * saving exactly when it was open: when SaveAs or Close raised.
   */
  lemma FailureClosesOpenDocument(docPath: string, present: bool, r: StepResults)
    requires FailedStage(present, r).Some?
    ensures MarkProcessed(docPath) !in Calls(docPath, present, r)
    ensures CloseDiscarding in Calls(docPath, present, r) <==> FailedStage(present, r).value in {SaveAsStage, CloseStage}
  {
    var steps := [Open(docPath), SaveAs(TargetPath(docPath), WdFormatXmlDocument), Close, Remove(docPath)];
    assert steps[..1] == [Open(docPath)];
    assert steps[..2] == [Open(docPath), SaveAs(TargetPath(docPath), WdFormatXmlDocument)];
    assert steps[..3] == [Open(docPath), SaveAs(TargetPath(docPath), WdFormatXmlDocument), Close];
    assert steps[..4] == steps;
  }

  /** The existing paths. */
  class FileSystem {
    var files: set<string>

    constructor (files: set<string>)
      ensures this.files == files
    {
      this.files := files;
    }
  }

  /** The files after converting `docPath`: the target appears once SaveAs returned, the original goes once removal returned. */
  function FilesAfter(files: set<string>, docPath: string, r: StepResults): set<string> {
    var failed := FailedStage(docPath in files, r);
    var saved := failed == None || failed == Some(CloseStage) || failed == Some(RemoveStage);
    (if saved then files + {TargetPath(docPath)} else files) - (if failed == None then {docPath} else {})
  }

  /**
   * Whatever fails, the original or a file at its target path exists
   * afterwards, and every path other than these two keeps its state. Files
   * are paths only: a target that `SaveAs` overwrites shows as present both
   * before and after.
   */
  lemma OriginalOrTargetSurvives(files: set<string>, docPath: string, r: StepResults)
    ensures docPath in files ==> docPath in FilesAfter(files, docPath, r) || TargetPath(docPath) in FilesAfter(files, docPath, r)
    ensures FailedStage(docPath in files, r) == None ==>
      docPath !in FilesAfter(files, docPath, r) && TargetPath(docPath) in FilesAfter(files, docPath, r)
    ensures FailedStage(docPath in files, r).Some? ==> (docPath in FilesAfter(files, docPath, r) <==> docPath in files)
    ensures forall x :: x != docPath && x != TargetPath(docPath) ==> (x in FilesAfter(files, docPath, r) <==> x in files)
  {
    TargetPathSpec(docPath, docPath);
  }

  /**
   * `process_file(word_app, doc_path)`: open, save as `.docx`, close,
   * remove the original, mark it processed. A step that raises skips the
   * rest; the handler closes the document without saving if it is still
   * open and re-raises, which here is a false `converted`.
   */
  method ProcessFile(fs: FileSystem, ledger: Ledger, docPath: string, r: StepResults, appendSucceeds: bool)
    returns (converted: bool, calls: seq<Call>)
    modifies fs, ledger
    ensures calls == Calls(docPath, docPath in old(fs.files), r)
    ensures converted <==> FailedStage(docPath in old(fs.files), r) == None
    ensures fs.files == FilesAfter(old(fs.files), docPath, r)
    ensures converted ==> (
      && ledger.processed == old(ledger.processed) + {docPath}
      && ledger.log == if appendSucceeds then Some(Contents(old(ledger.log)) + docPath + "\n") else old(ledger.log))
    ensures !converted ==> ledger.processed == old(ledger.processed) && ledger.log == old(ledger.log)
  {
    var docxPath := TargetPath(docPath);
    var docIsOpen := false;
    var failed := true;
    calls := [Open(docPath)];
    if docPath in fs.files && r.open {
      docIsOpen := true;
      calls := calls + [SaveAs(docxPath, WdFormatXmlDocument)];
      if r.saveAs {
        fs.files := fs.files + {docxPath};
        calls := calls + [Close];
        if r.close {
          docIsOpen := false;
          calls := calls + [Remove(docPath)];
          if r.remove {
            fs.files := fs.files - {docPath};
            calls := calls + [MarkProcessed(docPath)];
            ledger.Mark(docPath, appendSucceeds);
            failed := false;
          }
        }
      }
    }
    if failed && docIsOpen {
      calls := calls + [CloseDiscarding];
    }
    converted := !failed;
  }

  /** What one `q.get(timeout=3)` gives: nothing within the timeout, or the item at the front. */
  datatype Dequeued = TimedOut | Got(item: Option<string>)

  /** `queue.Queue` with its count of unfinished tasks. */
  class TaskQueue {
    /** The items waiting, front first; None is a sentinel. */
    var items: seq<Option<string>>
    /** Items put and not yet matched by `task_done`. */
    var unfinished: nat

    /** Every waiting item is unfinished. */
    predicate Valid()
      reads this
    {
      |items| <= unfinished
    }

    constructor ()
      ensures items == [] && unfinished == 0 && Valid()
    {
      items := [];
      unfinished := 0;
    }

    /** `q.put(x)` */
    method Put(x: Option<string>)
      requires Valid()
      modifies this
      ensures items == old(items) + [x] && unfinished == old(unfinished) + 1 && Valid()
    {
      items := items + [x];
      unfinished := unfinished + 1;
    }

    /**
     * `q.get(timeout=3)`: the front item, or a timeout when the queue is
     * empty or, with other workers present, when `timesOut` says so.
     */
    method Get(timesOut: bool) returns (d: Dequeued)
      requires Valid()
      modifies this
      ensures if timesOut || old(items) == [] then d == TimedOut && items == old(items)
        else d == Got(old(items)[0]) && items == old(items)[1..]
      ensures unfinished == old(unfinished) && Valid()
    {
      if timesOut || items == [] {
        d := TimedOut;
      } else {
        d := Got(items[0]);
        items := items[1..];
      }
    }

    /**
     * `q.task_done()`: one unfinished task fewer. Python raises only when it
     * is called more often than items were put; the requires is the stricter
     * condition the worker meets: some item has been taken and not yet
     * marked done.
     */
    method TaskDone()
      requires unfinished > |items|
      modifies this
      ensures items == old(items) && unfinished == old(unfinished) - 1 && Valid()
    {
      unfinished := unfinished - 1;
    }
  }

  /** The queue `main` fills: every candidate in order, then one sentinel per worker. */
  function QueueOf(files: seq<string>): (q: seq<Option<string>>)
    ensures |q| == |files| + NumThreads
    ensures forall k :: 0 <= k < |files| ==> q[k] == Some(files[k])
    ensures forall k :: |files| <= k < |q| ==> q[k] == None
  {
    if files == [] then seq(NumThreads, _ => None)
    else [Some(files[0])] + QueueOf(files[1..])
  }

  /** `main`'s two loops of `task_queue.put`. */
  method FillQueue(q: TaskQueue, files: seq<string>)
    requires q.Valid()
    modifies q
    ensures q.items == old(q.items) + QueueOf(files)
    ensures q.unfinished == old(q.unfinished) + |files| + NumThreads && q.Valid()
  {
    ghost var start := q.items;
    var i := 0;
    while i < |files|
      invariant 0 <= i <= |files|
      invariant q.items == start + QueueOf(files)[..i]
      invariant q.unfinished == old(q.unfinished) + i && q.Valid()
    {
      assert QueueOf(files)[..i + 1] == QueueOf(files)[..i] + [Some(files[i])];
      q.Put(Some(files[i]));
      i := i + 1;
    }
    var n := 0;
    while n < NumThreads
      invariant 0 <= n <= NumThreads
      invariant q.items == start + QueueOf(files)[..|files| + n]
      invariant q.unfinished == old(q.unfinished) + |files| + n && q.Valid()
    {
      assert QueueOf(files)[..|files| + n + 1] == QueueOf(files)[..|files| + n] + [None];
      q.Put(None);
      n := n + 1;
    }
    assert QueueOf(files)[..|files| + NumThreads] == QueueOf(files);
  }

  /**
   * `main` up to starting the workers: load the ledger, discover the
   * candidates, and return early when there are none; otherwise a fresh
   * queue holds the candidates and the sentinels.
   */
  method Prepare(ledger: Ledger, walk: seq<WalkStep>, fullPath: (string, string) -> string, readFailure: Option<nat>)
    returns (filesToProcess: seq<string>, q: TaskQueue?)
    modifies ledger
    ensures ledger.log == old(ledger.log)
    ensures ledger.processed == Loaded(old(ledger.processed), ledger.log, readFailure)
    ensures filesToProcess == Candidates(Entries(walk), SourceExt, ledger.processed, fullPath)
    ensures filesToProcess == [] <==> q == null
    ensures q != null ==> fresh(q) && q.items == QueueOf(filesToProcess) && q.unfinished == |q.items| && q.Valid()
  {
    ledger.Load(readFailure);
    filesToProcess := Discover(walk, SourceExt, ledger.processed, fullPath);
    if |filesToProcess| == 0 {
      q := null;
      return;
    }
    q := new TaskQueue();
    FillQueue(q, filesToProcess);
  }

  /**
   * What one worker takes from `items`, given for each `get` whether it
   * times out: items in order, up to and including the first sentinel.
   */
  function Take(items: seq<Option<string>>, timeouts: seq<bool>): seq<Option<string>>
    decreases |timeouts|
  {
    if timeouts == [] then []
    else if timeouts[0] || items == [] then Take(items, timeouts[1..])
    else if items[0] == None then [None]
    else [items[0]] + Take(items[1..], timeouts[1..])
  }

  /** The `get` number `t` and what it contributes. */
  lemma TakeStep(items: seq<Option<string>>, timeouts: seq<bool>, t: nat)
    requires t < |timeouts|
    ensures Take(items, timeouts[t..]) ==
      if timeouts[t] || items == [] then Take(items, timeouts[t + 1..])
      else if items[0] == None then [None]
      else [items[0]] + Take(items[1..], timeouts[t + 1..])
  {
    assert timeouts[t..][0] == timeouts[t] && timeouts[t..][1..] == timeouts[t + 1..];
  }

  /** What is taken is a prefix of the queue, and a sentinel can only be the last thing taken. */
  lemma {:induction false} TakeSpec(items: seq<Option<string>>, timeouts: seq<bool>)
    ensures Take(items, timeouts) <= items
    ensures forall k :: 0 <= k < |Take(items, timeouts)| - 1 ==> Take(items, timeouts)[k].Some?
    decreases |timeouts|
  {
    if timeouts != [] {
      if timeouts[0] || items == [] {
        TakeSpec(items, timeouts[1..]);
      } else if items[0] != None {
        var rest := Take(items[1..], timeouts[1..]);
        TakeSpec(items[1..], timeouts[1..]);
        var r := [items[0]] + rest;
        assert Take(items, timeouts) == r;
        assert items == [items[0]] + items[1..];
        forall k | 1 <= k < |r| - 1 ensures r[k].Some? {
          assert r[k] == rest[k - 1];
        }
      }
    }
  }

  /** A worker that is never timed out takes every candidate of `main`'s queue and then one sentinel. */
  lemma {:induction false} TakeQueue(files: seq<string>, timeouts: seq<bool>)
    requires |timeouts| > |files|
    requires forall k :: 0 <= k < |timeouts| ==> !timeouts[k]
    ensures Take(QueueOf(files), timeouts) == QueueOf(files)[..|files| + 1]
    decreases |files|
  {
    var q := QueueOf(files);
    assert !timeouts[0];
    if files == [] {
      assert q[..1] == [None];
    } else {
      assert q == [Some(files[0])] + QueueOf(files[1..]);
      forall k | 0 <= k < |timeouts[1..]| ensures !timeouts[1..][k] {
        assert timeouts[1..][k] == timeouts[k + 1];
      }
      TakeQueue(files[1..], timeouts[1..]);
      assert q[..|files| + 1] == [Some(files[0])] + QueueOf(files[1..])[..|files[1..]| + 1];
    }
  }

  /** The files an item sequence names. */
  function Named(items: seq<Option<string>>): set<string> {
    set k | 0 <= k < |items| && items[k].Some? :: items[k].value
  }

  lemma ShiftFront(taken: seq<Option<string>>, x: Option<string>, rest: seq<Option<string>>)
    ensures taken + [x] + rest == taken + ([x] + rest)
  {
  }

  lemma NamedSnoc(items: seq<Option<string>>, x: Option<string>)
    ensures Named(items + [x]) == Named(items) + (if x.Some? then {x.value} else {})
  {
    var ys := items + [x];
    forall p | p in Named(ys) ensures p in Named(items) + (if x.Some? then {x.value} else {}) {
      var k :| 0 <= k < |ys| && ys[k].Some? && ys[k].value == p;
      if k < |items| {
        assert items[k] == ys[k];
      }
    }
    forall p | p in Named(items) ensures p in Named(ys) {
      var k :| 0 <= k < |items| && items[k].Some? && items[k].value == p;
      assert ys[k] == items[k];
    }
    if x.Some? {
      assert ys[|items|] == x;
    }
  }

  /**
   * The worker's `process_file` call on a path it has just taken: the path
   * joins the converted ones exactly when the conversion went through, the
   * files change as `FilesAfter` says, the ledger text grows by the path's
   * line when it converted and the append succeeded, and the ledger set
   * holds what it held plus the converted paths.
   */
  method Convert(fs: FileSystem, ledger: Ledger, path: string, r: StepResults, appendSucceeds: bool,
                 converted: seq<string>, ghost taken: seq<Option<string>>, ghost p0: set<string>)
    returns (next: seq<string>)
    requires ledger.processed == p0 + (set c | c in converted)
    requires forall c :: c in converted ==> c in Named(taken)
    modifies fs, ledger
    ensures next == if FailedStage(path in old(fs.files), r) == None then converted + [path] else converted
    ensures fs.files == FilesAfter(old(fs.files), path, r)
    ensures ledger.log ==
      if FailedStage(path in old(fs.files), r) == None && appendSucceeds then Some(Contents(old(ledger.log)) + path + "\n")
      else old(ledger.log)
    ensures ledger.processed == p0 + (set c | c in next)
    ensures forall c :: c in next ==> c in Named(taken + [Some(path)])
  {
    NamedSnoc(taken, Some(path));
    var ok, _ := ProcessFile(fs, ledger, path, r, appendSucceeds);
    next := if ok then converted + [path] else converted;
  }

  /**
   * `worker(q)`, one thread on its own: start Word, or give up with the
   * queue untouched; then take items until the first sentinel, converting
   * each file and going on after a failed one, with one `task_done` per
   * item taken, the sentinel included. `timeouts` says for each `get`
   * whether it times out; the loop ends when the sentinel is taken or the
   * `get`s run out.
   */
  method Worker(q: TaskQueue, fs: FileSystem, ledger: Ledger, engineStarts: bool, timeouts: seq<bool>,
                engine: string -> StepResults, appendSucceeds: string -> bool)
    returns (taken: seq<Option<string>>, converted: seq<string>)
    requires q.Valid()
    modifies q, fs, ledger
    ensures taken == (if engineStarts then Take(old(q.items), timeouts) else [])
    ensures old(q.items) == taken + q.items
    ensures q.unfinished == old(q.unfinished) - |taken| && q.Valid()
    ensures ledger.processed == old(ledger.processed) + (set c | c in converted)
    ensures forall c :: c in converted ==> c in Named(taken)
  {
    taken, converted := [], [];
    if !engineStarts {
      return;
    }
    var t := 0;
    while t < |timeouts|
      invariant 0 <= t <= |timeouts|
      invariant old(q.items) == taken + q.items
      invariant taken + Take(q.items, timeouts[t..]) == Take(old(q.items), timeouts)
      invariant forall k :: 0 <= k < |taken| ==> taken[k].Some?
      invariant q.unfinished == old(q.unfinished) - |taken| && q.Valid()
      invariant ledger.processed == old(ledger.processed) + (set c | c in converted)
      invariant forall c :: c in converted ==> c in Named(taken)
    {
      ghost var before := q.items;
      TakeStep(before, timeouts, t);
      var filePath := q.Get(timeouts[t]);
      t := t + 1;
      if filePath.TimedOut? {
        continue;
      }
      assert before == [filePath.item] + q.items;
      ShiftFront(taken, filePath.item, q.items);
      if filePath.item.None? {
        q.TaskDone();
        NamedSnoc(taken, None);
        taken := taken + [None];
        break;
      }
      var path := filePath.item.value;
      ShiftFront(taken, Some(path), Take(q.items, timeouts[t..]));
      converted := Convert(fs, ledger, path, engine(path), appendSucceeds(path), converted, taken, old(ledger.processed));
      q.TaskDone();
      taken := taken + [Some(path)];
    }
    if t == |timeouts| {
      assert Take(q.items, timeouts[t..]) == [];
    }
  }
}
