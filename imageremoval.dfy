/**
 * The image remover's `process_file` and `main`: load a `.docx`, run the
 * backward scan, save only when a drawing was removed, and mark the file
 * processed on every normal completion.
 */
module ImageRemoval {
  import opened Text
  import opened WordML
  import opened Scanner
  import opened Progress
  import opened Discovery

  const SourceExt := ".docx"

  /** The documents `Document(path)` can load, each by its body element. */
  class DocumentStore {
    var bodies: map<string, Element>

    constructor (bodies: map<string, Element>)
      ensures this.bodies == bodies
    {
      this.bodies := bodies;
    }
  }

  /** How `process_file` ends: normally, having saved or not, or by an exception that is logged. */
  datatype Attempt = Completed(saved: bool) | Failed

  /**
   * The end of `process_file` on a document: loading fails when there is
   * none; otherwise it completes without saving unless a drawing was
   * removed, and it fails if saving that edit raises.
   */
  function ExpectedAttempt(bodies: map<string, Element>, path: string, saveSucceeds: bool): Attempt {
    if path !in bodies then Failed
    else if !Scan(bodies[path]).Removed? then Completed(false)
    else if saveSucceeds then Completed(true)
    else Failed
  }

  /**
   * The file is saved exactly when the scan removed a drawing; a document
   * the scan leaves alone (it ends in text, or holds no signal) is neither
   * changed nor saved.
   */
  lemma SavedIffRemoved(bodies: map<string, Element>, path: string, saveSucceeds: bool)
    ensures ExpectedAttempt(bodies, path, saveSucceeds) == Completed(true) <==>
      path in bodies && Scan(bodies[path]).Removed? && saveSucceeds
    ensures ExpectedAttempt(bodies, path, saveSucceeds).Completed? && path in bodies ==>
      (ExpectedAttempt(bodies, path, saveSucceeds).saved <==> Edited(bodies[path]) != bodies[path])
  {
    if path in bodies {
      EditRemovesOneRunChild(bodies[path]);
    }
  }

  /**
   * `process_file(file_path)`: load, scan, save if a drawing was removed,
   * mark processed. An exception while loading or saving is logged and
   * the file is not marked.
   */
  method ProcessFile(store: DocumentStore, ledger: Ledger, filePath: string, saveSucceeds: bool, appendSucceeds: bool)
    returns (attempt: Attempt)
    modifies store, ledger
    ensures attempt == ExpectedAttempt(old(store.bodies), filePath, saveSucceeds)
    ensures store.bodies == if attempt == Completed(true)
      then old(store.bodies)[filePath := Edited(old(store.bodies)[filePath])]
      else old(store.bodies)
    ensures attempt.Completed? ==> (
      && ledger.processed == old(ledger.processed) + {filePath}
      && ledger.log == if appendSucceeds then Some(Contents(old(ledger.log)) + filePath + "\n") else old(ledger.log))
    ensures attempt.Failed? ==> ledger.processed == old(ledger.processed) && ledger.log == old(ledger.log)
  {
    if filePath !in store.bodies {
      attempt := Failed;
      return;
    }
    var body := store.bodies[filePath];
    var outcome, edited := RemoveLastImage(body);
    var removed := outcome.Removed?;
    if removed {
      if !saveSucceeds {
        attempt := Failed;
        return;
      }
      store.bodies := store.bodies[filePath := edited];
    }
    ledger.Mark(filePath, appendSucceeds);
    attempt := Completed(removed);
  }

  /** The attempt depends only on the document stored at the path. */
  lemma SameDocumentSameAttempt(b1: map<string, Element>, b2: map<string, Element>, path: string, saveSucceeds: bool)
    requires path in b1 <==> path in b2
    requires path in b1 ==> b1[path] == b2[path]
    ensures ExpectedAttempt(b1, path, saveSucceeds) == ExpectedAttempt(b2, path, saveSucceeds)
  {
  }

  lemma CompletedPathsSnoc(files: seq<string>, attempts: seq<Attempt>, i: nat, attempt: Attempt)
    requires i < |files| && |attempts| == i
    ensures CompletedPaths(files[..i + 1], attempts + [attempt])
      == CompletedPaths(files[..i], attempts) + (if attempt.Completed? then {files[i]} else {})
  {
    assert files[..i + 1][..i] == files[..i];
    assert (attempts + [attempt])[..i] == attempts;
  }

  /** The attempt `process_file` makes on each of `files`, all against the same documents. */
  function ExpectedAttempts(bodies: map<string, Element>, files: seq<string>, saveSucceeds: string -> bool): (r: seq<Attempt>)
    ensures |r| == |files|
  {
    if files == [] then []
    else
      var n := |files| - 1;
      ExpectedAttempts(bodies, files[..n], saveSucceeds) + [ExpectedAttempt(bodies, files[n], saveSucceeds(files[n]))]
  }

  lemma {:induction false} ExpectedAttemptsSpec(bodies: map<string, Element>, files: seq<string>, saveSucceeds: string -> bool, i: nat)
    requires i < |files|
    ensures ExpectedAttempts(bodies, files, saveSucceeds)[i] == ExpectedAttempt(bodies, files[i], saveSucceeds(files[i]))
  {
    var n := |files| - 1;
    var front := ExpectedAttempts(bodies, files[..n], saveSucceeds);
    assert ExpectedAttempts(bodies, files, saveSucceeds) == front + [ExpectedAttempt(bodies, files[n], saveSucceeds(files[n]))];
    if i < n {
      ExpectedAttemptsSpec(bodies, files[..n], saveSucceeds, i);
      assert files[..n][i] == files[i];
    }
  }

  /** Appending one attempt keeps the first-occurrence attempts as expected. */
  lemma FirstAttemptsSnoc(files: seq<string>, attempts: seq<Attempt>, expected: seq<Attempt>, i: nat, attempt: Attempt)
    requires i < |files| == |expected| && |attempts| == i
    requires forall k :: 0 <= k < i && files[k] !in files[..k] ==> attempts[k] == expected[k]
    requires files[i] !in files[..i] ==> attempt == expected[i]
    ensures forall k :: 0 <= k < i + 1 && files[k] !in files[..k] ==> (attempts + [attempt])[k] == expected[k]
  {
  }

  /** A document other than the one just processed keeps its body. */
  lemma UntouchedSnoc(b0: map<string, Element>, b1: map<string, Element>, b2: map<string, Element>, files: seq<string>, i: nat)
    requires i < |files|
    requires b1.Keys == b0.Keys && b2.Keys == b1.Keys
    requires forall p :: p in b1 && p != files[i] ==> b2[p] == b1[p]
    requires forall p :: p in b0 && p !in files[..i] ==> b1[p] == b0[p]
    ensures forall p :: p in b0 && p !in files[..i + 1] ==> b2[p] == b0[p]
  {
    assert files[..i + 1] == files[..i] + [files[i]];
  }

  /** The body `process_file` leaves for a document, given how its attempt ended: edited only when saved. */
  function BodyAfter(body: Element, attempt: Attempt): Element {
    if attempt == Completed(true) then Edited(body) else body
  }

  /**
   * Every document met exactly once among the first `|attempts|` files holds
   * the body its attempt left, starting from the documents `b0`.
   */
  predicate OnceVisitedBodies(b0: map<string, Element>, bodies: map<string, Element>, files: seq<string>, attempts: seq<Attempt>)
    requires |attempts| <= |files|
  {
    forall k :: 0 <= k < |attempts| && files[k] in b0 && files[k] !in files[..k] && files[k] !in files[k + 1..|attempts|] ==>
      files[k] in bodies && bodies[files[k]] == BodyAfter(b0[files[k]], attempts[k])
  }

  /** Processing the next file keeps `OnceVisitedBodies`: it only touches its own document. */
  lemma OnceVisitedSnoc(b0: map<string, Element>, b1: map<string, Element>, b2: map<string, Element>,
                        files: seq<string>, attempts: seq<Attempt>, attempt: Attempt)
    requires |attempts| < |files|
    requires b1.Keys == b0.Keys && b2.Keys == b1.Keys
    requires forall p :: p in b1 && p != files[|attempts|] ==> b2[p] == b1[p]
    requires var p := files[|attempts|]; p in b0 && p !in files[..|attempts|] ==> b2[p] == BodyAfter(b0[p], attempt)
    requires OnceVisitedBodies(b0, b1, files, attempts)
    ensures OnceVisitedBodies(b0, b2, files, attempts + [attempt])
  {
    var i := |attempts|;
    var next := attempts + [attempt];
    forall k | 0 <= k < i + 1 && files[k] in b0 && files[k] !in files[..k] && files[k] !in files[k + 1..i + 1]
      ensures files[k] in b2 && b2[files[k]] == BodyAfter(b0[files[k]], next[k])
    {
      if k < i {
        OnceVisitedEarlier(b0, b1, b2, files, attempts, attempt, k);
      }
    }
  }

  /** A document met once before the next file is not that file, so it keeps its body. */
  lemma OnceVisitedEarlier(b0: map<string, Element>, b1: map<string, Element>, b2: map<string, Element>,
                           files: seq<string>, attempts: seq<Attempt>, attempt: Attempt, k: nat)
    requires k < |attempts| < |files|
    requires b1.Keys == b0.Keys && b2.Keys == b1.Keys
    requires forall p :: p in b1 && p != files[|attempts|] ==> b2[p] == b1[p]
    requires OnceVisitedBodies(b0, b1, files, attempts)
    requires files[k] in b0 && files[k] !in files[..k] && files[k] !in files[k + 1..|attempts| + 1]
    ensures files[k] in b2 && b2[files[k]] == BodyAfter(b0[files[k]], (attempts + [attempt])[k])
  {
    var i := |attempts|;
    assert files[k + 1..i + 1] == files[k + 1..i] + [files[i]];
    assert files[k] != files[i] && files[k] !in files[k + 1..i];
  }

  /** The paths whose attempt completed normally. */
  function CompletedPaths(files: seq<string>, attempts: seq<Attempt>): set<string>
    requires |files| == |attempts|
  {
    if files == [] then {}
    else
      var n := |files| - 1;
      CompletedPaths(files[..n], attempts[..n]) + (if attempts[n].Completed? then {files[n]} else {})
  }

  /** A path is there exactly when one of its attempts completed. */
  lemma {:induction false} CompletedPathsSpec(files: seq<string>, attempts: seq<Attempt>, p: string)
    requires |files| == |attempts|
    ensures p in CompletedPaths(files, attempts) <==> exists k :: 0 <= k < |files| && files[k] == p && attempts[k].Completed?
  {
    if files != [] {
      var n := |files| - 1;
      CompletedPathsSpec(files[..n], attempts[..n], p);
      assert forall k :: 0 <= k < n ==> files[..n][k] == files[k] && attempts[..n][k] == attempts[k];
    }
  }

  /** The paths whose attempt completed normally, in the order they were processed. */
  function CompletedList(files: seq<string>, attempts: seq<Attempt>): seq<string>
    requires |files| == |attempts|
  {
    if files == [] then []
    else
      var n := |files| - 1;
      CompletedList(files[..n], attempts[..n]) + (if attempts[n].Completed? then [files[n]] else [])
  }

  /** The ordered list holds exactly the completed paths. */
  lemma {:induction false} CompletedListSpec(files: seq<string>, attempts: seq<Attempt>)
    requires |files| == |attempts|
    ensures (set x | x in CompletedList(files, attempts)) == CompletedPaths(files, attempts)
  {
    if files != [] {
      var n := |files| - 1;
      CompletedListSpec(files[..n], attempts[..n]);
      var front := CompletedList(files[..n], attempts[..n]);
      var last := if attempts[n].Completed? then [files[n]] else [];
      assert CompletedList(files, attempts) == front + last;
      assert (set x | x in front + last) == (set x | x in front) + (set x | x in last);
    }
  }

  /**
   * The ledger text after the attempts: each completed attempt appends
   * `path + "\n"` when its append succeeds, creating the file if needed.
   */
  function LogAfter(log: Option<string>, files: seq<string>, attempts: seq<Attempt>, appendSucceeds: string -> bool): Option<string>
    requires |files| == |attempts|
  {
    if files == [] then log
    else
      var n := |files| - 1;
      var before := LogAfter(log, files[..n], attempts[..n], appendSucceeds);
      if attempts[n].Completed? && appendSucceeds(files[n]) then Some(Contents(before) + files[n] + "\n") else before
  }

  lemma LogAfterSnoc(log: Option<string>, files: seq<string>, attempts: seq<Attempt>, i: nat, attempt: Attempt, appendSucceeds: string -> bool)
    requires i < |files| && |attempts| == i
    ensures LogAfter(log, files[..i + 1], attempts + [attempt], appendSucceeds)
      == var before := LogAfter(log, files[..i], attempts, appendSucceeds);
         if attempt.Completed? && appendSucceeds(files[i]) then Some(Contents(before) + files[i] + "\n") else before
  {
    assert files[..i + 1][..i] == files[..i];
    assert (attempts + [attempt])[..i] == attempts;
  }

  /** When every append succeeds, the text grows by one line `path + "\n"` per completed attempt, in order. */
  lemma {:induction false} LogAfterAllAppended(log: Option<string>, files: seq<string>, attempts: seq<Attempt>, appendSucceeds: string -> bool)
    requires |files| == |attempts|
    requires forall p :: p in files ==> appendSucceeds(p)
    ensures Contents(LogAfter(log, files, attempts, appendSucceeds)) == Contents(log) + LogOf(CompletedList(files, attempts))
  {
    if files != [] {
      var n := |files| - 1;
      var fs, xs := files[..n], attempts[..n];
      assert forall p :: p in fs ==> p in files;
      LogAfterAllAppended(log, fs, xs, appendSucceeds);
      var front := CompletedList(fs, xs);
      var before := LogAfter(log, fs, xs, appendSucceeds);
      if attempts[n].Completed? {
        assert files[n] in files;
        assert LogAfter(log, files, attempts, appendSucceeds) == Some(Contents(before) + files[n] + "\n");
        assert CompletedList(files, attempts) == front + [files[n]];
        AppendLine(Contents(log), front, files[n]);
      } else {
        assert CompletedList(files, attempts) == front;
      }
    }
  }

  /** Appending one more line to a text that already holds `LogOf(front)`. */
  lemma AppendLine(prefix: string, front: seq<string>, p: string)
    ensures prefix + LogOf(front) + p + "\n" == prefix + LogOf(front + [p])
  {
    LogOfSnoc(front, p);
    assert prefix + LogOf(front) + p + "\n" == prefix + (LogOf(front) + p + "\n");
  }

  lemma LogOfSnoc(paths: seq<string>, p: string)
    ensures LogOf(paths + [p]) == LogOf(paths) + p + "\n"
  {
    assert (paths + [p])[..|paths|] == paths;
  }

  /**
   * A clean run from a missing ledger file: when every path is clean and every
   * append succeeds, the file ends with one line per completed attempt, and
   * loading it again gives exactly the completed paths.
   */
  lemma CleanRunLedger(files: seq<string>, attempts: seq<Attempt>, appendSucceeds: string -> bool)
    requires |files| == |attempts|
    requires forall p :: p in files ==> Clean(p) && appendSucceeds(p)
    ensures |Lines(Contents(LogAfter(None, files, attempts, appendSucceeds)))| == |CompletedList(files, attempts)|
    ensures Stripped(Lines(Contents(LogAfter(None, files, attempts, appendSucceeds)))) == CompletedPaths(files, attempts)
  {
    var list := CompletedList(files, attempts);
    LogAfterAllAppended(None, files, attempts, appendSucceeds);
    assert Contents(LogAfter(None, files, attempts, appendSucceeds)) == LogOf(list);
    CompletedListMembers(files, attempts);
    ReplayLedger(list);
    CompletedListSpec(files, attempts);
  }

  /** Every completed path is one of the files. */
  lemma {:induction false} CompletedListMembers(files: seq<string>, attempts: seq<Attempt>)
    requires |files| == |attempts|
    ensures forall p :: p in CompletedList(files, attempts) ==> p in files
  {
    if files != [] {
      var n := |files| - 1;
      CompletedListMembers(files[..n], attempts[..n]);
      assert forall p :: p in files[..n] ==> p in files;
    }
  }

  /**
   * `process_file` on the `i`-th candidate: when the path has not come
   * before, the attempt is the one expected on the documents of the start,
   * and only that path's document may change.
   */
  method ProcessCandidate(store: DocumentStore, ledger: Ledger, files: seq<string>, i: nat,
                          ghost b0: map<string, Element>, ghost expected: seq<Attempt>,
                          saveSucceeds: string -> bool, appendSucceeds: string -> bool)
    returns (attempt: Attempt)
    requires i < |files| && expected == ExpectedAttempts(b0, files, saveSucceeds)
    requires store.bodies.Keys == b0.Keys
    requires forall p :: p in b0 && p !in files[..i] ==> store.bodies[p] == b0[p]
    modifies store, ledger
    ensures files[i] !in files[..i] ==> attempt == expected[i]
    ensures store.bodies.Keys == b0.Keys
    ensures forall p :: p in b0 && p !in files[..i + 1] ==> store.bodies[p] == b0[p]
    ensures forall p :: p in old(store.bodies) && p != files[i] ==> store.bodies[p] == old(store.bodies)[p]
    ensures files[i] in b0 && files[i] !in files[..i] ==> store.bodies[files[i]] == BodyAfter(b0[files[i]], attempt)
    ensures ledger.processed == old(ledger.processed) + (if attempt.Completed? then {files[i]} else {})
    ensures ledger.log == if attempt.Completed? && appendSucceeds(files[i]) then Some(Contents(old(ledger.log)) + files[i] + "\n") else old(ledger.log)
  {
    var path := files[i];
    ghost var bodiesBefore := store.bodies;
    attempt := ProcessFile(store, ledger, path, saveSucceeds(path), appendSucceeds(path));
    if path !in files[..i] {
      SameDocumentSameAttempt(bodiesBefore, b0, path, saveSucceeds(path));
      ExpectedAttemptsSpec(b0, files, saveSucceeds, i);
    }
    UntouchedSnoc(b0, bodiesBefore, store.bodies, files, i);
  }

  /**
   * One call of the pool's `map`: `process_file` on the `i`-th candidate,
   * when the documents not yet visited are still those of the start. The
   * attempts so far grow by this one, and what `ProcessAll` keeps of them
   * still holds.
   */
  method ProcessNext(store: DocumentStore, ledger: Ledger, files: seq<string>, i: nat, attempts: seq<Attempt>,
                     ghost b0: map<string, Element>, ghost p0: set<string>, ghost l0: Option<string>, ghost expected: seq<Attempt>,
                     saveSucceeds: string -> bool, appendSucceeds: string -> bool)
    returns (next: seq<Attempt>)
    requires i < |files| && |attempts| == i && expected == ExpectedAttempts(b0, files, saveSucceeds)
    requires forall k :: 0 <= k < i && files[k] !in files[..k] ==> attempts[k] == expected[k]
    requires ledger.processed == p0 + CompletedPaths(files[..i], attempts)
    requires ledger.log == LogAfter(l0, files[..i], attempts, appendSucceeds)
    requires store.bodies.Keys == b0.Keys
    requires forall p :: p in b0 && p !in files[..i] ==> store.bodies[p] == b0[p]
    requires OnceVisitedBodies(b0, store.bodies, files, attempts)
    modifies store, ledger
    ensures |next| == i + 1
    ensures forall k :: 0 <= k < i + 1 && files[k] !in files[..k] ==> next[k] == expected[k]
    ensures ledger.processed == p0 + CompletedPaths(files[..i + 1], next)
    ensures ledger.log == LogAfter(l0, files[..i + 1], next, appendSucceeds)
    ensures store.bodies.Keys == b0.Keys
    ensures forall p :: p in b0 && p !in files[..i + 1] ==> store.bodies[p] == b0[p]
    ensures OnceVisitedBodies(b0, store.bodies, files, next)
  {
    ghost var bodiesBefore := store.bodies;
    var attempt := ProcessCandidate(store, ledger, files, i, b0, expected, saveSucceeds, appendSucceeds);
    CompletedPathsSnoc(files, attempts, i, attempt);
    LogAfterSnoc(l0, files, attempts, i, attempt, appendSucceeds);
    FirstAttemptsSnoc(files, attempts, expected, i, attempt);
    OnceVisitedSnoc(b0, bodiesBefore, store.bodies, files, attempts, attempt);
    next := attempts + [attempt];
  }

  /**
   * The thread pool's `map(process_file, files_to_process)`, run in order:
   * every file completed is marked, other documents are left as they were,
   * and a file met for the first time ends as `process_file` on the
   * documents as they were at the start.
   */
  method ProcessAll(store: DocumentStore, ledger: Ledger, files: seq<string>,
                    saveSucceeds: string -> bool, appendSucceeds: string -> bool)
    returns (attempts: seq<Attempt>)
    modifies store, ledger
    ensures |attempts| == |files|
    ensures forall k :: 0 <= k < |files| && files[k] !in files[..k] ==>
      attempts[k] == ExpectedAttempts(old(store.bodies), files, saveSucceeds)[k]
    ensures ledger.processed == old(ledger.processed) + CompletedPaths(files, attempts)
    ensures ledger.log == LogAfter(old(ledger.log), files, attempts, appendSucceeds)
    ensures store.bodies.Keys == old(store.bodies).Keys
    ensures forall p :: p in old(store.bodies) && p !in files ==> store.bodies[p] == old(store.bodies)[p]
    ensures forall k :: 0 <= k < |files| && files[k] in old(store.bodies) && files[k] !in files[..k] && files[k] !in files[k + 1..] ==>
      store.bodies[files[k]] == BodyAfter(old(store.bodies)[files[k]], attempts[k])
  {
    ghost var expected := ExpectedAttempts(store.bodies, files, saveSucceeds);
    attempts := [];
    var i := 0;
    while i < |files|
      invariant 0 <= i <= |files| && |attempts| == i
      invariant forall k :: 0 <= k < i && files[k] !in files[..k] ==> attempts[k] == expected[k]
      invariant ledger.processed == old(ledger.processed) + CompletedPaths(files[..i], attempts)
      invariant ledger.log == LogAfter(old(ledger.log), files[..i], attempts, appendSucceeds)
      invariant store.bodies.Keys == old(store.bodies).Keys
      invariant forall p :: p in old(store.bodies) && p !in files[..i] ==> store.bodies[p] == old(store.bodies)[p]
      invariant OnceVisitedBodies(old(store.bodies), store.bodies, files, attempts)
    {
      attempts := ProcessNext(store, ledger, files, i, attempts, old(store.bodies), old(ledger.processed), old(ledger.log), expected, saveSucceeds, appendSucceeds);
      i := i + 1;
    }
    assert files[..i] == files;
  }

  /**
   * `main`: load the ledger, discover the `.docx` candidates, and process
   * them one after the other.
   */
  method RemoveImagesInTree(store: DocumentStore, ledger: Ledger, walk: seq<WalkStep>,
                            fullPath: (string, string) -> string, readFailure: Option<nat>,
                            saveSucceeds: string -> bool, appendSucceeds: string -> bool)
    returns (filesToProcess: seq<string>, attempts: seq<Attempt>)
    modifies store, ledger
    ensures filesToProcess == Candidates(Entries(walk), SourceExt, Loaded(old(ledger.processed), old(ledger.log), readFailure), fullPath)
    ensures |attempts| == |filesToProcess|
    ensures forall k :: 0 <= k < |filesToProcess| && filesToProcess[k] !in filesToProcess[..k] ==>
      attempts[k] == ExpectedAttempts(old(store.bodies), filesToProcess, saveSucceeds)[k]
    ensures ledger.processed == Loaded(old(ledger.processed), old(ledger.log), readFailure)
      + CompletedPaths(filesToProcess, attempts)
    ensures ledger.log == LogAfter(old(ledger.log), filesToProcess, attempts, appendSucceeds)
    ensures store.bodies.Keys == old(store.bodies).Keys
    ensures forall p :: p in old(store.bodies) && p !in filesToProcess ==> store.bodies[p] == old(store.bodies)[p]
    ensures forall k ::
      (0 <= k < |filesToProcess| && filesToProcess[k] in old(store.bodies)
       && filesToProcess[k] !in filesToProcess[..k] && filesToProcess[k] !in filesToProcess[k + 1..]) ==>
      store.bodies[filesToProcess[k]] == BodyAfter(old(store.bodies)[filesToProcess[k]], attempts[k])
  {
    ledger.Load(readFailure);
    filesToProcess := Discover(walk, SourceExt, ledger.processed, fullPath);
    attempts := [];
    if |filesToProcess| == 0 {
      return;
    }
    attempts := ProcessAll(store, ledger, filesToProcess, saveSucceeds, appendSucceeds);
  }
}
