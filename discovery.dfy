/**
 * The discovery filter both scripts run in `main`: walk the directory tree,
 * keep the files whose lower-cased name ends in the source extension and
 * that are not Word lock files, and drop the paths the ledger already holds.
 */
module Discovery {
  import opened Text

  /** Word's lock files start with this prefix. */
  const LockPrefix := "~$"

  /** One directory `os.walk` yields: its root and the names of its files. */
  datatype WalkStep = WalkStep(root: string, files: seq<string>)

  /** One `(root, name)` pair of the walk. */
  datatype Entry = Entry(root: string, name: string)

  /** The pairs of one directory, in the order of its file names. */
  function NamedEntries(root: string, names: seq<string>): seq<Entry> {
    if names == [] then [] else NamedEntries(root, names[..|names| - 1]) + [Entry(root, names[|names| - 1])]
  }

  /** The walk's pairs in walk order: directory after directory, file after file. */
  function Entries(walk: seq<WalkStep>): seq<Entry> {
    if walk == [] then [] else Entries(walk[..|walk| - 1]) + NamedEntries(walk[|walk| - 1].root, walk[|walk| - 1].files)
  }

  /** `name.lower().endswith(ext) and not name.startswith("~$")` */
  predicate Eligible(name: string, ext: string) {
    EndsWith(Lower(name), ext) && !StartsWith(name, LockPrefix)
  }

  /**
   * The entry's path as `os.path.abspath(os.path.join(root, name))` gives it
   * (`fullPath`), when the entry is eligible and that path is not processed.
   */
  function Pick(e: Entry, ext: string, processed: set<string>, fullPath: (string, string) -> string): seq<string> {
    if Eligible(e.name, ext) && fullPath(e.root, e.name) !in processed then [fullPath(e.root, e.name)] else []
  }

  /** The candidate paths of `entries`, in walk order. */
  function Candidates(entries: seq<Entry>, ext: string, processed: set<string>, fullPath: (string, string) -> string): seq<string> {
    if entries == [] then []
    else Candidates(entries[..|entries| - 1], ext, processed, fullPath) + Pick(entries[|entries| - 1], ext, processed, fullPath)
  }

  /** Candidates keep walk order: those of a later stretch of the walk come after those of an earlier one. */
  lemma {:induction false} CandidatesAppend(xs: seq<Entry>, ys: seq<Entry>, ext: string, processed: set<string>, fullPath: (string, string) -> string)
    ensures Candidates(xs + ys, ext, processed, fullPath) == Candidates(xs, ext, processed, fullPath) + Candidates(ys, ext, processed, fullPath)
    decreases |ys|
  {
    if ys == [] {
      assert xs + ys == xs;
    } else {
      var front, last := ys[..|ys| - 1], ys[|ys| - 1];
      assert ys == front + [last];
      assert xs + ys == (xs + front) + [last];
      calc {
        Candidates(xs + ys, ext, processed, fullPath);
        { CandidatesSnoc(xs + front, last, ext, processed, fullPath); }
        Candidates(xs + front, ext, processed, fullPath) + Pick(last, ext, processed, fullPath);
        { CandidatesAppend(xs, front, ext, processed, fullPath); }
        Candidates(xs, ext, processed, fullPath) + Candidates(front, ext, processed, fullPath) + Pick(last, ext, processed, fullPath);
        { CandidatesSnoc(front, last, ext, processed, fullPath); }
        Candidates(xs, ext, processed, fullPath) + Candidates(ys, ext, processed, fullPath);
      }
    }
  }

  /**
   * A path is a candidate exactly when some entry of the walk is eligible,
   * has that path, and the path is not already processed.
   */
  lemma {:induction false} CandidateMembership(entries: seq<Entry>, ext: string, processed: set<string>, fullPath: (string, string) -> string, x: string)
    ensures x in Candidates(entries, ext, processed, fullPath) <==>
      x !in processed && exists k :: 0 <= k < |entries| && Eligible(entries[k].name, ext) && fullPath(entries[k].root, entries[k].name) == x
    decreases |entries|
  {
    if entries != [] {
      var front := entries[..|entries| - 1];
      CandidateMembership(front, ext, processed, fullPath, x);
      assert forall k :: 0 <= k < |front| ==> front[k] == entries[k];
      var e := entries[|entries| - 1];
      if x in Candidates(entries, ext, processed, fullPath) && x !in Candidates(front, ext, processed, fullPath) {
        assert Eligible(e.name, ext) && fullPath(e.root, e.name) == x;
      }
      if x !in processed && exists k :: 0 <= k < |entries| && Eligible(entries[k].name, ext) && fullPath(entries[k].root, entries[k].name) == x {
        var k :| 0 <= k < |entries| && Eligible(entries[k].name, ext) && fullPath(entries[k].root, entries[k].name) == x;
        if k == |entries| - 1 {
          assert x in Pick(e, ext, processed, fullPath);
        }
      }
    }
  }

  /**
   * Re-running discovery over the same walk, once every candidate has been
   * marked processed, finds nothing.
   */
  lemma RerunFindsNothing(entries: seq<Entry>, ext: string, processed: set<string>, fullPath: (string, string) -> string)
    ensures var found := Candidates(entries, ext, processed, fullPath);
      Candidates(entries, ext, processed + (set x | x in found), fullPath) == []
  {
    var found := Candidates(entries, ext, processed, fullPath);
    var again := Candidates(entries, ext, processed + (set x | x in found), fullPath);
    if again != [] {
      var x := again[0];
      assert x in again;
      CandidateMembership(entries, ext, processed + (set x | x in found), fullPath, x);
      CandidateMembership(entries, ext, processed, fullPath, x);
      assert false;
    }
  }

  lemma EntriesSnoc(walk: seq<WalkStep>, i: nat)
    requires i < |walk|
    ensures Entries(walk[..i + 1]) == Entries(walk[..i]) + NamedEntries(walk[i].root, walk[i].files)
  {
    assert walk[..i + 1][..i] == walk[..i];
  }

  lemma NamedEntriesSnoc(done: seq<Entry>, root: string, names: seq<string>, j: nat)
    requires j < |names|
    ensures done + NamedEntries(root, names[..j + 1]) == (done + NamedEntries(root, names[..j])) + [Entry(root, names[j])]
  {
    assert names[..j + 1][..j] == names[..j];
  }

  lemma CandidatesSnoc(xs: seq<Entry>, e: Entry, ext: string, processed: set<string>, fullPath: (string, string) -> string)
    ensures Candidates(xs + [e], ext, processed, fullPath) == Candidates(xs, ext, processed, fullPath) + Pick(e, ext, processed, fullPath)
  {
    assert (xs + [e])[..|xs|] == xs;
  }

  /**
   * `main`'s discovery loop: for each directory of the walk, for each file
   * name, append the path of every eligible, unprocessed file.
   */
  method Discover(walk: seq<WalkStep>, ext: string, processed: set<string>, fullPath: (string, string) -> string)
    returns (filesToProcess: seq<string>)
    ensures filesToProcess == Candidates(Entries(walk), ext, processed, fullPath)
  {
    filesToProcess := [];
    var i := 0;
    while i < |walk|
      invariant 0 <= i <= |walk|
      invariant filesToProcess == Candidates(Entries(walk[..i]), ext, processed, fullPath)
    {
      var step := walk[i];
      ghost var done := Entries(walk[..i]);
      assert done + NamedEntries(step.root, step.files[..0]) == done;
      var j := 0;
      while j < |step.files|
        invariant 0 <= j <= |step.files|
        invariant filesToProcess == Candidates(done + NamedEntries(step.root, step.files[..j]), ext, processed, fullPath)
      {
        var name := step.files[j];
        NamedEntriesSnoc(done, step.root, step.files, j);
        CandidatesSnoc(done + NamedEntries(step.root, step.files[..j]), Entry(step.root, name), ext, processed, fullPath);
        if EndsWith(Lower(name), ext) && !StartsWith(name, LockPrefix) {
          var fullPathOfName := fullPath(step.root, name);
          if fullPathOfName !in processed {
            filesToProcess := filesToProcess + [fullPathOfName];
          }
        }
        j := j + 1;
      }
      assert step.files[..|step.files|] == step.files;
      EntriesSnoc(walk, i);
      i := i + 1;
    }
    assert walk[..|walk|] == walk;
  }
}
