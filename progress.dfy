/**
 * The resume ledger both scripts keep: the in-memory set `processed_files`
 * and the append-only text file holding one processed path per line.
 */
module Progress {
  import opened Text

  /** Length of the first line of `s` as Python's line iteration yields it: up to and including the first '\n'. */
  function LineLength(s: string): (n: nat)
    requires s != []
    ensures 1 <= n <= |s|
  {
    if s[0] == '\n' || |s| == 1 then 1 else 1 + LineLength(s[1..])
  }

  /** The first line holds no '\n' but possibly its last character, which is one unless the line runs to the end. */
  lemma {:induction false} LineLengthSpec(s: string)
    requires s != []
    ensures forall j :: 0 <= j < LineLength(s) - 1 ==> s[j] != '\n'
    ensures LineLength(s) < |s| ==> s[LineLength(s) - 1] == '\n'
  {
    if !(s[0] == '\n' || |s| == 1) {
      var t := s[1..];
      LineLengthSpec(t);
      forall j | 0 <= j < LineLength(s) - 1 ensures s[j] != '\n' {
        if j > 0 {
          assert s[j] == t[j - 1];
        }
      }
      assert LineLength(s) < |s| ==> s[LineLength(s) - 1] == t[LineLength(t) - 1];
    }
  }

  function Concat(ls: seq<string>): string {
    if ls == [] then "" else ls[0] + Concat(ls[1..])
  }

  /** `for line in f`: the lines of a text file, each up to and including its '\n'. */
  function Lines(s: string): seq<string>
    decreases |s|
  {
    if s == [] then [] else
    var n := LineLength(s);
    [s[..n]] + Lines(s[n..])
  }

  /** A line as Python yields it: not empty, and no '\n' before its last character. */
  predicate IsLine(l: string) {
    l != [] && forall j :: 0 <= j < |l| - 1 ==> l[j] != '\n'
  }

  predicate Terminated(l: string) {
    l != [] && l[|l| - 1] == '\n'
  }

  lemma {:induction false} LinesConcat(s: string)
    ensures Concat(Lines(s)) == s
    decreases |s|
  {
    if s != [] {
      var n := LineLength(s);
      var ls := Lines(s);
      LinesConcat(s[n..]);
      assert ls == [s[..n]] + Lines(s[n..]);
      assert ls[0] == s[..n] && ls[1..] == Lines(s[n..]);
      assert Concat(ls) == s[..n] + Concat(Lines(s[n..]));
      assert s[..n] + s[n..] == s;
    }
  }

  lemma {:induction false} LinesShape(s: string)
    ensures forall i :: 0 <= i < |Lines(s)| ==> IsLine(Lines(s)[i])
    ensures forall i :: 0 <= i < |Lines(s)| - 1 ==> Terminated(Lines(s)[i])
    decreases |s|
  {
    if s != [] {
      var n := LineLength(s);
      var ls, rest := Lines(s), Lines(s[n..]);
      LinesShape(s[n..]);
      LineLengthSpec(s);
      assert ls == [s[..n]] + rest;
      assert IsLine(ls[0]);
      assert |ls| > 1 ==> n < |s|;
      forall i | 1 <= i < |ls| ensures IsLine(ls[i]) && (i < |ls| - 1 ==> Terminated(ls[i])) {
        assert ls[i] == rest[i - 1];
      }
    }
  }

  /**
   * Joined again, the lines give the file back; each is a line, and every
   * line but the last ends in '\n'.
   */
  lemma LinesSplit(s: string)
    ensures Concat(Lines(s)) == s
    ensures forall i :: 0 <= i < |Lines(s)| ==> IsLine(Lines(s)[i])
    ensures forall i :: 0 <= i < |Lines(s)| - 1 ==> Terminated(Lines(s)[i])
  {
    LinesConcat(s);
    LinesShape(s);
  }

  /** The first line does not change when text is appended after a complete line. */
  lemma {:induction false} LineLengthPrefix(s: string, x: string)
    requires s != [] && s[LineLength(s) - 1] == '\n'
    ensures LineLength(s + x) == LineLength(s)
  {
    assert (s + x)[0] == s[0];
    if !(s[0] == '\n' || |s| == 1) {
      assert (s + x)[1..] == s[1..] + x;
      assert s[1..][LineLength(s[1..]) - 1] == s[LineLength(s) - 1];
      LineLengthPrefix(s[1..], x);
    }
  }

  /** Appending `p + "\n"` after complete lines adds exactly one line. */
  lemma {:induction false} LinesAppend(s: string, p: string)
    requires s == [] || s[|s| - 1] == '\n'
    requires forall j :: 0 <= j < |p| ==> p[j] != '\n'
    ensures Lines(s + p + "\n") == Lines(s) + [p + "\n"]
    decreases |s|
  {
    var line := p + "\n";
    if s == [] {
      assert s + p + "\n" == line;
      var m := LineLength(line);
      LineLengthSpec(line);
      assert forall j :: 0 <= j < |p| ==> line[j] == p[j];
      assert m == |line| && line[..m] == line && line[m..] == [];
    } else {
      var n := LineLength(s);
      var t := s + line;
      assert s + p + "\n" == t;
      LineLengthSpec(s);
      assert s[n - 1] == '\n';
      LineLengthPrefix(s, line);
      assert t[..n] == s[..n];
      assert t[n..] == s[n..] + p + "\n";
      LinesAppend(s[n..], p);
      assert Lines(t) == [t[..n]] + Lines(t[n..]);
    }
  }

  /** The set `load_processed_files` builds from a sequence of lines: each line, stripped. */
  function Stripped(ls: seq<string>): set<string> {
    if ls == [] then {} else Stripped(ls[..|ls| - 1]) + {Strip(ls[|ls| - 1])}
  }

  /**
   * The lines that are read before reading fails: all of them when
   * `readFailure` is None, the first k when reading raises after k lines.
   */
  function LinesRead(text: string, readFailure: Option<nat>): seq<string> {
    var ls := Lines(text);
    match readFailure
    case None => ls
    case Some(k) => if k < |ls| then ls[..k] else ls
  }

  /** The set the ledger holds after `load_processed_files()` on `processed`. */
  function Loaded(processed: set<string>, log: Option<string>, readFailure: Option<nat>): set<string> {
    processed + (if log.None? then {} else Stripped(LinesRead(log.value, readFailure)))
  }

  /** The text of a ledger file; a missing file has none. */
  function Contents(log: Option<string>): string {
    match log
    case None => ""
    case Some(text) => text
  }

  /** The ledger text after marking `paths` in order, starting from an empty file. */
  function LogOf(paths: seq<string>): (text: string)
    ensures text == [] || text[|text| - 1] == '\n'
  {
    if paths == [] then "" else LogOf(paths[..|paths| - 1]) + paths[|paths| - 1] + "\n"
  }

  /**
   * A path that reads back unchanged from a ledger line: no line break of
   * either kind inside (a text-mode read also ends a line at '\r'), and no
   * whitespace at either end.
   */
  predicate Clean(path: string) {
    (forall j :: 0 <= j < |path| ==> path[j] != '\n' && path[j] != '\r') && Strip(path) == path
  }

  /** Loading a ledger to which a clean path was appended yields that path as well. */
  lemma ReloadAfterMark(text: string, path: string)
    requires text == [] || text[|text| - 1] == '\n'
    requires Clean(path)
    ensures Stripped(Lines(text + path + "\n")) == Stripped(Lines(text)) + {path}
  {
    LinesAppend(text, path);
    var ls := Lines(text) + [path + "\n"];
    assert ls[..|ls| - 1] == Lines(text);
    StripLine(path);
  }

  /**
   * Resuming: a ledger written by marking clean paths one by one holds one
   * line per mark, and loading it yields exactly the marked paths.
   */
  lemma {:induction false} ReplayLedger(paths: seq<string>)
    requires forall p :: p in paths ==> Clean(p)
    ensures |Lines(LogOf(paths))| == |paths|
    ensures Stripped(Lines(LogOf(paths))) == set x | x in paths
  {
    if paths != [] {
      var front, last := paths[..|paths| - 1], paths[|paths| - 1];
      assert paths == front + [last];
      assert forall p :: p in front ==> p in paths;
      ReplayLedger(front);
      var text := LogOf(front);
      assert last in paths;
      assert Clean(last);
      LinesAppend(text, last);
      ReloadAfterMark(text, last);
      assert (set x | x in paths) == (set x | x in front) + {last};
    }
  }

  class Ledger {
    /** `processed_files` */
    var processed: set<string>
    /** The text of the ledger file, None while the file does not exist. */
    var log: Option<string>

    constructor (log: Option<string>)
      ensures processed == {} && this.log == log
    {
      processed := {};
      this.log := log;
    }

    /**
     * `load_processed_files()`: when the file exists, add every stripped line
     * to the set. A read that raises after some lines keeps the lines read so
     * far; the error is only logged.
     */
    method Load(readFailure: Option<nat>)
      modifies this
      ensures log == old(log)
      ensures processed == Loaded(old(processed), log, readFailure)
    {
      if log.Some? {
        var lines := Lines(log.value);
        var i := 0;
        while i < |lines|
          invariant 0 <= i <= |lines|
          invariant readFailure.Some? ==> i <= readFailure.value
          invariant processed == old(processed) + Stripped(lines[..i])
          invariant log == old(log)
        {
          if readFailure == Some(i) {
            break;
          }
          assert lines[..i + 1][..i] == lines[..i];
          processed := processed + {Strip(lines[i])};
          i := i + 1;
        }
        assert lines[..|lines|] == lines;
        assert lines[..i] == LinesRead(log.value, readFailure);
      }
    }

    /**
     * `mark_as_processed(path)`: the path joins the set whatever happens; the
     * file, created if missing, grows by exactly `path + "\n"` when the append
     * succeeds and is left as it was when it fails.
     */
    method Mark(path: string, appendSucceeds: bool)
      modifies this
      ensures processed == old(processed) + {path}
      ensures log == if appendSucceeds then Some(Contents(old(log)) + path + "\n") else old(log)
    {
      processed := processed + {path};
      if appendSucceeds {
        log := Some(Contents(log) + path + "\n");
      }
    }
  }
}
