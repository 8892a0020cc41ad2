/**
 * The backward scan of `process_file` in the image remover: walk the
 * paragraphs, their runs and the runs' children from last to first, stop at
 * the first text with visible characters or the first drawing, and remove
 * that drawing from its run.
 *
 * The model flattens what the three loops visit into one sequence in the
 * order `Paragraphs` lists the paragraphs (`Items`) and takes its last
 * signal (`LastSignal`). This is document order only when no table is nested
 * in another (`Nesting.NestedDrawingBeforeText`). The
 * method `RemoveLastImage` keeps the code's loops, flags and breaks and is
 * proved to compute exactly that.
 */
module Scanner {
  import opened Text
  import opened WordML

  /** `list(element)`, each child with its path. */
  function ChildNodes(n: Node): seq<Node> {
    seq(|n.elem.children|, j requires 0 <= j < |n.elem.children| => Node(n.path + [j], n.elem.children[j]))
  }

  /** Keep the nodes whose tag ends in "r". */
  function KeepRuns(ns: seq<Node>): seq<Node> {
    if ns == [] then [] else
    (if EndsWith(ns[0].elem.tag, "r") then [ns[0]] else []) + KeepRuns(ns[1..])
  }

  /** Exactly the nodes of `ns` whose tag ends in "r" are kept. */
  lemma {:induction false} KeepRunsSpec(ns: seq<Node>)
    ensures forall n :: n in KeepRuns(ns) <==> n in ns && EndsWith(n.elem.tag, "r")
  {
    if ns != [] {
      KeepRunsSpec(ns[1..]);
    }
  }

  /** `[child for child in p_element if child.tag.endswith('r')]` */
  function RunsOf(p: Node): seq<Node> {
    KeepRuns(ChildNodes(p))
  }

  /** The children of the runs, run after run. */
  function RunItems(runs: seq<Node>): seq<Node> {
    if runs == [] then [] else RunItems(runs[..|runs| - 1]) + ChildNodes(runs[|runs| - 1])
  }

  /** The run children of the paragraphs, paragraph after paragraph. */
  function DocItems(ps: seq<Node>): seq<Node> {
    if ps == [] then [] else DocItems(ps[..|ps| - 1]) + RunItems(RunsOf(ps[|ps| - 1]))
  }

  /**
   * Everything the scan of a document body can visit, paragraph by paragraph
   * as `Paragraphs` lists them: document order when no table is nested in another.
   */
  function Items(body: Element): seq<Node> {
    DocItems(Paragraphs(body, []))
  }

  /** `child.text and child.text.strip()` */
  predicate HasText(e: Element) {
    e.text.Some? && Strip(e.text.value) != []
  }

  /** A run child that ends the scan with "the document ends in text". */
  predicate IsTextSignal(e: Element) {
    EndsWith(e.tag, "t") && HasText(e)
  }

  /** A run child that ends the scan by being removed; the "pict" test is tried only for tags not ending in "t". */
  predicate IsImageSignal(e: Element) {
    !EndsWith(e.tag, "t") && (EndsWith(e.tag, "drawing") || EndsWith(e.tag, "pict"))
  }

  predicate IsSignal(e: Element) {
    IsTextSignal(e) || IsImageSignal(e)
  }

  /** No node of `items` stops the scan. */
  predicate Quiet(items: seq<Node>) {
    forall j :: 0 <= j < |items| ==> !IsSignal(items[j].elem)
  }

  /**
   * The index of the last signal in `items`, the first one a backward walk
   * meets: none when no node is a signal, otherwise a signal with no signal
   * after it.
   */
  function LastSignal(items: seq<Node>): Option<nat> {
    if items == [] then None
    else if IsSignal(items[|items| - 1].elem) then Some(|items| - 1)
    else LastSignal(items[..|items| - 1])
  }

  lemma {:induction false} LastSignalSpec(items: seq<Node>)
    ensures var r := LastSignal(items);
      && (r.None? <==> Quiet(items))
      && (r.Some? ==> r.value < |items| && IsSignal(items[r.value].elem) && Quiet(items[r.value + 1..]))
  {
    if items != [] {
      var front, last := items[..|items| - 1], items[|items| - 1];
      assert items == front + [last];
      LastSignalSnoc(front, last);
      if !IsSignal(last.elem) {
        LastSignalSpec(front);
        var r := LastSignal(front);
        assert forall j :: 0 <= j < |front| ==> front[j] == items[j];
        if r.Some? {
          assert items[r.value + 1..] == front[r.value + 1..] + [last];
        }
      }
    }
  }

  lemma LastSignalSnoc(items: seq<Node>, x: Node)
    ensures LastSignal(items + [x]) == if IsSignal(x.elem) then Some(|items|) else LastSignal(items)
  {
    assert (items + [x])[..|items|] == items;
  }

  /** The last signal found is a signal of the sequence. */
  lemma LastSignalFound(items: seq<Node>)
    ensures LastSignal(items).Some? ==> LastSignal(items).value < |items| && IsSignal(items[LastSignal(items).value].elem)
  {
    LastSignalSpec(items);
  }

  /** Searching backwards through `xs + ys` searches `ys` first. */
  lemma {:induction false} LastSignalAppend(xs: seq<Node>, ys: seq<Node>)
    ensures LastSignal(ys).Some? ==> LastSignal(xs + ys) == Some(|xs| + LastSignal(ys).value)
    ensures LastSignal(ys).None? ==> LastSignal(xs + ys) == LastSignal(xs)
    decreases |ys|
  {
    if ys == [] {
      assert xs + ys == xs;
    } else {
      var front, last := ys[..|ys| - 1], ys[|ys| - 1];
      assert ys == front + [last];
      assert xs + ys == (xs + front) + [last];
      LastSignalSnoc(xs + front, last);
      LastSignalSnoc(front, last);
      if !IsSignal(last.elem) {
        LastSignalAppend(xs, front);
      }
    }
  }

  /** A signal followed only by quiet nodes is the last signal. */
  lemma SignalThenQuiet(pre: seq<Node>, x: Node, post: seq<Node>)
    requires IsSignal(x.elem) && Quiet(post)
    ensures LastSignal(pre + ([x] + post)) == Some(|pre|)
  {
    var t := [x] + post;
    assert LastSignal(post) == None by {
      LastSignalSpec(post);
    }
    assert LastSignal(t) == Some(0) by {
      LastSignalAppend([x], post);
      assert LastSignal([x]) == Some(0);
    }
    LastSignalAppend(pre, t);
    assert LastSignal(pre + t) == Some(|pre| + LastSignal(t).value);
    assert LastSignal(pre + t) == Some(|pre|);
  }

  /** Where the scan ends. */
  datatype Outcome =
    | NoSignal             // no paragraph of the document holds a signal
    | EndsInText           // the document ends in text: nothing is removed
    | Removed(path: Path)  // the drawing at `path` is removed from its run

  /**
   * `p` leads to a child of a run: the element just above it has a tag
   * ending in "r".
   */
  predicate InRun(body: Element, p: Path) {
    |p| >= 1 && ValidPath(body, p) && ValidPath(body, Parent(p)) && EndsWith(At(body, Parent(p)).tag, "r")
  }

  lemma {:induction false} RunItemsInRuns(body: Element, runs: seq<Node>)
    requires forall n :: n in runs ==> Located(body, n) && EndsWith(n.elem.tag, "r")
    ensures forall n :: n in RunItems(runs) ==> Located(body, n) && InRun(body, n.path)
    decreases |runs|
  {
    if runs != [] {
      var run := runs[|runs| - 1];
      assert run in runs;
      assert forall n :: n in runs[..|runs| - 1] ==> n in runs;
      RunItemsInRuns(body, runs[..|runs| - 1]);
      forall n | n in ChildNodes(run) ensures Located(body, n) && InRun(body, n.path) {
        var j :| 0 <= j < |ChildNodes(run)| && ChildNodes(run)[j] == n;
        assert n.path == run.path + [j] && Parent(n.path) == run.path;
        AtAppend(body, run.path, [j]);
      }
    }
  }

  lemma {:induction false} DocItemsInRuns(body: Element, ps: seq<Node>)
    requires forall n :: n in ps ==> Located(body, n)
    ensures forall n :: n in DocItems(ps) ==> Located(body, n) && InRun(body, n.path)
    decreases |ps|
  {
    if ps != [] {
      var p := ps[|ps| - 1];
      assert p in ps;
      assert forall n :: n in ps[..|ps| - 1] ==> n in ps;
      DocItemsInRuns(body, ps[..|ps| - 1]);
      forall n | n in ChildNodes(p) ensures Located(body, n) {
        var j :| 0 <= j < |ChildNodes(p)| && ChildNodes(p)[j] == n;
        AtAppend(body, p.path, [j]);
      }
      KeepRunsSpec(ChildNodes(p));
      RunItemsInRuns(body, RunsOf(p));
    }
  }

  /** Every node of `Items(body)` sits in a run of `body`. */
  lemma ItemsInRuns(body: Element)
    ensures forall n :: n in Items(body) ==> Located(body, n) && InRun(body, n.path)
  {
    var ps := Paragraphs(body, []);
    forall n | n in ps ensures Located(body, n) {
      assert n.path[0..] == n.path;
    }
    DocItemsInRuns(body, ps);
  }

  /** Each node of `Items(body)` sits in a run of `body`. */
  lemma ItemInRun(body: Element, k: nat)
    requires k < |Items(body)|
    ensures Located(body, Items(body)[k]) && InRun(body, Items(body)[k].path)
  {
    ItemsInRuns(body);
    assert Items(body)[k] in Items(body);
  }

  /**
   * What a backward walk over `items` ends with: nothing when it meets no
   * signal, otherwise the first signal it meets, text or a drawing.
   */
  function Decide(items: seq<Node>): Outcome {
    LastSignalSpec(items);
    match LastSignal(items)
    case None => NoSignal
    case Some(k) => if IsTextSignal(items[k].elem) then EndsInText else Removed(items[k].path)
  }

  /** The outcome of the scan: where the last signal of the document is, and what it is. */
  function Scan(body: Element): (o: Outcome)
    ensures o.Removed? ==> InRun(body, o.path)
  {
    var items := Items(body);
    LastSignalSpec(items);
    ItemsInRuns(body);
    assert LastSignal(items).Some? ==> items[LastSignal(items).value] in items;
    Decide(items)
  }

  /** The body after the scan: the drawing removed, or the body as it was. */
  function Edited(body: Element): Element {
    match Scan(body)
    case Removed(p) => RemoveAt(body, p)
    case _ => body
  }

  /** A run is a child of the paragraph whose tag ends in "r", and every such child is one. */
  lemma RunsAreRChildren(p: Node)
    ensures forall n :: n in RunsOf(p) ==> n.elem in p.elem.children && EndsWith(n.elem.tag, "r")
    ensures forall j :: 0 <= j < |p.elem.children| && EndsWith(p.elem.children[j].tag, "r") ==>
      Node(p.path + [j], p.elem.children[j]) in RunsOf(p)
  {
    KeepRunsSpec(ChildNodes(p));
    forall n | n in RunsOf(p) ensures n.elem in p.elem.children {
      var j :| 0 <= j < |ChildNodes(p)| && ChildNodes(p)[j] == n;
    }
    forall j | 0 <= j < |p.elem.children| && EndsWith(p.elem.children[j].tag, "r")
      ensures Node(p.path + [j], p.elem.children[j]) in RunsOf(p)
    {
      assert ChildNodes(p)[j] == Node(p.path + [j], p.elem.children[j]);
    }
  }

  /** A `t` element whose text is missing or only whitespace does not stop the scan. */
  lemma BlankTextIsNoSignal(e: Element)
    requires EndsWith(e.tag, "t")
    requires e.text.Some? ==> forall i :: 0 <= i < |e.text.value| ==> IsSpace(e.text.value[i])
    ensures !IsSignal(e)
  {
    if e.text.Some? {
      StripSpec(e.text.value);
    }
  }

  /** A tag ending in "pict" ends in "t": pictures take the text branch and are never removed. */
  lemma PictIsNeverRemoved(e: Element)
    ensures EndsWith(e.tag, "pict") ==> EndsWith(e.tag, "t") && !IsImageSignal(e)
    ensures IsImageSignal(e) <==> EndsWith(e.tag, "drawing") && !EndsWith(e.tag, "t")
  {
    if EndsWith(e.tag, "pict") {
      assert e.tag[|e.tag| - 1..] == e.tag[|e.tag| - 4..][3..];
    }
  }

  /** A paragraph without a signal does not change where the scan stops: it goes on with the paragraphs before. */
  lemma QuietParagraphSkipped(ps: seq<Node>, p: Node)
    requires Quiet(RunItems(RunsOf(p)))
    ensures LastSignal(DocItems(ps + [p])) == LastSignal(DocItems(ps))
  {
    assert (ps + [p])[..|ps|] == ps;
    LastSignalSpec(RunItems(RunsOf(p)));
    LastSignalAppend(DocItems(ps), RunItems(RunsOf(p)));
  }

  /** A signal followed by no other signal is where the scan stops. */
  lemma {:induction false} LastSignalUnique(items: seq<Node>, k: nat)
    requires k < |items| && IsSignal(items[k].elem) && Quiet(items[k + 1..])
    ensures LastSignal(items) == Some(k)
  {
    assert items == items[..k] + ([items[k]] + items[k + 1..]);
    SignalThenQuiet(items[..k], items[k], items[k + 1..]);
  }

  /**
   * The scan's outcome in terms of the document's run children: no signal
   * exactly when none is a signal; otherwise the last signal decides, text
   * leaving the document alone and a drawing being removed.
   */
  lemma ScanOutcome(body: Element)
    ensures Scan(body) == NoSignal <==> Quiet(Items(body))
    ensures forall k :: 0 <= k < |Items(body)| && IsSignal(Items(body)[k].elem) && Quiet(Items(body)[k + 1..]) ==>
      Scan(body) == if IsTextSignal(Items(body)[k].elem) then EndsInText else Removed(Items(body)[k].path)
  {
    LastSignalSpec(Items(body));
    forall k | 0 <= k < |Items(body)| && IsSignal(Items(body)[k].elem) && Quiet(Items(body)[k + 1..])
      ensures Scan(body) == if IsTextSignal(Items(body)[k].elem) then EndsInText else Removed(Items(body)[k].path)
    {
      LastSignalUnique(Items(body), k);
    }
  }

  /**
   * What is removed is a drawing, a child of a run, with no text and no
   * other drawing after it in paragraph, run and child order.
   */
  lemma RemovedIsTrailingDrawing(body: Element)
    requires Scan(body).Removed?
    ensures var p := Scan(body).path;
      && InRun(body, p)
      && EndsWith(At(body, p).tag, "drawing") && !EndsWith(At(body, p).tag, "t")
      && exists k :: 0 <= k < |Items(body)| && Items(body)[k] == Node(p, At(body, p)) && Quiet(Items(body)[k + 1..])
  {
    var items := Items(body);
    LastSignalSpec(items);
    var k := LastSignal(items).value;
    ItemInRun(body, k);
    PictIsNeverRemoved(items[k].elem);
    assert Items(body)[k] == Node(Scan(body).path, At(body, Scan(body).path));
  }

  /**
   * The edit removes one child of one run and changes nothing else: without
   * a drawing to remove the body is unchanged; with one, the run keeps its
   * tag, its text and its other children in order, and every element off the
   * path to that run is the same element at the same path.
   */
  lemma EditRemovesOneRunChild(body: Element)
    ensures !Scan(body).Removed? ==> Edited(body) == body
    ensures Scan(body).Removed? ==>
      var p := Scan(body).path;
      var run, k := At(body, Parent(p)), p[|p| - 1];
      && k < |run.children|
      && ValidPath(Edited(body), Parent(p))
      && At(Edited(body), Parent(p)) == run.(children := run.children[..k] + run.children[k + 1..])
      && Edited(body) != body
      && forall q :: ValidPath(body, q) && !(q <= Parent(p)) && !(Parent(p) <= q) ==>
           ValidPath(Edited(body), q) && At(Edited(body), q) == At(body, q)
  {
    if Scan(body).Removed? {
      var p := Scan(body).path;
      RemoveAtParent(body, p);
      var run, k := At(body, Parent(p)), p[|p| - 1];
      assert |At(Edited(body), Parent(p)).children| == |run.children| - 1;
      forall q | ValidPath(body, q) && !(q <= Parent(p)) && !(Parent(p) <= q)
        ensures ValidPath(Edited(body), q) && At(Edited(body), q) == At(body, q)
      {
        RemoveAtElsewhere(body, p, q);
      }
    }
  }

  /** A child of an element found in the body is found in the body, one step further down. */
  lemma ChildNodeLocated(body: Element, n: Node, j: nat)
    requires Located(body, n) && j < |n.elem.children|
    ensures |ChildNodes(n)| == |n.elem.children|
    ensures ChildNodes(n)[j] == Node(n.path + [j], n.elem.children[j])
    ensures Located(body, ChildNodes(n)[j]) && |ChildNodes(n)[j].path| >= 1
  {
    AtAppend(body, n.path, [j]);
  }

  /** A run of a paragraph found in the body is found in the body. */
  lemma RunLocated(body: Element, p: Node, r: nat)
    requires Located(body, p) && r < |RunsOf(p)|
    ensures Located(body, RunsOf(p)[r])
  {
    KeepRunsSpec(ChildNodes(p));
    assert RunsOf(p)[r] in ChildNodes(p);
    var j :| 0 <= j < |ChildNodes(p)| && ChildNodes(p)[j] == RunsOf(p)[r];
    ChildNodeLocated(body, p, j);
  }

  /** Every paragraph listed is found in the body at its path. */
  lemma ParagraphsLocated(body: Element)
    ensures forall i :: 0 <= i < |Paragraphs(body, [])| ==> Located(body, Paragraphs(body, [])[i])
  {
    forall i | 0 <= i < |Paragraphs(body, [])|
      ensures Located(body, Paragraphs(body, [])[i])
    {
      var n := Paragraphs(body, [])[i];
      assert n in Paragraphs(body, []);
      assert n.path[0..] == n.path;
    }
  }


  /** A stretch decides nothing exactly when it holds no signal. */
  lemma DecideQuiet(items: seq<Node>)
    ensures Decide(items) == NoSignal <==> Quiet(items)
  {
    LastSignalSpec(items);
  }

  /**
   * A stretch that holds a signal decides the walk over any longer sequence
   * in which only quiet nodes follow it.
   */
  lemma DecideAppend(xs: seq<Node>, ys: seq<Node>, zs: seq<Node>)
    requires Quiet(zs)
    ensures Decide(ys) != NoSignal ==> Decide(xs + ys + zs) == Decide(ys)
  {
    if LastSignal(ys).Some? {
      var k := LastSignal(ys).value;
      LastSignalFound(ys);
      LastSignalSpec(zs);
      LastSignalAppend(xs + ys, zs);
      LastSignalAppend(xs, ys);
      assert LastSignal(xs + ys + zs) == Some(|xs| + k);
      assert (xs + ys + zs)[|xs| + k] == ys[k];
    }
  }

  /**
   * One step of a backward scan over `front + block + tail` with `tail`
   * already known quiet: a block that decides something decides the whole,
   * and a block that decides nothing joins the quiet tail.
   */
  lemma ScanStep(front: seq<Node>, block: seq<Node>, tail: seq<Node>)
    requires Quiet(tail)
    ensures Decide(block) != NoSignal ==> Decide(front + block + tail) == Decide(block)
    ensures Decide(block) == NoSignal ==> front + block + tail == front + (block + tail) && Quiet(block + tail)
  {
    DecideAppend(front, block, tail);
    DecideQuiet(block);
    if Decide(block) == NoSignal {
      QuietAppend(block, tail);
      Regroup(front, block, tail);
    }
  }

  lemma RunItemsSnoc(runs: seq<Node>, r: nat)
    requires 0 < r <= |runs|
    ensures RunItems(runs[..r]) == RunItems(runs[..r - 1]) + ChildNodes(runs[r - 1])
  {
    assert runs[..r][..r - 1] == runs[..r - 1];
  }

  lemma DocItemsSnoc(ps: seq<Node>, i: nat)
    requires 0 < i <= |ps|
    ensures DocItems(ps[..i]) == DocItems(ps[..i - 1]) + RunItems(RunsOf(ps[i - 1]))
  {
    assert ps[..i][..i - 1] == ps[..i - 1];
  }

  /** A signal followed only by quiet nodes decides the walk. */
  lemma DecideAt(items: seq<Node>, k: nat)
    requires k < |items| && IsSignal(items[k].elem) && Quiet(items[k + 1..])
    ensures Decide(items) == if IsTextSignal(items[k].elem) then EndsInText else Removed(items[k].path)
  {
    LastSignalUnique(items, k);
  }

  /** Concatenation regrouped, for moving the scan's boundary. */
  lemma Regroup(a: seq<Node>, b: seq<Node>, t: seq<Node>)
    ensures a + b + t == a + (b + t)
  {
  }

  /** Two stretches without a signal make one. */
  lemma QuietAppend(a: seq<Node>, b: seq<Node>)
    requires Quiet(a) && Quiet(b)
    ensures Quiet(a + b)
  {
    assert forall j :: 0 <= j < |a + b| ==> (a + b)[j] == if j < |a| then a[j] else b[j - |a|];
  }

  /**
   * The innermost loop of `process_file`: the children of one run, last
   * first. It stops at the first text with visible characters, or at the
   * first drawing or picture, which it removes from the run; where it stops
   * is what `Decide` says of the run's children.
   */
  method ScanRun(body: Element, run: Node) returns (paragraphHasText: bool, removed: bool, outcome: Outcome, result: Element)
    requires Located(body, run)
    ensures outcome == Decide(ChildNodes(run))
    ensures outcome.Removed? ==> |outcome.path| >= 1 && ValidPath(body, outcome.path)
    ensures paragraphHasText <==> outcome == EndsInText
    ensures removed <==> outcome.Removed?
    ensures result == if removed then RemoveAt(body, outcome.path) else body
  {
    var runChildren := ChildNodes(run);
    paragraphHasText, removed := false, false;
    outcome, result := NoSignal, body;
    var c := |runChildren|;
    while c > 0
      invariant 0 <= c <= |runChildren|
      invariant Quiet(runChildren[c..])
      invariant !removed && !paragraphHasText && outcome == NoSignal && result == body
    {
      var child := runChildren[c - 1];
      ChildNodeLocated(body, run, c - 1);
      if EndsWith(child.elem.tag, "t") {
        if child.elem.text.Some? && Strip(child.elem.text.value) != [] {
          paragraphHasText := true;
          DecideAt(runChildren, c - 1);
          outcome := EndsInText;
          break;
        }
      } else if EndsWith(child.elem.tag, "drawing") || EndsWith(child.elem.tag, "pict") {
        DecideAt(runChildren, c - 1);
        outcome := Removed(child.path);
        result := RemoveAt(body, child.path);
        removed := true;
        break;
      }
      assert runChildren[c - 1..] == [child] + runChildren[c..];
      QuietAppend([child], runChildren[c..]);
      c := c - 1;
    }
    if c == 0 {
      assert runChildren[c..] == runChildren;
      DecideQuiet(runChildren);
    }
  }

  /**
   * The middle loop of `process_file`: the runs of one paragraph, last
   * first, each scanned by `ScanRun`, until one of them stops the scan;
   * where it stops is what `Decide` says of the paragraph's run children.
   */
  method ScanParagraph(body: Element, pElement: Node) returns (paragraphHasText: bool, removed: bool, outcome: Outcome, result: Element)
    requires Located(body, pElement)
    ensures outcome == Decide(RunItems(RunsOf(pElement)))
    ensures outcome.Removed? ==> |outcome.path| >= 1 && ValidPath(body, outcome.path)
    ensures paragraphHasText <==> outcome == EndsInText
    ensures removed <==> outcome.Removed?
    ensures result == if removed then RemoveAt(body, outcome.path) else body
  {
    var runs := RunsOf(pElement);
    ghost var items := RunItems(runs);
    ghost var tail: seq<Node> := [];
    paragraphHasText, removed := false, false;
    outcome, result := NoSignal, body;
    assert runs[..|runs|] == runs;
    var r := |runs|;
    while r > 0
      invariant 0 <= r <= |runs|
      invariant items == RunItems(runs[..r]) + tail && Quiet(tail)
      invariant !removed && !paragraphHasText && outcome == NoSignal && result == body
    {
      var run := runs[r - 1];
      RunLocated(body, pElement, r - 1);
      RunItemsSnoc(runs, r);
      ScanStep(RunItems(runs[..r - 1]), ChildNodes(run), tail);
      paragraphHasText, removed, outcome, result := ScanRun(body, run);
      if paragraphHasText {
        break;
      }
      if removed {
        break;
      }
      tail := ChildNodes(run) + tail;
      r := r - 1;
    }
    if r == 0 {
      assert runs[..r] == [] && RunItems(runs[..r]) == [];
      assert items == tail;
      DecideQuiet(items);
    }
  }

  /**
   * `process_file`'s backward scan: paragraphs last first, each one scanned
   * by `ScanParagraph`, until one of them stops the scan. The outcome is what
   * the paragraphs' items decide, and the body is edited accordingly.
   */
  method ScanParagraphs(body: Element, allParagraphs: seq<Node>) returns (outcome: Outcome, result: Element)
    requires forall i :: 0 <= i < |allParagraphs| ==> Located(body, allParagraphs[i])
    ensures outcome == Decide(DocItems(allParagraphs))
    ensures outcome.Removed? ==> |outcome.path| >= 1 && ValidPath(body, outcome.path)
    ensures result == if outcome.Removed? then RemoveAt(body, outcome.path) else body
  {
    ghost var items := DocItems(allParagraphs);
    ghost var tail: seq<Node> := [];
    var removed := false;
    var paragraphHasText := false;
    outcome, result := NoSignal, body;
    assert allParagraphs[..|allParagraphs|] == allParagraphs;
    var i := |allParagraphs|;
    while i > 0
      invariant 0 <= i <= |allParagraphs|
      invariant items == DocItems(allParagraphs[..i]) + tail && Quiet(tail)
      invariant !removed && !paragraphHasText && outcome == NoSignal && result == body
    {
      var pElement := allParagraphs[i - 1];
      DocItemsSnoc(allParagraphs, i);
      ScanStep(DocItems(allParagraphs[..i - 1]), RunItems(RunsOf(pElement)), tail);
      paragraphHasText, removed, outcome, result := ScanParagraph(body, pElement);
      if paragraphHasText {
        break;
      }
      if removed {
        break;
      }
      tail := RunItems(RunsOf(pElement)) + tail;
      i := i - 1;
    }
    if i == 0 {
      assert allParagraphs[..i] == [] && DocItems(allParagraphs[..i]) == [];
      assert items == tail;
      DecideQuiet(items);
    }
  }
  /** The scan decides what the whole document's items decide. */
  lemma ScanDecides(body: Element)
    ensures Scan(body) == Decide(Items(body))
  {
  }

  /**
   * The reverse scan and removal of `process_file`: the outcome is the
   * scan's, and the body is edited exactly as `Edited` says.
   */
  method RemoveLastImage(body: Element) returns (outcome: Outcome, result: Element)
    ensures outcome == Scan(body)
    ensures result == Edited(body)
  {
    ParagraphsLocated(body);
    outcome, result := ScanParagraphs(body, Paragraphs(body, []));
    ScanDecides(body);
  }

}
