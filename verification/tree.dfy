/**
 * The document repair of `parse` (src/Parsers/ShortcodeParser.php:186-211) and
 * `moveMarkerToCompliantHome` (:806-854) on an ordered tree. The marker is located by a
 * zipper: the frames from its parent up to the outermost element, each holding an
 * element's name, attributes and the children on either side of the hole.
 */
module Tree {
  import opened Common
  import opened Placement

  datatype Node =
    | Element(tag: string, attrs: map<string, string>, children: seq<Node>)
    | Text(text: string)
      /** A shortcode marker, with whatever it encloses. */
    | Marker(tagId: nat, children: seq<Node>)

  /** An element with a hole: the children before and after it. */
  datatype Frame = Frame(tag: string, attrs: map<string, string>, left: seq<Node>, right: seq<Node>)

  /** The element of frame `f` with `ns` in the hole. */
  function Fill(f: Frame, ns: seq<Node>): Node {
    Element(f.tag, f.attrs, f.left + ns + f.right)
  }

  /** The tree with `n` at the hole of `path` (`path[0]` innermost). */
  function Rebuild(n: Node, path: seq<Frame>): Node
    decreases |path|
  {
    if path == [] then n else Rebuild(Fill(path[0], [n]), path[1..])
  }

  /** The document order of text and markers; a marker counts as one leaf. */
  function Leaves(n: Node): seq<Node>
    decreases n, 1
  {
    match n
    case Element(_, _, cs) => LeavesSeq(cs)
    case Text(_) => [n]
    case Marker(_, _) => [n]
  }

  function LeavesSeq(ns: seq<Node>): seq<Node>
    decreases ns, 0
  {
    if ns == [] then [] else Leaves(ns[0]) + LeavesSeq(ns[1..])
  }

  lemma {:induction false} LeavesSeqAppend(a: seq<Node>, b: seq<Node>)
    ensures LeavesSeq(a + b) == LeavesSeq(a) + LeavesSeq(b)
    decreases |a|
  {
    if a == [] {
      assert a + b == b;
    } else {
      assert (a + b)[0] == a[0] && (a + b)[1..] == a[1..] + b;
      LeavesSeqAppend(a[1..], b);
    }
  }

  lemma LeavesFill(f: Frame, ns: seq<Node>)
    ensures Leaves(Fill(f, ns)) == LeavesSeq(f.left) + LeavesSeq(ns) + LeavesSeq(f.right)
  {
    LeavesSeqAppend(f.left + ns, f.right);
    LeavesSeqAppend(f.left, ns);
  }

  lemma LeavesSeqSingle(n: Node)
    ensures LeavesSeq([n]) == Leaves(n)
  {
    assert [n][1..] == [];
  }

  /** The leaves before the hole of `path`. */
  function LeftOf(path: seq<Frame>): seq<Node>
    decreases |path|
  {
    if path == [] then [] else LeftOf(path[1..]) + LeavesSeq(path[0].left)
  }

  /** The leaves after the hole of `path`. */
  function RightOf(path: seq<Frame>): seq<Node>
    decreases |path|
  {
    if path == [] then [] else LeavesSeq(path[0].right) + RightOf(path[1..])
  }

  /** The leaves of a rebuilt tree: those left of the hole, the hole's, those right of it. */
  lemma {:induction false} LeavesRebuild(n: Node, path: seq<Frame>)
    ensures Leaves(Rebuild(n, path)) == LeftOf(path) + Leaves(n) + RightOf(path)
    decreases |path|
  {
    if path != [] {
      LeavesRebuild(Fill(path[0], [n]), path[1..]);
      LeavesFill(path[0], [n]);
      LeavesSeqSingle(n);
    }
  }

  lemma LeftRightOfAppend(a: seq<Frame>, b: seq<Frame>)
    ensures LeftOf(a + b) == LeftOf(b) + LeftOf(a)
    ensures RightOf(a + b) == RightOf(a) + RightOf(b)
  {
    LeftOfAppend(a, b);
    RightOfAppend(a, b);
  }

  lemma {:induction false} LeftOfAppend(a: seq<Frame>, b: seq<Frame>)
    ensures LeftOf(a + b) == LeftOf(b) + LeftOf(a)
    decreases |a|
  {
    if a == [] {
      assert a + b == b;
    } else {
      assert a + b == [a[0]] + (a[1..] + b);
      LeftRightOfCons(a[0], a[1..] + b);
      LeftOfAppend(a[1..], b);
      assert LeftOf(a) == LeftOf(a[1..]) + LeavesSeq(a[0].left);
    }
  }

  lemma {:induction false} RightOfAppend(a: seq<Frame>, b: seq<Frame>)
    ensures RightOf(a + b) == RightOf(a) + RightOf(b)
    decreases |a|
  {
    if a == [] {
      assert a + b == b;
    } else {
      assert a + b == [a[0]] + (a[1..] + b);
      LeftRightOfCons(a[0], a[1..] + b);
      RightOfAppend(a[1..], b);
      assert RightOf(a) == LeavesSeq(a[0].right) + RightOf(a[1..]);
    }
  }

  lemma LeftRightOfCons(f: Frame, p: seq<Frame>)
    ensures LeftOf([f] + p) == LeftOf(p) + LeavesSeq(f.left)
    ensures RightOf([f] + p) == LeavesSeq(f.right) + RightOf(p)
  {
    assert ([f] + p)[0] == f && ([f] + p)[1..] == p;
  }

  // ---------------------------------------------------------------------------
  // Finding the block parent (:611-620)

  /** The parser's block-level element names (:34-64). */
  const BLOCK_LEVEL_ELEMENTS: seq<string> := [
    "address", "article", "aside", "audio", "blockquote", "canvas", "dd", "div", "dl",
    "fieldset", "figcaption", "figure", "footer", "form", "h1", "h2", "h3", "h4", "h5",
    "h6", "header", "hgroup", "ol", "output", "p", "pre", "section", "table", "ul"]

  predicate IsBlock(tag: string) {
    ToLower(tag) in BLOCK_LEVEL_ELEMENTS
  }

  /** The first frame at or above `from` whose element is block level. */
  function BlockParentFrom(path: seq<Frame>, from: nat): (r: Option<nat>)
    decreases |path| - from
    ensures r.Some? ==> from <= r.value < |path| && IsBlock(path[r.value].tag)
    ensures r.Some? ==> forall j | from <= j < r.value :: !IsBlock(path[j].tag)
    ensures r.None? ==> forall j | from <= j < |path| :: !IsBlock(path[j].tag)
  {
    if from >= |path| then None
    else if IsBlock(path[from].tag) then Some(from)
    else BlockParentFrom(path, from + 1)
  }

  /**
   * `getParent` as evidently intended: the nearest block-level ancestor of the marker,
   * or none when there is no block-level ancestor.
   */
  function BlockParent(path: seq<Frame>): (r: Option<nat>)
    ensures r.Some? ==> r.value < |path| && IsBlock(path[r.value].tag)
    ensures r.Some? ==> forall j | 0 <= j < r.value :: !IsBlock(path[j].tag)
    ensures r.None? <==> forall j | 0 <= j < |path| :: !IsBlock(path[j].tag)
  {
    BlockParentFrom(path, 0)
  }

  /**
   * `getParent` as written: the loop's `instanceof DOMElement` names a class that does
   * not exist in the parser's namespace, so the test fails at once and the immediate
   * parent is returned, block level or not.
   */
  function GetParentAsWritten(path: seq<Frame>): (r: Option<nat>)
    ensures r.Some? <==> |path| > 0
    ensures r.Some? ==> r.value == 0
  {
    if |path| > 0 then Some(0) else None
  }

  // ---------------------------------------------------------------------------
  // Moving the marker (:806-854)

  /** The two halves SPLIT leaves of frame `j`: the part before the marker, and the clone after it. */
  function SplitHalves(path: seq<Frame>, j: nat): (Node, Node)
    requires j < |path|
  {
    if j == 0 then (Fill(path[0].(right := []), []), Fill(path[0].(left := []), []))
    else
      var (l, r) := SplitHalves(path, j - 1);
      (Fill(path[j].(right := []), [l]), Fill(path[j].(left := []), [r]))
  }

  /** The block parent at frame `k` once the marker has been taken out of it. */
  function ParentWithoutMarker(path: seq<Frame>, k: nat): Node
    requires k < |path|
  {
    Rebuild(Fill(path[0], []), path[1..k + 1])
  }

  /**
   * The tree after moving marker `m` relative to the block parent at frame `k`.
   * INLINE leaves the tree as it is. BEFORE and AFTER move the marker next to the
   * parent; SPLIT splits every element from the marker's parent up to the block
   * parent in two and puts the marker between the halves. None when the target lies
   * outside the outermost modelled element.
   */
  function Move(m: Node, path: seq<Frame>, k: nat, location: Location): Option<Node>
    requires k < |path|
  {
    if location == Inline then Some(Rebuild(m, path))
    else if k + 1 >= |path| then None
    else
      var outer := path[k + 1];
      var above := path[k + 2..];
      match location
      case Before => Some(Rebuild(Fill(outer, [m, ParentWithoutMarker(path, k)]), above))
      case After => Some(Rebuild(Fill(outer, [ParentWithoutMarker(path, k), m]), above))
      case Split =>
        var (l, r) := SplitHalves(path, k);
        Some(Rebuild(Fill(outer, [l, m, r]), above))
  }

  /** The halves of SPLIT hold exactly the leaves left and right of the marker inside them. */
  lemma {:induction false} LeavesSplitHalves(path: seq<Frame>, j: nat)
    requires j < |path|
    ensures Leaves(SplitHalves(path, j).0) == LeftOf(path[..j + 1])
    ensures Leaves(SplitHalves(path, j).1) == RightOf(path[..j + 1])
  {
    if j == 0 {
      LeavesFill(path[0].(right := []), []);
      LeavesFill(path[0].(left := []), []);
      assert path[..1] == [path[0]];
      assert path[..1][1..] == [];
    } else {
      LeavesSplitHalves(path, j - 1);
      var (l0, r0) := SplitHalves(path, j - 1);
      assert SplitHalves(path, j) == (Fill(path[j].(right := []), [l0]), Fill(path[j].(left := []), [r0]));
      LeavesFillOne(path[j].(right := []), l0);
      LeavesFillOne(path[j].(left := []), r0);
      assert path[..j + 1] == path[..j] + [path[j]];
      LeftRightOfSnoc(path[..j], path[j]);
    }
  }

  lemma LeavesFillOne(f: Frame, n: Node)
    ensures Leaves(Fill(f, [n])) == LeavesSeq(f.left) + Leaves(n) + LeavesSeq(f.right)
  {
    LeavesFill(f, [n]);
    LeavesSeqSingle(n);
  }

  lemma LeftRightOfSnoc(p: seq<Frame>, f: Frame)
    ensures LeftOf(p + [f]) == LeavesSeq(f.left) + LeftOf(p)
    ensures RightOf(p + [f]) == RightOf(p) + LeavesSeq(f.right)
  {
    LeftRightOfAppend(p, [f]);
    assert [f][1..] == [];
    assert LeftOf([f]) == LeftOf([]) + LeavesSeq(f.left);
    assert RightOf([f]) == LeavesSeq(f.right) + RightOf([]);
  }

  /** The leaves of the block parent after the marker has been taken out. */
  lemma LeavesParentWithoutMarker(path: seq<Frame>, k: nat)
    requires k < |path|
    ensures Leaves(ParentWithoutMarker(path, k)) == LeftOf(path[..k + 1]) + RightOf(path[..k + 1])
  {
    assert path[..k + 1] == [path[0]] + path[1..k + 1];
    LeavesRebuildEmpty(path[0], path[1..k + 1]);
  }

  lemma LeavesRebuildEmpty(f: Frame, above: seq<Frame>)
    ensures Leaves(Rebuild(Fill(f, []), above)) == LeftOf([f] + above) + RightOf([f] + above)
  {
    LeavesRebuildFill(f, [], above);
    assert LeavesSeq([]) == [];
  }

  /** The leaves of the tree before the move, split at the block parent. */
  lemma LeavesAt(m: Node, path: seq<Frame>, k: nat)
    requires k < |path|
    ensures Leaves(Rebuild(m, path)) ==
      LeftOf(path[k + 1..]) + LeftOf(path[..k + 1]) + Leaves(m) + RightOf(path[..k + 1]) + RightOf(path[k + 1..])
  {
    LeavesRebuild(m, path);
    assert path == path[..k + 1] + path[k + 1..];
    LeftRightOfAppend(path[..k + 1], path[k + 1..]);
  }

  /** The leaves of a tree whose frame `k + 1` holds `ns` in place of the block parent. */
  lemma LeavesAbove(path: seq<Frame>, k: nat, ns: seq<Node>)
    requires k + 1 < |path|
    ensures Leaves(Rebuild(Fill(path[k + 1], ns), path[k + 2..])) ==
      LeftOf(path[k + 1..]) + LeavesSeq(ns) + RightOf(path[k + 1..])
  {
    assert path[k + 1..] == [path[k + 1]] + path[k + 2..];
    LeavesRebuildFill(path[k + 1], ns, path[k + 2..]);
  }

  lemma LeavesRebuildFill(f: Frame, ns: seq<Node>, above: seq<Frame>)
    ensures Leaves(Rebuild(Fill(f, ns), above)) == LeftOf([f] + above) + LeavesSeq(ns) + RightOf([f] + above)
  {
    var a, l, n, r, b := LeftOf(above), LeavesSeq(f.left), LeavesSeq(ns), LeavesSeq(f.right), RightOf(above);
    calc {
      Leaves(Rebuild(Fill(f, ns), above));
      { LeavesRebuild(Fill(f, ns), above); }
      a + Leaves(Fill(f, ns)) + b;
      { LeavesFill(f, ns); }
      a + (l + n + r) + b;
      (a + l) + n + (r + b);
      { LeftRightOfCons(f, above); }
      LeftOf([f] + above) + n + RightOf([f] + above);
    }
  }

  /** SPLIT keeps the document order of every leaf, the marker's included. */
  lemma SplitKeepsDocumentOrder(m: Node, path: seq<Frame>, k: nat)
    requires k + 1 < |path|
    ensures Move(m, path, k, Split).Some?
    ensures Leaves(Move(m, path, k, Split).value) == Leaves(Rebuild(m, path))
  {
    var (l, r) := SplitHalves(path, k);
    LeavesSplitHalves(path, k);
    LeavesAbove(path, k, [l, m, r]);
    LeavesAt(m, path, k);
    LeavesTriple(l, m, r);
  }

  lemma LeavesTriple(a: Node, b: Node, c: Node)
    ensures LeavesSeq([a, b, c]) == Leaves(a) + Leaves(b) + Leaves(c)
  {
    assert [a, b, c] == [a, b] + [c];
    LeavesSeqAppend([a, b], [c]);
    LeavesPair(a, b);
    LeavesSeqSingle(c);
  }

  /**
   * BEFORE moves the marker ahead of exactly the leaves of its block parent that
   * preceded it; every other leaf keeps its place. AFTER moves it behind exactly those
   * that followed it.
   */
  lemma BeforeAfterOrder(m: Node, path: seq<Frame>, k: nat)
    requires k + 1 < |path|
    ensures Move(m, path, k, Before).Some? && Move(m, path, k, After).Some?
    ensures Leaves(Move(m, path, k, Before).value) ==
      LeftOf(path[k + 1..]) + Leaves(m) + LeftOf(path[..k + 1]) + RightOf(path[..k + 1]) + RightOf(path[k + 1..])
    ensures Leaves(Move(m, path, k, After).value) ==
      LeftOf(path[k + 1..]) + LeftOf(path[..k + 1]) + RightOf(path[..k + 1]) + Leaves(m) + RightOf(path[k + 1..])
  {
    BeforeOrder(m, path, k);
    AfterOrder(m, path, k);
  }

  lemma BeforeOrder(m: Node, path: seq<Frame>, k: nat)
    requires k + 1 < |path|
    ensures Move(m, path, k, Before).Some?
    ensures Leaves(Move(m, path, k, Before).value) ==
      LeftOf(path[k + 1..]) + Leaves(m) + LeftOf(path[..k + 1]) + RightOf(path[..k + 1]) + RightOf(path[k + 1..])
  {
    var p := ParentWithoutMarker(path, k);
    assert Move(m, path, k, Before) == Some(Rebuild(Fill(path[k + 1], [m, p]), path[k + 2..]));
    LeavesParentWithoutMarker(path, k);
    LeavesAbove(path, k, [m, p]);
    LeavesPair(m, p);
  }

  lemma AfterOrder(m: Node, path: seq<Frame>, k: nat)
    requires k + 1 < |path|
    ensures Move(m, path, k, After).Some?
    ensures Leaves(Move(m, path, k, After).value) ==
      LeftOf(path[k + 1..]) + LeftOf(path[..k + 1]) + RightOf(path[..k + 1]) + Leaves(m) + RightOf(path[k + 1..])
  {
    var p := ParentWithoutMarker(path, k);
    assert Move(m, path, k, After) == Some(Rebuild(Fill(path[k + 1], [p, m]), path[k + 2..]));
    LeavesParentWithoutMarker(path, k);
    LeavesAbove(path, k, [p, m]);
    LeavesPair(p, m);
  }

  lemma LeavesPair(a: Node, b: Node)
    ensures LeavesSeq([a, b]) == Leaves(a) + Leaves(b)
  {
    LeavesSeqAppend([a], [b]);
    assert [a, b] == [a] + [b];
    LeavesSeqSingle(a);
    LeavesSeqSingle(b);
  }

  /**
   * After BEFORE, AFTER or SPLIT the marker is a child of the block parent's parent:
   * its ancestors are exactly the frames above the block parent.
   */
  lemma MarkerLeavesBlockParent(m: Node, path: seq<Frame>, k: nat, location: Location)
    requires k + 1 < |path| && location != Inline
    ensures exists f: Frame ::
              f.tag == path[k + 1].tag && f.attrs == path[k + 1].attrs &&
              Move(m, path, k, location) == Some(Rebuild(m, [f] + path[k + 2..]))
  {
    var outer := path[k + 1];
    var above := path[k + 2..];
    var f: Frame;
    match location {
      case Before => f := outer.(right := [ParentWithoutMarker(path, k)] + outer.right);
      case After => f := outer.(left := outer.left + [ParentWithoutMarker(path, k)]);
      case Split =>
        var (l, r) := SplitHalves(path, k);
        f := outer.(left := outer.left + [l], right := [r] + outer.right);
    }
    assert ([f] + above)[1..] == above;
    assert Fill(f, [m]).children == Fill(outer, if location == Before then [m, ParentWithoutMarker(path, k)]
                                                   else if location == After then [ParentWithoutMarker(path, k), m]
                                                   else [SplitHalves(path, k).0, m, SplitHalves(path, k).1]).children;
  }

  /**
   * `moveMarkerToCompliantHome` (:806-854). SPLIT walks up from the marker's parent to
   * the block parent; at each level the element is cloned without children, the clone
   * goes after it, and every sibling after the marker (or after the level below) is
   * moved into the clone one at a time. Finally the marker itself is moved after the
   * block parent, out of the innermost left half.
   */
  method MoveMarkerToCompliantHome(m: Node, path: seq<Frame>, k: nat, location: Location) returns (r: Option<Node>)
    requires k < |path|
    ensures r == Move(m, path, k, location)
  {
    if location == Inline {
      return Some(Rebuild(m, path));
    }
    if k + 1 >= |path| {
      return None;
    }
    if location == Before {
      return Some(Rebuild(Fill(path[k + 1], [m, ParentWithoutMarker(path, k)]), path[k + 2..]));
    }
    if location == After {
      return Some(Rebuild(Fill(path[k + 1], [ParentWithoutMarker(path, k), m]), path[k + 2..]));
    }
    var splitee := Fill(path[0].(right := []), []);
    var spliter := Fill(path[0].(left := []), []);
    var j := 0;
    while j < k
      invariant 0 <= j <= k
      invariant (splitee, spliter) == SplitHalves(path, j)
    {
      j := j + 1;
      // The siblings after `$at`: the level below's clone, then this level's right siblings.
      var siblings := [spliter] + path[j].right;
      var clone: seq<Node> := [];
      while siblings != []
        invariant clone + siblings == [spliter] + path[j].right
        decreases |siblings|
      {
        clone := clone + [siblings[0]];
        siblings := siblings[1..];
      }
      assert clone == clone + siblings;
      assert clone == [] + [spliter] + path[j].right;
      spliter := Element(path[j].tag, path[j].attrs, clone);
      splitee := Fill(path[j].(right := []), [splitee]);
    }
    r := Some(Rebuild(Fill(path[k + 1], [splitee, m, spliter]), path[k + 2..]));
  }

  // ---------------------------------------------------------------------------
  // Placement in `parse` (:186-211)

  /**
   * What `parse` does with a marker: with no block parent, anything but INLINE is a
   * fatal error and INLINE leaves the tree alone; otherwise the marker is moved.
   */
  function PlaceMarker(m: Node, path: seq<Frame>, parent: Option<nat>, location: Location): (r: Result<Option<Node>>)
    requires parent.Some? ==> parent.value < |path|
    ensures parent.None? ==> (r.Abort? <==> location != Inline)
    ensures parent.None? && location == Inline ==> r == Ok(Some(Rebuild(m, path)))
    ensures parent.Some? ==> r == Ok(Move(m, path, parent.value, location))
  {
    if parent.None? then
      if location != Inline then Abort("Parent block for shortcode couldn't be found, but location wasn't INLINE")
      else Ok(Some(Rebuild(m, path)))
    else Ok(Move(m, path, parent.value, location))
  }

  /** The example of :794-798: `<p>A<span>B<marker/>C</span>D</p>` in a body. */
  function ExamplePath(): seq<Frame> {
    [Frame("span", map[], [Text("B")], [Text("C")]),
     Frame("p", map[], [Text("A")], [Text("D")]),
     Frame("body", map[], [], [])]
  }

  lemma SpanIsInline()
    ensures !IsBlock("span")
  {
    assert ToLower("span") == "span";
    forall e | e in BLOCK_LEVEL_ELEMENTS ensures e != "span" {
      assert |e| != 4 || e[0] != 's';
    }
  }

  lemma ParagraphIsBlock()
    ensures IsBlock("p")
  {
    assert ToLower("p") == "p";
    assert BLOCK_LEVEL_ELEMENTS[24] == "p";
  }

  /**
   * With the block parent found, SPLIT turns the example into
   * `<p>A<span>B</span></p><marker/><p><span>C</span>D</p>`.
   */
  lemma SplitExample(m: Node)
    ensures BlockParent(ExamplePath()) == Some(1)
    ensures PlaceMarker(m, ExamplePath(), BlockParent(ExamplePath()), LocationFor(map["class" := "center"])) ==
      Ok(Some(Element("body", map[], [
        Element("p", map[], [Text("A"), Element("span", map[], [Text("B")])]),
        m,
        Element("p", map[], [Element("span", map[], [Text("C")]), Text("D")])])))
  {
    var path := ExamplePath();
    SpanIsInline();
    ParagraphIsBlock();
    assert BlockParentFrom(path, 1) == Some(1);
    assert LocationFor(map["class" := "center"]) == Split;
    var l0, r0 := Element("span", map[], [Text("B")]), Element("span", map[], [Text("C")]);
    assert SplitHalves(path, 0) == (l0, r0) by {
      assert [Text("B")] + [] + [] == [Text("B")] && [] + [] + [Text("C")] == [Text("C")];
    }
    var l1, r1 := Element("p", map[], [Text("A"), l0]), Element("p", map[], [r0, Text("D")]);
    assert SplitHalves(path, 1) == (l1, r1) by {
      assert [Text("A")] + [l0] + [] == [Text("A"), l0] && [] + [r0] + [Text("D")] == [r0, Text("D")];
    }
    assert path[3..] == [];
    assert Fill(path[2], [l1, m, r1]) == Element("body", map[], [l1, m, r1]) by {
      assert [] + [l1, m, r1] + [] == [l1, m, r1];
    }
  }

  /**
   * With `getParent` as written, the immediate parent `span` is taken for the block, so
   * SPLIT only splits the `span` and the marker stays inside the paragraph:
   * `<p>A<span>B</span><marker/><span>C</span>D</p>`.
   */
  lemma SplitExampleAsWritten(m: Node)
    ensures PlaceMarker(m, ExamplePath(), GetParentAsWritten(ExamplePath()), LocationFor(map["class" := "center"])) ==
      Ok(Some(Element("body", map[], [
        Element("p", map[], [Text("A"), Element("span", map[], [Text("B")]), m,
                             Element("span", map[], [Text("C")]), Text("D")])])))
  {
    var path := ExamplePath();
    assert LocationFor(map["class" := "center"]) == Split;
    var l0, r0 := Element("span", map[], [Text("B")]), Element("span", map[], [Text("C")]);
    assert SplitHalves(path, 0) == (l0, r0) by {
      assert [Text("B")] + [] + [] == [Text("B")] && [] + [] + [Text("C")] == [Text("C")];
    }
    var p := Element("p", map[], [Text("A"), l0, m, r0, Text("D")]);
    assert Fill(path[1], [l0, m, r0]) == p by {
      assert [Text("A")] + [l0, m, r0] + [Text("D")] == [Text("A"), l0, m, r0, Text("D")];
    }
    assert path[2..] == [path[2]];
    assert Rebuild(p, path[2..]) == Rebuild(Fill(path[2], [p]), []);
    assert Fill(path[2], [p]) == Element("body", map[], [p]) by {
      assert [] + [p] + [] == [p];
    }
  }
}
