/**
 * The page as the content script sees it: a tree of text nodes and elements, addressed by
 * paths of child indices, with the DOM operations the highlighter uses (`textContent`,
 * replacing one child by a run of new children, pre-order traversal) and the facts about
 * them that the highlighter's proofs rest on.
 */
module Dom {
  import opened Common

  /** A text node, or an element with its tag name, class list, inline style declarations
      and children in document order. */
  datatype Node =
    | Text(data: string)
    | Element(tag: string, classes: seq<string>, style: seq<(string, string)>, children: seq<Node>)

  /** The child indices leading from the root down to a node. */
  type Path = seq<nat>

  /** The class that identifies the highlighter's marks. */
  const HighlightClass := "ai-highlight"

  /** The element matches the selector `mark.ai-highlight`. */
  predicate IsMark(n: Node) {
    n.Element? && n.tag == "mark" && HighlightClass in n.classes
  }

  /** The `<mark>` element the highlighter creates for a sentence: class `ai-highlight`,
      a yellow background, black text, and the sentence as its only child. */
  function NewMark(sentence: string): (m: Node)
    ensures IsMark(m) && m.children == [Text(sentence)]
  {
    Element("mark", [HighlightClass], [("background-color", "#fef08a"), ("color", "#000")], [Text(sentence)])
  }

  // ---------------------------------------------------------------------------------------
  // textContent
  // ---------------------------------------------------------------------------------------

  /** `node.textContent`: the text of all descendant text nodes, in document order. */
  function TextContent(n: Node): string
    decreases n
  {
    match n
    case Text(s) => s
    case Element(_, _, _, cs) => ForestText(cs)
  }

  function ForestText(ns: seq<Node>): string
    decreases ns
  {
    if ns == [] then "" else TextContent(ns[0]) + ForestText(ns[1..])
  }

  lemma {:induction false} ForestTextAppend(a: seq<Node>, b: seq<Node>)
    ensures ForestText(a + b) == ForestText(a) + ForestText(b)
    decreases |a|
  {
    if a == [] {
      assert a + b == b;
    } else {
      assert (a + b)[0] == a[0];
      assert (a + b)[1..] == a[1..] + b;
      ForestTextAppend(a[1..], b);
    }
  }

  /** The text of a run of nodes is the text before position `k`, that of the node at `k`,
      and the text after it. */
  lemma ForestTextAt(ns: seq<Node>, k: nat)
    requires k < |ns|
    ensures ForestText(ns) == ForestText(ns[..k]) + TextContent(ns[k]) + ForestText(ns[k + 1..])
  {
    assert ns == ns[..k] + ns[k..];
    ForestTextAppend(ns[..k], ns[k..]);
    assert ns[k..][0] == ns[k] && ns[k..][1..] == ns[k + 1..];
  }

  /** The run that replaces a highlighted text node carries the text of its three parts
      and exactly one mark. */
  lemma MarkedRun(before: string, sentence: string, after: string)
    ensures ForestText([Text(before), NewMark(sentence), Text(after)]) == before + sentence + after
    ensures ForestMarkCount([Text(before), NewMark(sentence), Text(after)]) == 1
  {
    var r := [Text(before), NewMark(sentence), Text(after)];
    assert r[1..] == [NewMark(sentence), Text(after)];
    assert r[1..][1..] == [Text(after)];
    assert [Text(after)][1..] == [];
    var m := NewMark(sentence);
    assert [Text(sentence)][1..] == [];
    assert ForestText(m.children) == sentence + ForestText([]);
    assert TextContent(m) == sentence;
    assert ForestMarkCount(m.children) == MarkCount(Text(sentence)) + ForestMarkCount([]);
    assert MarkCount(m) == 1;
    assert [Text(after)][1..] == [];
    assert ForestText(r[1..][1..]) == after + ForestText([]);
    assert ForestMarkCount(r[1..][1..]) == MarkCount(Text(after)) + ForestMarkCount([]);
  }

  // ---------------------------------------------------------------------------------------
  // Counting marks
  // ---------------------------------------------------------------------------------------

  /** The number of `mark.ai-highlight` elements in the subtree, the node itself included. */
  function MarkCount(n: Node): nat
    decreases n
  {
    (if IsMark(n) then 1 else 0) + (if n.Text? then 0 else ForestMarkCount(n.children))
  }

  function ForestMarkCount(ns: seq<Node>): nat
    decreases ns
  {
    if ns == [] then 0 else MarkCount(ns[0]) + ForestMarkCount(ns[1..])
  }

  lemma {:induction false} ForestMarkCountAppend(a: seq<Node>, b: seq<Node>)
    ensures ForestMarkCount(a + b) == ForestMarkCount(a) + ForestMarkCount(b)
    decreases |a|
  {
    if a == [] {
      assert a + b == b;
    } else {
      assert (a + b)[0] == a[0];
      assert (a + b)[1..] == a[1..] + b;
      ForestMarkCountAppend(a[1..], b);
    }
  }

  lemma ForestMarkCountAt(ns: seq<Node>, k: nat)
    requires k < |ns|
    ensures ForestMarkCount(ns) == ForestMarkCount(ns[..k]) + MarkCount(ns[k]) + ForestMarkCount(ns[k + 1..])
  {
    assert ns == ns[..k] + ns[k..];
    ForestMarkCountAppend(ns[..k], ns[k..]);
    assert ns[k..][0] == ns[k] && ns[k..][1..] == ns[k + 1..];
  }

  // ---------------------------------------------------------------------------------------
  // Addressing nodes
  // ---------------------------------------------------------------------------------------

  /** The node at path `p`, if the path leads anywhere. */
  function NodeAt(n: Node, p: Path): Option<Node>
    decreases |p|
  {
    if p == [] then Some(n)
    else if n.Text? || p[0] >= |n.children| then None
    else NodeAt(n.children[p[0]], p[1..])
  }

  lemma NodeAtChild(n: Node, k: nat, q: Path)
    requires n.Element? && k < |n.children|
    ensures NodeAt(n, [k] + q) == NodeAt(n.children[k], q)
  {
    assert ([k] + q)[1..] == q;
  }

  /** Walking `a` and then `b` is walking `a + b`. */
  lemma {:induction false} NodeAtConcat(n: Node, a: Path, b: Path)
    requires NodeAt(n, a).Some?
    ensures NodeAt(n, a + b) == NodeAt(NodeAt(n, a).value, b)
    decreases |a|
  {
    if a == [] {
      assert a + b == b;
    } else {
      assert !n.Text? && a[0] < |n.children|;
      assert NodeAt(n, a) == NodeAt(n.children[a[0]], a[1..]);
      NodeAtConcat(n.children[a[0]], a[1..], b);
      assert (a + b)[0] == a[0] && (a + b)[1..] == a[1..] + b;
      assert NodeAt(n, a + b) == NodeAt(n.children[a[0]], a[1..] + b);
    }
  }

  /** There is a `mark.ai-highlight` element at path `p`. */
  predicate IsMarkAt(n: Node, p: Path) {
    NodeAt(n, p).Some? && IsMark(NodeAt(n, p).value)
  }

  /** `parent.insertBefore(x, node)` for each node of `repl`, then `parent.removeChild(node)`:
      the node at `p` gives way to the run `repl`, in place, among its siblings. */
  function Splice(n: Node, p: Path, repl: seq<Node>): (r: Node)
    requires |p| > 0 && NodeAt(n, p).Some?
    ensures r.Element? && r.tag == n.tag && r.classes == n.classes && r.style == n.style
    decreases |p|
  {
    var cs, k := n.children, p[0];
    if |p| == 1 then n.(children := cs[..k] + repl + cs[k + 1..])
    else n.(children := cs[k := Splice(cs[k], p[1..], repl)])
  }

  /** What a splice leaves in a node's child list: when `p` is one step long, the run `repl`
      stands at position `k` in place of the old child. */
  lemma SpliceChildren(n: Node, p: Path, repl: seq<Node>)
    requires |p| > 0 && NodeAt(n, p).Some?
    ensures var k := p[0];
            |p| == 1 ==> Splice(n, p, repl).children == n.children[..k] + repl + n.children[k + 1..]
    ensures var k := p[0];
            |p| > 1 ==> Splice(n, p, repl).children == n.children[k := Splice(n.children[k], p[1..], repl)]
  {
  }

  /** The length of the common prefix of two paths. */
  function Diverge(q: Path, p: Path): (d: nat)
    ensures d <= |q| && d <= |p| && q[..d] == p[..d]
    ensures d < |q| && d < |p| ==> q[d] != p[d]
    decreases |q|
  {
    if q == [] || p == [] || q[0] != p[0] then 0
    else
      var d := Diverge(q[1..], p[1..]);
      assert q[..d + 1] == [q[0]] + q[1..][..d];
      assert p[..d + 1] == [p[0]] + p[1..][..d];
      d + 1
  }

  /** `q` leads to a node a splice at `p` does not touch: it leaves `p` before `p`'s
      parent, or it turns from `p`'s parent to an earlier sibling of `p`. */
  predicate Elsewhere(q: Path, p: Path) {
    var d := Diverge(q, p);
    d < |q| && d < |p| && (d < |p| - 1 || q[d] < p[d])
  }

  /** The path of the node `j` places after the one at `p` among its siblings. */
  function Sibling(p: Path, j: nat): (q: Path)
    requires |p| > 0
    ensures |q| == |p| && q[..|p| - 1] == p[..|p| - 1] && q[|p| - 1] == p[|p| - 1] + j
  {
    p[..|p| - 1] + [p[|p| - 1] + j]
  }

  /** The run stands where the replaced node stood, in order. */
  lemma {:induction false} SpliceAt(n: Node, p: Path, repl: seq<Node>, j: nat)
    requires |p| > 0 && NodeAt(n, p).Some? && j < |repl|
    ensures NodeAt(Splice(n, p, repl), Sibling(p, j)) == Some(repl[j])
    decreases |p|
  {
    var cs, k := n.children, p[0];
    var n' := Splice(n, p, repl);
    SpliceChildren(n, p, repl);
    if |p| == 1 {
      RunAt(cs, k, repl, j);
      SiblingStep(p, j);
      NodeAtChild(n', k + j, []);
    } else {
      var p' := p[1..];
      SpliceAt(cs[k], p', repl, j);
      SiblingStep(p, j);
      NodeAtChild(n', k, Sibling(p', j));
    }
  }

  /** The run spliced in at `k` sits at positions `k` onwards. */
  lemma RunAt<T>(cs: seq<T>, k: nat, repl: seq<T>, j: nat)
    requires k < |cs| && j < |repl|
    ensures (cs[..k] + repl + cs[k + 1..])[k + j] == repl[j]
  {
  }

  /** A sibling path as its first step and the sibling path below it. */
  lemma SiblingStep(p: Path, j: nat)
    requires |p| > 0
    ensures |p| == 1 ==> Sibling(p, j) == [p[0] + j] + []
    ensures |p| > 1 ==> Sibling(p, j) == [p[0]] + Sibling(p[1..], j)
  {
    if |p| > 1 {
      assert Sibling(p, j)[1..] == Sibling(p[1..], j);
    }
  }

  /** The node at the replaced node's own position is the first node of the run. */
  lemma SiblingZero(p: Path)
    requires |p| > 0
    ensures Sibling(p, 0) == p
  {
  }

  /** Above the splice, an ancestor `a` of the replaced node holds the same splice made
      inside it. */
  lemma {:induction false} SpliceBelow(n: Node, a: Path, b: Path, repl: seq<Node>)
    requires |b| > 0 && NodeAt(n, a + b).Some?
    ensures NodeAt(n, a).Some? && NodeAt(NodeAt(n, a).value, b).Some?
    ensures NodeAt(Splice(n, a + b, repl), a) == Some(Splice(NodeAt(n, a).value, b, repl))
    decreases |a|
  {
    AncestorElement(n, a, b);
    NodeAtConcat(n, a, b);
    if a == [] {
      assert a + b == b;
    } else {
      var k := a[0];
      assert (a + b)[0] == k && (a + b)[1..] == a[1..] + b;
      SpliceBelow(n.children[k], a[1..], b, repl);
      NodeAtChild(Splice(n, a + b, repl), k, a[1..]);
      NodeAtChild(n, k, a[1..]);
      assert a == [k] + a[1..];
    }
  }

  /** Nodes away from the splice are untouched. */
  lemma {:induction false} SpliceElsewhere(n: Node, p: Path, repl: seq<Node>, q: Path)
    requires |p| > 0 && NodeAt(n, p).Some?
    requires Elsewhere(q, p)
    ensures NodeAt(Splice(n, p, repl), q) == NodeAt(n, q)
    decreases |p|
  {
    var cs, k := n.children, p[0];
    var n' := Splice(n, p, repl);
    var d := Diverge(q, p);
    var j := q[0];
    if d == 0 {
      if |p| == 1 {
        assert n'.children == cs[..k] + repl + cs[k + 1..];
        assert j < k && n'.children[j] == cs[j];
      } else {
        assert n'.children == cs[k := Splice(cs[k], p[1..], repl)];
      }
      if j < |cs| {
        NodeAtChild(n', j, q[1..]);
        NodeAtChild(n, j, q[1..]);
        assert q == [j] + q[1..];
      }
    } else {
      assert q[..d][0] == p[..d][0];
      assert j == k && |p| > 1;
      assert Diverge(q[1..], p[1..]) == d - 1;
      SpliceElsewhere(cs[k], p[1..], repl, q[1..]);
      NodeAtChild(n', k, q[1..]);
      NodeAtChild(n, k, q[1..]);
      assert q == [k] + q[1..];
    }
  }

  /** Later siblings of the replaced node, and everything inside them, move along by the
      length of the run less one: the run goes into the child list of the node at `a`. */
  lemma {:induction false} SpliceShifts(n: Node, a: Path, k: nat, repl: seq<Node>, j: nat, rest: Path)
    requires NodeAt(n, a + [k]).Some? && k < j
    ensures NodeAt(Splice(n, a + [k], repl), a + [j + |repl| - 1] + rest) == NodeAt(n, a + [j] + rest)
    decreases |a|
  {
    if a == [] {
      PathAfter(a, k, []);
      PathAfter(a, j + |repl| - 1, rest);
      PathAfter(a, j, rest);
      ShiftChild(n, k, repl, j, rest);
    } else {
      var i, a' := a[0], a[1..];
      PathStep(a, k, []);
      var n' := Splice(n, a + [k], repl);
      assert n'.children[i] == Splice(n.children[i], a' + [k], repl);
      SpliceShifts(n.children[i], a', k, repl, j, rest);
      PathStep(a, j + |repl| - 1, rest);
      PathStep(a, j, rest);
      NodeAtChild(n', i, a' + [j + |repl| - 1] + rest);
      NodeAtChild(n, i, a' + [j] + rest);
    }
  }

  /** `SpliceShifts` for the replaced node's own path: the sibling `d` places after it moves
      to `d + |repl| - 1` places after it. */
  lemma SpliceShiftsAfter(n: Node, p: Path, repl: seq<Node>, d: nat, rest: Path)
    requires |p| > 0 && NodeAt(n, p).Some? && d > 0
    ensures NodeAt(Splice(n, p, repl), Sibling(p, d + |repl| - 1) + rest) == NodeAt(n, Sibling(p, d) + rest)
  {
    var a, k := p[..|p| - 1], p[|p| - 1];
    var j := k + d;
    assert a + [k] == p;
    var later, moved := Sibling(p, d), Sibling(p, d + |repl| - 1);
    assert later == a + [j];
    assert moved == a + [j + |repl| - 1];
    SpliceShifts(n, a, k, repl, j, rest);
    assert NodeAt(Splice(n, p, repl), moved + rest) == NodeAt(n, later + rest);
  }

  /** A path that reaches index `x` after the empty prefix. */
  lemma PathAfter(a: Path, x: nat, rest: Path)
    requires a == []
    ensures a + [x] + rest == [x] + rest && (a + [x])[1..] == []
  {
  }

  /** A path through `a`, then `x`, then `rest`, as its first step and the remainder. */
  lemma PathStep(a: Path, x: nat, rest: Path)
    requires a != []
    ensures a + [x] + rest == [a[0]] + (a[1..] + [x] + rest)
    ensures (a + [x])[0] == a[0] && (a + [x])[1..] == a[1..] + [x]
  {
    assert a == [a[0]] + a[1..];
  }

  lemma ReplacedLength<T>(cs: seq<T>, k: nat, repl: seq<T>)
    requires k < |cs|
    ensures |cs[..k] + repl + cs[k + 1..]| == |cs| + |repl| - 1
  {
  }

  lemma ReplacedLater<T>(cs: seq<T>, k: nat, repl: seq<T>, j: nat)
    requires k < j < |cs|
    ensures (cs[..k] + repl + cs[k + 1..])[j + |repl| - 1] == cs[j]
  {
    assert (cs[..k] + repl + cs[k + 1..])[j + |repl| - 1] == cs[k + 1..][j - k - 1];
  }

  /** The base case of `SpliceShifts`: a later child of the node whose child list the run
      goes into. */
  lemma ShiftChild(n: Node, k: nat, repl: seq<Node>, j: nat, rest: Path)
    requires n.Element? && k < j && k < |n.children|
    ensures NodeAt(Splice(n, [k], repl), [j + |repl| - 1] + rest) == NodeAt(n, [j] + rest)
  {
    var cs := n.children;
    var n' := Splice(n, [k], repl);
    SpliceChildren(n, [k], repl);
    ReplacedLength(cs, k, repl);
    if j < |cs| {
      ReplacedLater(cs, k, repl, j);
      SameChild(n', j + |repl| - 1, n, j, rest);
    } else {
      NodeAtBeyond(n', j + |repl| - 1, rest);
      NodeAtBeyond(n, j, rest);
    }
  }

  /** Two nodes with the same child at positions `i` and `j` agree below them. */
  lemma SameChild(m: Node, i: nat, n: Node, j: nat, rest: Path)
    requires m.Element? && n.Element? && i < |m.children| && j < |n.children|
    requires m.children[i] == n.children[j]
    ensures NodeAt(m, [i] + rest) == NodeAt(n, [j] + rest)
  {
    NodeAtChild(m, i, rest);
    NodeAtChild(n, j, rest);
  }

  /** There is nothing past the last child. */
  lemma NodeAtBeyond(n: Node, k: nat, q: Path)
    requires n.Element? && k >= |n.children|
    ensures NodeAt(n, [k] + q) == None
  {
    assert ([k] + q)[0] == k;
  }

  /** Text accounting for a splice: the new tree's text is the old one's with the replaced
      node's text exchanged for the run's text; in particular equal text gives equal text. */
  lemma {:induction false} SpliceText(n: Node, p: Path, repl: seq<Node>)
    requires |p| > 0 && NodeAt(n, p).Some?
    ensures |TextContent(Splice(n, p, repl))| + |TextContent(NodeAt(n, p).value)|
            == |TextContent(n)| + |ForestText(repl)|
    ensures ForestText(repl) == TextContent(NodeAt(n, p).value) ==>
            TextContent(Splice(n, p, repl)) == TextContent(n)
    decreases |p|
  {
    var cs, k := n.children, p[0];
    var cs' := Splice(n, p, repl).children;
    ForestTextAt(cs, k);
    if |p| == 1 {
      assert cs' == cs[..k] + repl + cs[k + 1..];
      ForestTextAppend(cs[..k] + repl, cs[k + 1..]);
      ForestTextAppend(cs[..k], repl);
    } else {
      var c' := Splice(cs[k], p[1..], repl);
      assert cs' == cs[k := c'];
      SpliceText(cs[k], p[1..], repl);
      ForestTextAt(cs', k);
      assert cs'[..k] == cs[..k] && cs'[k + 1..] == cs[k + 1..];
    }
  }

  /** Mark accounting for a splice: the replaced subtree's marks go, the run's marks come. */
  lemma {:induction false} SpliceMarkCount(n: Node, p: Path, repl: seq<Node>)
    requires |p| > 0 && NodeAt(n, p).Some?
    ensures MarkCount(Splice(n, p, repl)) + MarkCount(NodeAt(n, p).value)
            == MarkCount(n) + ForestMarkCount(repl)
    decreases |p|
  {
    var cs, k := n.children, p[0];
    var cs' := Splice(n, p, repl).children;
    ForestMarkCountAt(cs, k);
    if |p| == 1 {
      assert cs' == cs[..k] + repl + cs[k + 1..];
      ForestMarkCountAppend(cs[..k] + repl, cs[k + 1..]);
      ForestMarkCountAppend(cs[..k], repl);
    } else {
      var c' := Splice(cs[k], p[1..], repl);
      assert cs' == cs[k := c'];
      SpliceMarkCount(cs[k], p[1..], repl);
      ForestMarkCountAt(cs', k);
      assert cs'[..k] == cs[..k] && cs'[k + 1..] == cs[k + 1..];
    }
  }

  /** Replacing a node by a single text node creates no mark: a mark of the new tree was
      already a mark, at the same path, of the old one, and is not the replaced node. */
  lemma {:induction false} SpliceTextKeepsMarks(n: Node, q: Path, t: string, p: Path)
    requires |q| > 0 && NodeAt(n, q).Some?
    ensures IsMarkAt(Splice(n, q, [Text(t)]), p) ==> IsMarkAt(n, p) && p != q
    decreases |p|
  {
    var n' := Splice(n, q, [Text(t)]);
    var k := q[0];
    if p != [] {
      var j := p[0];
      var cs, cs' := n.children, n'.children;
      if |q| == 1 {
        assert cs' == cs[..k] + [Text(t)] + cs[k + 1..];
        if j < |cs| {
          NodeAtChild(n', j, p[1..]);
          NodeAtChild(n, j, p[1..]);
          assert p == [j] + p[1..];
          if j == k {
            assert cs'[j] == Text(t);
            assert !IsMarkAt(Text(t), p[1..]);
          } else {
            assert cs'[j] == cs[j];
          }
        }
      } else {
        assert cs' == cs[k := Splice(cs[k], q[1..], [Text(t)])];
        if j < |cs| {
          NodeAtChild(n', j, p[1..]);
          NodeAtChild(n, j, p[1..]);
          assert p == [j] + p[1..];
          if j == k {
            SpliceTextKeepsMarks(cs[k], q[1..], t, p[1..]);
            assert q == [k] + q[1..];
          }
        }
      }
    }
  }

  // ---------------------------------------------------------------------------------------
  // Pre-order traversal
  // ---------------------------------------------------------------------------------------

  /** Document order: `p` comes before `q` when it is an ancestor of `q`, or when, at the
      first step where the two paths part, `p` turns to an earlier child. */
  predicate Before(p: Path, q: Path) {
    var d := Diverge(p, q);
    d < |q| && (d == |p| || p[d] < q[d])
  }

  /** The paths are listed in document order, so none is listed twice. */
  predicate InOrder(ps: seq<Path>) {
    forall i, j :: 0 <= i < j < |ps| ==> Before(ps[i], ps[j])
  }

  /** Two paths that agree on their first `d` steps and differ at step `d` (or end there)
      part at `d`. */
  lemma {:induction false} DivergeIs(p: Path, q: Path, d: nat)
    requires d <= |p| && d <= |q| && p[..d] == q[..d]
    requires d < |p| && d < |q| ==> p[d] != q[d]
    ensures Diverge(p, q) == d
    decreases d
  {
    if d > 0 {
      assert p[0] == p[..d][0] && q[0] == q[..d][0];
      assert p[1..][..d - 1] == p[..d][1..] && q[1..][..d - 1] == q[..d][1..];
      DivergeIs(p[1..], q[1..], d - 1);
    }
  }

  /** Document order never runs both ways. */
  lemma BeforeAntisymmetric(p: Path, q: Path)
    ensures !(Before(p, q) && Before(q, p))
  {
    var d := Diverge(p, q);
    DivergeIs(q, p, d);
  }

  /** A path comes before another that agrees with it on `d` steps and then turns later. */
  lemma BeforeAt(p: Path, q: Path, d: nat)
    requires d < |p| && d < |q| && p[..d] == q[..d] && p[d] < q[d]
    ensures Before(p, q)
  {
    DivergeIs(p, q, d);
  }

  /** The root comes before every other node. */
  lemma BeforeRoot(q: Path)
    requires |q| > 0
    ensures Before([], q)
  {
  }

  /** A node in an earlier child comes before a node in a later one. */
  lemma BeforeHead(p: Path, q: Path)
    requires |p| > 0 && |q| > 0 && p[0] < q[0]
    ensures Before(p, q)
  {
  }

  /** Order within one child is kept when the child's index is put in front. */
  lemma BeforeCons(i: nat, p: Path, q: Path)
    requires Before(p, q)
    ensures Before([i] + p, [i] + q)
  {
    assert ([i] + p)[1..] == p && ([i] + q)[1..] == q;
  }

  lemma ConcatInOrder(a: seq<Path>, b: seq<Path>)
    requires InOrder(a) && InOrder(b)
    requires forall x, y :: 0 <= x < |a| && 0 <= y < |b| ==> Before(a[x], b[y])
    ensures InOrder(a + b)
  {
    forall i, j | 0 <= i < j < |a + b| ensures Before((a + b)[i], (a + b)[j]) {
      if j < |a| {
        assert (a + b)[i] == a[i] && (a + b)[j] == a[j];
      } else if i < |a| {
        assert (a + b)[i] == a[i] && (a + b)[j] == b[j - |a|];
      } else {
        assert (a + b)[i] == b[i - |a|] && (a + b)[j] == b[j - |a|];
      }
    }
  }

  /** The paths of every node of the subtree in pre-order (document order), root first. */
  function AllPaths(n: Node): (ps: seq<Path>)
    ensures |ps| > 0 && ps[0] == [] && InOrder(ps)
    decreases n
  {
    var cps := if n.Text? then [] else ChildPaths(n.children, 0);
    forall y | 0 <= y < |cps| ensures Before([[]][0], cps[y]) {
      BeforeRoot(cps[y]);
    }
    ConcatInOrder([[]], cps);
    [[]] + cps
  }

  function ChildPaths(ns: seq<Node>, offset: nat): (ps: seq<Path>)
    ensures InOrder(ps)
    ensures forall i :: 0 <= i < |ps| ==> |ps[i]| > 0 && offset <= ps[i][0] < offset + |ns|
    decreases ns
  {
    if ns == [] then []
    else
      var first := Prefixed(offset, AllPaths(ns[0]));
      var rest := ChildPaths(ns[1..], offset + 1);
      PrefixedInOrder(offset, AllPaths(ns[0]));
      forall x, y | 0 <= x < |first| && 0 <= y < |rest| ensures Before(first[x], rest[y]) {
        BeforeHead(first[x], rest[y]);
      }
      ConcatInOrder(first, rest);
      first + rest
  }

  function Prefixed(i: nat, ps: seq<Path>): (r: seq<Path>)
    ensures |r| == |ps| && forall k :: 0 <= k < |ps| ==> r[k] == [i] + ps[k]
  {
    seq(|ps|, k requires 0 <= k < |ps| => [i] + ps[k])
  }

  lemma PrefixedInOrder(i: nat, ps: seq<Path>)
    requires InOrder(ps)
    ensures InOrder(Prefixed(i, ps))
  {
    var r := Prefixed(i, ps);
    forall x, y | 0 <= x < y < |r| ensures Before(r[x], r[y]) {
      BeforeCons(i, ps[x], ps[y]);
    }
  }

  lemma {:induction false} ChildPathsContain(ns: seq<Node>, offset: nat, j: nat, q: Path)
    requires j < |ns| && q in AllPaths(ns[j])
    ensures [offset + j] + q in ChildPaths(ns, offset)
    decreases j
  {
    var first := Prefixed(offset, AllPaths(ns[0]));
    var rest := ChildPaths(ns[1..], offset + 1);
    assert ChildPaths(ns, offset) == first + rest;
    if j == 0 {
      PrefixedContains(offset, AllPaths(ns[0]), q);
      InConcat(first, rest, [offset] + q);
    } else {
      assert ns[1..][j - 1] == ns[j];
      ChildPathsContain(ns[1..], offset + 1, j - 1, q);
      InConcat(first, rest, [offset + j] + q);
    }
  }

  lemma PrefixedContains(i: nat, ps: seq<Path>, q: Path)
    requires q in ps
    ensures [i] + q in Prefixed(i, ps)
  {
    var x :| 0 <= x < |ps| && ps[x] == q;
    assert Prefixed(i, ps)[x] == [i] + q;
  }

  lemma InConcat<T>(a: seq<T>, b: seq<T>, x: T)
    ensures x in a ==> x in a + b
    ensures x in b ==> x in a + b
  {
    if x in b {
      var y :| 0 <= y < |b| && b[y] == x;
      assert (a + b)[|a| + y] == x;
    }
  }

  /** The traversal misses no node: every path that leads somewhere is listed. */
  lemma {:induction false} AllPathsComplete(n: Node, p: Path)
    requires NodeAt(n, p).Some?
    ensures p in AllPaths(n)
    decreases |p|
  {
    if p != [] {
      var k := p[0];
      AllPathsComplete(n.children[k], p[1..]);
      ChildPathsContain(n.children, 0, k, p[1..]);
      assert p == [k] + p[1..];
    }
  }

  /** `querySelectorAll`: the paths, in document order, of the nodes the selector matches,
      each once. */
  function Matching(n: Node, sel: Node -> bool): (ps: seq<Path>)
    ensures forall i :: 0 <= i < |ps| ==> NodeAt(n, ps[i]).Some? && sel(NodeAt(n, ps[i]).value)
    ensures forall p :: NodeAt(n, p).Some? && sel(NodeAt(n, p).value) ==> p in ps
    ensures ps == [] <==> forall p :: !(NodeAt(n, p).Some? && sel(NodeAt(n, p).value))
    ensures InOrder(ps)
  {
    var ps := MatchingAmong(n, AllPaths(n), sel);
    forall p | NodeAt(n, p).Some? && sel(NodeAt(n, p).value) ensures p in ps {
      AllPathsComplete(n, p);
    }
    MatchingAmongInOrder(n, AllPaths(n), sel);
    assert ps != [] ==> NodeAt(n, ps[0]).Some? && sel(NodeAt(n, ps[0]).value);
    ps
  }

  function MatchingAmong(n: Node, ps: seq<Path>, sel: Node -> bool): (ms: seq<Path>)
    ensures forall i :: 0 <= i < |ms| ==> NodeAt(n, ms[i]).Some? && sel(NodeAt(n, ms[i]).value)
    ensures forall i :: 0 <= i < |ms| ==> ms[i] in ps
    ensures forall p :: p in ps && NodeAt(n, p).Some? && sel(NodeAt(n, p).value) ==> p in ms
    decreases |ps|
  {
    if ps == [] then []
    else (if NodeAt(n, ps[0]).Some? && sel(NodeAt(n, ps[0]).value) then [ps[0]] else [])
         + MatchingAmong(n, ps[1..], sel)
  }

  /** Picking paths out of a list in document order keeps them in document order. */
  lemma {:induction false} MatchingAmongInOrder(n: Node, ps: seq<Path>, sel: Node -> bool)
    requires InOrder(ps)
    ensures InOrder(MatchingAmong(n, ps, sel))
    decreases |ps|
  {
    if ps != [] {
      var tail := ps[1..];
      assert InOrder(tail) by {
        forall i, j | 0 <= i < j < |tail| ensures Before(tail[i], tail[j]) {
          assert tail[i] == ps[i + 1] && tail[j] == ps[j + 1];
        }
      }
      MatchingAmongInOrder(n, tail, sel);
      var head := if NodeAt(n, ps[0]).Some? && sel(NodeAt(n, ps[0]).value) then [ps[0]] else [];
      var rest := MatchingAmong(n, tail, sel);
      forall x, y | 0 <= x < |head| && 0 <= y < |rest| ensures Before(head[x], rest[y]) {
        HeadBefore(ps, rest[y]);
      }
      ConcatInOrder(head, rest);
    }
  }

  lemma HeadBefore(ps: seq<Path>, q: Path)
    requires InOrder(ps) && |ps| > 0 && q in ps[1..]
    ensures Before(ps[0], q)
  {
    var k :| 0 <= k < |ps[1..]| && ps[1..][k] == q;
    assert ps[k + 1] == q;
  }

  /** In a list in document order, the entry at `i` comes before every other entry that is
      not listed earlier. */
  lemma EarliestBefore(ps: seq<Path>, i: nat, q: Path)
    requires InOrder(ps) && i < |ps| && q in ps && q != ps[i]
    requires forall j :: 0 <= j < i ==> ps[j] != q
    ensures Before(ps[i], q)
  {
    var k :| 0 <= k < |ps| && ps[k] == q;
  }

  /** The node at `a` matches the selector and comes first in document order among the
      nodes that match: what `querySelector` returns. */
  ghost predicate FirstMatch(n: Node, sel: Node -> bool, a: Path) {
    NodeAt(n, a).Some? && sel(NodeAt(n, a).value)
    && forall q :: NodeAt(n, q).Some? && sel(NodeAt(n, q).value) && q != a ==> Before(a, q)
  }

  /** The first entry of `querySelectorAll` is the node `querySelector` returns. */
  lemma MatchingFirst(n: Node, sel: Node -> bool, p: Path)
    requires NodeAt(n, p).Some? && sel(NodeAt(n, p).value)
    ensures |Matching(n, sel)| > 0 && FirstMatch(n, sel, Matching(n, sel)[0])
    ensures forall a :: FirstMatch(n, sel, a) ==> a == Matching(n, sel)[0]
  {
    var ps := Matching(n, sel);
    forall q | NodeAt(n, q).Some? && sel(NodeAt(n, q).value) && q != ps[0] ensures Before(ps[0], q) {
      EarliestBefore(ps, 0, q);
    }
    forall a | FirstMatch(n, sel, a) ensures a == ps[0] {
      if a != ps[0] {
        BeforeAntisymmetric(a, ps[0]);
        assert false;
      }
    }
  }

  /** Two lists in document order with the same entries are the same list. */
  lemma {:induction false} InOrderUnique(a: seq<Path>, b: seq<Path>)
    requires InOrder(a) && InOrder(b)
    requires forall x :: x in a <==> x in b
    ensures a == b
    decreases |a|
  {
    if a == [] {
      if b != [] {
        HeadIn(b);
        assert false;
      }
    } else {
      assert a[0] in b;
      if a[0] != b[0] {
        EarliestBefore(b, 0, a[0]);
        EarliestBefore(a, 0, b[0]);
        BeforeAntisymmetric(a[0], b[0]);
        assert false;
      }
      var ta, tb := a[1..], b[1..];
      InOrderTail(a);
      InOrderTail(b);
      forall x ensures x in ta <==> x in tb {
        TailEntry(a, x);
        TailEntry(b, x);
      }
      InOrderUnique(ta, tb);
      assert a == [a[0]] + ta && b == [b[0]] + tb;
    }
  }

  lemma HeadIn<T>(xs: seq<T>)
    requires xs != []
    ensures xs[0] in xs
  {
  }

  lemma InOrderTail(ps: seq<Path>)
    requires InOrder(ps) && |ps| > 0
    ensures InOrder(ps[1..])
  {
    var t := ps[1..];
    forall i, j | 0 <= i < j < |t| ensures Before(t[i], t[j]) {
      assert t[i] == ps[i + 1] && t[j] == ps[j + 1];
    }
  }

  /** In a list in document order, the entries after the first are the others. */
  lemma TailEntry(ps: seq<Path>, x: Path)
    requires InOrder(ps) && |ps| > 0
    ensures x in ps[1..] <==> x in ps && x != ps[0]
  {
    if x in ps[1..] {
      var k :| 0 <= k < |ps[1..]| && ps[1..][k] == x;
      assert Before(ps[0], ps[k + 1]);
    }
    if x in ps && x != ps[0] {
      var k :| 0 <= k < |ps| && ps[k] == x;
      assert ps[1..][k - 1] == x;
    }
  }

  /** A node with a descendant is an element. */
  lemma {:induction false} AncestorElement(n: Node, a: Path, b: Path)
    requires NodeAt(n, a + b).Some? && b != []
    ensures NodeAt(n, a).Some? && NodeAt(n, a).value.Element?
    decreases |a|
  {
    if a == [] {
      assert a + b == b;
    } else {
      assert (a + b)[0] == a[0] && (a + b)[1..] == a[1..] + b;
      AncestorElement(n.children[a[0]], a[1..], b);
    }
  }

  // ---------------------------------------------------------------------------------------
  // Removing marks
  // ---------------------------------------------------------------------------------------

  /** The tree after every outermost mark has been replaced, in place, by one text node
      holding its text content (marks nested inside it vanish with it). The page text is
      kept and no mark is left. */
  function Unmark(n: Node): (r: Node)
    ensures TextContent(r) == TextContent(n) && MarkCount(r) == 0
    decreases n
  {
    match n
    case Text(_) => n
    case Element(tag, classes, style, cs) =>
      if IsMark(n) then Text(ForestText(cs)) else Element(tag, classes, style, UnmarkForest(cs))
  }

  function UnmarkForest(ns: seq<Node>): (r: seq<Node>)
    ensures |r| == |ns| && forall i :: 0 <= i < |ns| ==> r[i] == Unmark(ns[i])
    ensures ForestText(r) == ForestText(ns) && ForestMarkCount(r) == 0
    decreases ns
  {
    if ns == [] then []
    else
      var r := [Unmark(ns[0])] + UnmarkForest(ns[1..]);
      assert r[0] == Unmark(ns[0]) && r[1..] == UnmarkForest(ns[1..]);
      r
  }

  /** No mark survives unmarking. */
  lemma {:induction false} UnmarkLeavesNoMark(n: Node, p: Path)
    ensures !IsMarkAt(Unmark(n), p)
    decreases |p|
  {
    if p != [] && Unmark(n).Element? && p[0] < |Unmark(n).children| {
      var k := p[0];
      assert Unmark(n).children[k] == Unmark(n.children[k]);
      UnmarkLeavesNoMark(n.children[k], p[1..]);
    }
  }

  /** A tree without marks is its own unmarking. */
  lemma {:induction false} UnmarkFixed(n: Node)
    requires forall p :: !IsMarkAt(n, p)
    ensures Unmark(n) == n
    decreases n
  {
    assert !IsMarkAt(n, []);
    if n.Element? {
      var cs := n.children;
      forall k | 0 <= k < |cs| ensures Unmark(cs[k]) == cs[k] {
        forall q ensures !IsMarkAt(cs[k], q) {
          NodeAtChild(n, k, q);
          assert !IsMarkAt(n, [k] + q);
        }
        UnmarkFixed(cs[k]);
      }
      assert UnmarkForest(cs) == cs;
    }
  }

  /** Replacing a subtree by one with the same text and the same unmarking leaves the
      unmarking of the whole tree unchanged. */
  lemma {:induction false} SpliceUnmark(n: Node, p: Path, r: Node)
    requires |p| > 0 && NodeAt(n, p).Some?
    requires TextContent(r) == TextContent(NodeAt(n, p).value)
    requires Unmark(r) == Unmark(NodeAt(n, p).value)
    ensures Unmark(Splice(n, p, [r])) == Unmark(n)
    decreases |p|
  {
    var cs, k := n.children, p[0];
    if |p| == 1 {
      SingleSplice(cs, k, r);
      ReplaceChild(cs, k, r);
    } else {
      var c' := Splice(cs[k], p[1..], [r]);
      SpliceText(cs[k], p[1..], [r]);
      assert ForestText([r]) == TextContent(r) by { assert [r][1..] == []; }
      SpliceUnmark(cs[k], p[1..], r);
      ReplaceChild(cs, k, c');
    }
  }

  /** Splicing a single node over position `k` is replacing the child at `k`. */
  lemma SingleSplice(cs: seq<Node>, k: nat, r: Node)
    requires k < |cs|
    ensures cs[..k] + [r] + cs[k + 1..] == cs[k := r]
  {
  }

  /** Replacing one child by a node with the same text and the same unmarking keeps the
      text and the unmarking of the child list. */
  lemma ReplaceChild(cs: seq<Node>, k: nat, c: Node)
    requires k < |cs| && TextContent(c) == TextContent(cs[k]) && Unmark(c) == Unmark(cs[k])
    ensures ForestText(cs[k := c]) == ForestText(cs)
    ensures UnmarkForest(cs[k := c]) == UnmarkForest(cs)
  {
    var cs' := cs[k := c];
    ForestTextAt(cs, k);
    ForestTextAt(cs', k);
    assert cs'[..k] == cs[..k] && cs'[k + 1..] == cs[k + 1..];
    var u, u' := UnmarkForest(cs), UnmarkForest(cs');
    assert |u| == |u'|;
    forall i | 0 <= i < |u| ensures u'[i] == u[i] {
      if i != k { assert cs'[i] == cs[i]; }
    }
  }
}
