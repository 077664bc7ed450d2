/**
 * The content script injected into every page: it extracts the article text for the popup,
 * and on a highlight request it removes the previous highlights and wraps the first text
 * node occurrence of each sentence in a `<mark class="ai-highlight">`.
 */
module ContentScript {
  import opened Common
  import opened JsString
  import opened Dom

  /** `element.innerText`: the rendered text of an element, which depends on layout and
      style and so is taken as given. */
  type InnerText = Node -> string

  predicate IsArticle(n: Node) { n.Element? && n.tag == "article" }

  predicate IsParagraph(n: Node) { n.Element? && n.tag == "p" }

  /** The paragraph separator of the fallback extraction. */
  const ParagraphSeparator := "\n\n"

  // ---------------------------------------------------------------------------------------
  // Extracting the article text
  // ---------------------------------------------------------------------------------------

  /** The rendered text of the nodes at the given paths, in order. */
  function TextsAt(body: Node, ps: seq<Path>, innerText: InnerText): (ts: seq<string>)
    requires forall i :: 0 <= i < |ps| ==> NodeAt(body, ps[i]).Some?
    ensures |ts| == |ps| && forall i :: 0 <= i < |ps| ==> ts[i] == innerText(NodeAt(body, ps[i]).value)
  {
    seq(|ps|, i requires 0 <= i < |ps| => innerText(NodeAt(body, ps[i]).value))
  }

  /** `getArticleText`: the text of the first `<article>` if the page has one, otherwise the
      text of every `<p>` joined by blank lines. */
  function GetArticleText(body: Node, innerText: InnerText): (r: string)
    ensures forall a :: FirstMatch(body, IsArticle, a) ==> r == innerText(NodeAt(body, a).value)
  {
    var articles := Matching(body, IsArticle);
    if |articles| > 0 then
      MatchingFirst(body, IsArticle, articles[0]);
      innerText(NodeAt(body, articles[0]).value)
    else Join(TextsAt(body, Matching(body, IsParagraph), innerText), ParagraphSeparator)
  }

  /** A page with an article yields the text of its first article in document order. */
  lemma ArticleWins(body: Node, innerText: InnerText, p: Path)
    requires NodeAt(body, p).Some? && IsArticle(NodeAt(body, p).value)
    ensures exists a :: FirstMatch(body, IsArticle, a)
                        && GetArticleText(body, innerText) == innerText(NodeAt(body, a).value)
  {
    MatchingFirst(body, IsArticle, p);
  }

  /** Without an article, the text of every paragraph appears in the extracted text. */
  lemma ParagraphsCovered(body: Node, innerText: InnerText, p: Path)
    requires forall q :: !(NodeAt(body, q).Some? && IsArticle(NodeAt(body, q).value))
    requires NodeAt(body, p).Some? && IsParagraph(NodeAt(body, p).value)
    ensures Includes(GetArticleText(body, innerText), innerText(NodeAt(body, p).value))
  {
    var ps := Matching(body, IsParagraph);
    var i :| 0 <= i < |ps| && ps[i] == p;
    JoinContains(TextsAt(body, ps, innerText), ParagraphSeparator, i);
  }

  /** Without an article, the extracted text is the paragraphs' texts in document order,
      separated by blank lines: `ps`, any list of the paragraphs in document order, is the
      one `querySelectorAll('p')` returns. */
  lemma ParagraphsJoined(body: Node, innerText: InnerText, ps: seq<Path>)
    requires forall q :: !(NodeAt(body, q).Some? && IsArticle(NodeAt(body, q).value))
    requires InOrder(ps)
    requires forall q :: q in ps <==> NodeAt(body, q).Some? && IsParagraph(NodeAt(body, q).value)
    ensures GetArticleText(body, innerText) == Join(TextsAt(body, ps, innerText), ParagraphSeparator)
  {
    InOrderUnique(ps, Matching(body, IsParagraph));
  }

  /** A page whose only paragraph is at `p` yields exactly that paragraph's text. */
  lemma OneParagraph(body: Node, innerText: InnerText, p: Path)
    requires forall q :: !(NodeAt(body, q).Some? && IsArticle(NodeAt(body, q).value))
    requires forall q :: NodeAt(body, q).Some? && IsParagraph(NodeAt(body, q).value) <==> q == p
    ensures GetArticleText(body, innerText) == innerText(NodeAt(body, p).value)
  {
    ParagraphsJoined(body, innerText, [p]);
  }

  /** A page whose only paragraphs are at `p1` and, later in document order, `p2` yields
      their texts with a blank line between them. */
  lemma TwoParagraphs(body: Node, innerText: InnerText, p1: Path, p2: Path)
    requires forall q :: !(NodeAt(body, q).Some? && IsArticle(NodeAt(body, q).value))
    requires forall q :: NodeAt(body, q).Some? && IsParagraph(NodeAt(body, q).value) <==> q == p1 || q == p2
    requires Before(p1, p2)
    ensures GetArticleText(body, innerText)
            == innerText(NodeAt(body, p1).value) + ParagraphSeparator + innerText(NodeAt(body, p2).value)
  {
    var ps := [p1, p2];
    assert NodeAt(body, ps[0]).Some? && NodeAt(body, ps[1]).Some?;
    ParagraphsJoined(body, innerText, ps);
    JoinTwo(TextsAt(body, ps, innerText), ParagraphSeparator);
  }

  /** A page with neither an article nor a paragraph yields the empty string. */
  lemma NothingToRead(body: Node, innerText: InnerText)
    requires forall q :: !(NodeAt(body, q).Some? && IsArticle(NodeAt(body, q).value))
    requires forall q :: !(NodeAt(body, q).Some? && IsParagraph(NodeAt(body, q).value))
    ensures GetArticleText(body, innerText) == ""
  {
    assert Matching(body, IsArticle) == [];
    assert Matching(body, IsParagraph) == [];
  }

  // ---------------------------------------------------------------------------------------
  // Highlighting one sentence
  // ---------------------------------------------------------------------------------------

  /** The tree walker over `document.body` with `SHOW_TEXT` reaches the text node at `p`
      (the walk never returns its root), and its text is non-empty and contains `s`. */
  predicate Hit(n: Node, p: Path, s: string) {
    |p| > 0 && NodeAt(n, p).Some? && NodeAt(n, p).value.Text?
    && NodeAt(n, p).value.data != "" && Includes(NodeAt(n, p).value.data, s)
  }

  /** The first position at or after `i` in `ps` that is a hit. */
  function FirstHit(n: Node, ps: seq<Path>, s: string, i: nat): (r: Option<nat>)
    requires i <= |ps|
    ensures r.Some? ==> i <= r.value < |ps| && Hit(n, ps[r.value], s)
                        && forall j :: i <= j < r.value ==> !Hit(n, ps[j], s)
    ensures r.None? ==> forall j :: i <= j < |ps| ==> !Hit(n, ps[j], s)
    decreases |ps| - i
  {
    if i == |ps| then None
    else if Hit(n, ps[i], s) then Some(i)
    else FirstHit(n, ps, s, i + 1)
  }

  /** The text node the walk stops at: the first hit in document order, if there is one. */
  function HitPath(n: Node, s: string): (r: Option<Path>)
    ensures r.Some? ==> Hit(n, r.value, s)
    ensures r.Some? ==> exists i :: 0 <= i < |AllPaths(n)| && AllPaths(n)[i] == r.value
                                    && forall j :: 0 <= j < i ==> !Hit(n, AllPaths(n)[j], s)
    ensures r.Some? ==> forall q :: Hit(n, q, s) && q != r.value ==> Before(r.value, q)
    ensures r.None? <==> forall p :: !Hit(n, p, s)
  {
    var ps := AllPaths(n);
    forall p | Hit(n, p, s) ensures p in ps {
      AllPathsComplete(n, p);
    }
    match FirstHit(n, ps, s, 0)
    case None => None
    case Some(i) =>
      forall q | Hit(n, q, s) && q != ps[i] ensures Before(ps[i], q) {
        EarliestBefore(ps, i, q);
      }
      Some(ps[i])
  }

  /** What replaces the text node: the text before the first occurrence of the sentence,
      a mark holding the sentence, and the text from the end of that occurrence up to the
      next one (or the end), as `split(sentence)` gives `parts[0]` and `parts[1]`. */
  function Highlighted(text: string, s: string): (r: seq<Node>)
    requires |s| > 0 && Includes(text, s)
    ensures |r| == 3 && r[0].Text? && r[2].Text? && r == [Text(r[0].data), NewMark(s), Text(r[2].data)]
    ensures r[0].data == text[..IndexOf(text, s).value]
    ensures |r[0].data + s + r[2].data| <= |text|
            && r[0].data + s + r[2].data == text[..|r[0].data + s + r[2].data|]
    ensures PieceEnds(text, s, |r[0].data| + |s|, |r[2].data|)
  {
    var k := IndexOf(text, s).value;
    SplitFirstTwo(text, s, k);
    SplitSecond(text, s, k);
    var parts := Split(text, s);
    [Text(parts[0]), NewMark(s), Text(parts[1])]
  }

  /** The effect of highlighting one sentence: a sentence under ten characters, or one that
      no text node contains, changes nothing; otherwise the first text node containing it
      is replaced, in place, by its highlighted form, and so the page changes exactly
      when the sentence is long enough and some text node contains it. */
  function HighlightOne(n: Node, s: string): (r: Node)
    ensures r != n <==> |s| >= 10 && exists p :: Hit(n, p, s)
  {
    if |s| < 10 then n
    else match HitPath(n, s)
      case None => n
      case Some(p) =>
        var run := Highlighted(NodeAt(n, p).value.data, s);
        SpliceMarkCount(n, p, run);
        HighlightedMarkCount(NodeAt(n, p).value.data, s);
        Splice(n, p, run)
  }

  lemma HighlightedMarkCount(text: string, s: string)
    requires |s| > 0 && Includes(text, s)
    ensures ForestMarkCount(Highlighted(text, s)) == 1
  {
    var r := Highlighted(text, s);
    MarkedRun(r[0].data, s, r[2].data);
  }

  /** Highlighting a sentence adds exactly one mark when the sentence is long enough and
      some text node contains it, and none otherwise. */
  lemma HighlightOneMarks(n: Node, s: string)
    ensures MarkCount(HighlightOne(n, s))
            == MarkCount(n) + (if |s| >= 10 && exists p :: Hit(n, p, s) then 1 else 0)
  {
    if |s| >= 10 && HitPath(n, s).Some? {
      var p := HitPath(n, s).value;
      var text := NodeAt(n, p).value.data;
      SpliceMarkCount(n, p, Highlighted(text, s));
      HighlightedMarkCount(text, s);
    }
  }

  /** Where the mark lands: the text node first in document order that contains the
      sentence gives way to `text(parts[0])`, the mark, and `text(parts[1])`, where `parts`
      is the text's split at the sentence (`SplitFirstTwo` and `SplitSecond` say what the
      two parts are); every node that is not an ancestor of the replaced text node, and is
      neither that node nor a later sibling of it nor inside one, is exactly as before. */
  lemma HighlightOnePlacement(n: Node, s: string)
    requires |s| >= 10 && exists p :: Hit(n, p, s)
    ensures var p := HitPath(n, s).value;
            var text := NodeAt(n, p).value.data;
            var r := HighlightOne(n, s);
            NodeAt(r, Sibling(p, 0)) == Some(Text(text[..IndexOf(text, s).value]))
            && NodeAt(r, Sibling(p, 1)) == Some(NewMark(s))
            && NodeAt(r, Sibling(p, 2)) == Some(Text(Split(text, s)[1]))
            && forall q :: Elsewhere(q, p) ==> NodeAt(r, q) == NodeAt(n, q)
  {
    var p := HitPath(n, s).value;
    var text := NodeAt(n, p).value.data;
    var run := Highlighted(text, s);
    HighlightedRun(text, s);
    HighlightOneAt(n, s, p);
    SpliceAt(n, p, run, 0);
    SpliceAt(n, p, run, 1);
    SpliceAt(n, p, run, 2);
    forall q | Elsewhere(q, p) ensures NodeAt(HighlightOne(n, s), q) == NodeAt(n, q) {
      SpliceElsewhere(n, p, run, q);
    }
  }

  /** The rest of the parent's child list: a later sibling of the replaced text node, and
      everything inside it, moves two places along, since one node gave way to three. */
  lemma HighlightOneShifts(n: Node, s: string, p: Path, d: nat, rest: Path)
    requires |s| >= 10 && HitPath(n, s) == Some(p) && |p| > 0 && d > 0
    ensures NodeAt(HighlightOne(n, s), Sibling(p, d + 2) + rest) == NodeAt(n, Sibling(p, d) + rest)
  {
    HighlightOneAt(n, s, p);
    SpliceShiftsAfter(n, p, Highlighted(NodeAt(n, p).value.data, s), d, rest);
  }

  /** On a hit, highlighting is the splice of the highlighted run at the hit. */
  lemma HighlightOneAt(n: Node, s: string, p: Path)
    requires |s| >= 10 && HitPath(n, s) == Some(p)
    ensures Hit(n, p, s) && HighlightOne(n, s) == Splice(n, p, Highlighted(NodeAt(n, p).value.data, s))
  {
  }

  /** The run is `text(parts[0])`, the mark, `text(parts[1])`. */
  lemma HighlightedRun(text: string, s: string)
    requires |s| > 0 && Includes(text, s)
    ensures Highlighted(text, s)
            == [Text(text[..IndexOf(text, s).value]), NewMark(s), Text(Split(text, s)[1])]
  {
    SplitFirstTwo(text, s, IndexOf(text, s).value);
  }

  /** The mark a second highlighting of the same sentence leaves inside the first: an empty
      text, the inner mark, and an empty text. */
  function NestedMark(s: string): (m: Node)
    ensures IsMark(m) && ForestMarkCount(m.children) == 1
  {
    MarkedRun("", s, "");
    NewMark(s).(children := [Text(""), NewMark(s), Text("")])
  }

  /** Marks are not skipped when the page is searched: highlighting the same sentence again
      stops at the text inside the mark just made, the first hit in document order now, and
      nests a second mark there, between two empty text nodes. */
  lemma HighlightTwiceNests(n: Node, s: string)
    requires |s| >= 10 && exists p :: Hit(n, p, s)
    ensures var m := Sibling(HitPath(n, s).value, 1);
            var r := HighlightOne(n, s);
            HitPath(r, s) == Some(m + [0])
            && NodeAt(HighlightOne(r, s), m) == Some(NestedMark(s))
            && MarkCount(HighlightOne(r, s)) == MarkCount(n) + 2
  {
    var p := HitPath(n, s).value;
    var r := HighlightOne(n, s);
    SecondHitPath(n, s);
    HighlightOnePlacement(n, s);
    NestInMark(r, Sibling(p, 1), s);
    HighlightOneAdds(n, s, p);
    HighlightOneAdds(r, s, Sibling(p, 1) + [0]);
  }

  /** Highlighting a sentence whose first hit is the text of a fresh mark for it nests a
      second mark inside the first. */
  lemma NestInMark(r: Node, m: Path, s: string)
    requires |s| >= 10 && NodeAt(r, m) == Some(NewMark(s)) && HitPath(r, s) == Some(m + [0])
    ensures NodeAt(HighlightOne(r, s), m) == Some(NestedMark(s))
  {
    NodeAtConcat(r, m, [0]);
    NodeAtChild(NewMark(s), 0, []);
    SentenceInItself(s);
    var run := Highlighted(s, s);
    assert HighlightOne(r, s) == Splice(r, m + [0], run);
    SpliceBelow(r, m, [0], run);
    SpliceInto(s, run);
  }

  /** Splicing a run over a fresh mark's one text node makes the run its children. */
  lemma SpliceInto(s: string, run: seq<Node>)
    requires run == [Text(""), NewMark(s), Text("")]
    ensures NodeAt(NewMark(s), [0]).Some? && Splice(NewMark(s), [0], run) == NestedMark(s)
  {
    var cs := NewMark(s).children;
    assert cs == [Text(s)];
    assert cs[..0] + run + cs[1..] == run;
  }

  /** The sentence highlighted inside its own text: nothing before it, nothing after. */
  lemma SentenceInItself(s: string)
    requires |s| > 0
    ensures Includes(s, s) && Highlighted(s, s) == [Text(""), NewMark(s), Text("")]
  {
    assert OccursAt(s, s, 0) by { assert s[0..|s|] == s; }
    assert IndexOf(s, s) == Some(0);
  }

  /** After the first highlighting, the text inside the new mark is the first hit. */
  lemma SecondHitPath(n: Node, s: string)
    requires |s| >= 10 && exists p :: Hit(n, p, s)
    ensures var x := Sibling(HitPath(n, s).value, 1) + [0];
            HitPath(HighlightOne(n, s), s) == Some(x)
  {
    var p := HitPath(n, s).value;
    var text := NodeAt(n, p).value.data;
    var run := Highlighted(text, s);
    var r := HighlightOne(n, s);
    assert r == Splice(n, p, run);
    var m := Sibling(p, 1);
    var x := m + [0];
    SpliceAt(n, p, run, 0);
    SiblingZero(p);
    SpliceAt(n, p, run, 1);
    HeadFree(text, s, IndexOf(text, s).value);
    forall q | Elsewhere(q, p) ensures NodeAt(r, q) == NodeAt(n, q) {
      SpliceElsewhere(n, p, run, q);
    }
    MarkIsHit(r, m, s);
    forall q ensures !Hit(r, q, s) || q == x || Before(x, q) {
      LaterHit(n, r, p, s, run[0].data, q);
    }
    var h := HitPath(r, s).value;
    if h != x {
      BeforeAntisymmetric(h, x);
      assert false;
    }
  }

  /** Where the splice put the prefix text and the mark, a hit of the new tree other than
      the text inside the mark comes after that text in document order. */
  lemma LaterHit(n: Node, r: Node, p: Path, s: string, pre: string, q: Path)
    requires |p| > 0 && |s| > 0
    requires NodeAt(r, p) == Some(Text(pre)) && !Includes(pre, s)
    requires NodeAt(r, Sibling(p, 1)) == Some(NewMark(s))
    requires forall q :: Elsewhere(q, p) ==> NodeAt(r, q) == NodeAt(n, q)
    requires forall q :: Hit(n, q, s) && q != p ==> Before(p, q)
    ensures !Hit(r, q, s) || q == Sibling(p, 1) + [0] || Before(Sibling(p, 1) + [0], q)
  {
    var d := Diverge(q, p);
    if d == |q| && d < |p| {
      AncestorNoHit(r, p, s, q);
    } else if d == |p| && d < |q| {
      BelowText(r, p, q[|p|..]);
      assert q == p + q[|p|..] by { assert q[..|p|] == p; }
    } else if d < |q| && d < |p| {
      if q[d] < p[d] {
        EarlierNoHit(n, r, p, s, q);
      } else if d < |p| - 1 || q[d] > p[d] + 1 {
        AfterMark(p, q);
      } else {
        InMarkOnly(r, p, s, q);
      }
    } else {
      assert q == q[..d] == p[..d] == p;
    }
  }

  /** A node above the hit holds the mark below it, so it is an element and no hit. */
  lemma AncestorNoHit(r: Node, p: Path, s: string, q: Path)
    requires |p| > 0 && NodeAt(r, Sibling(p, 1)) == Some(NewMark(s))
    requires Diverge(q, p) == |q| && |q| < |p|
    ensures !Hit(r, q, s)
  {
    var m := Sibling(p, 1);
    assert m == q + m[|q|..] by { assert m[..|q|] == q; }
    AncestorElement(r, q, m[|q|..]);
  }

  /** A node before the hit in document order, outside the spliced run, is no hit. */
  lemma EarlierNoHit(n: Node, r: Node, p: Path, s: string, q: Path)
    requires Diverge(q, p) < |q| && Diverge(q, p) < |p| && q[Diverge(q, p)] < p[Diverge(q, p)]
    requires forall q :: Elsewhere(q, p) ==> NodeAt(r, q) == NodeAt(n, q)
    requires forall q :: Hit(n, q, s) && q != p ==> Before(p, q)
    ensures !Hit(r, q, s)
  {
    var d := Diverge(q, p);
    assert Elsewhere(q, p);
    BeforeAt(q, p, d);
    if Hit(r, q, s) {
      assert Hit(n, q, s) && q != p;
      BeforeAntisymmetric(p, q);
      assert false;
    }
  }

  /** A path leaving the hit's parent, or past the mark among its siblings, comes after
      the text inside the mark. */
  lemma AfterMark(p: Path, q: Path)
    requires |p| > 0 && Diverge(q, p) < |q| && Diverge(q, p) < |p| && q[Diverge(q, p)] >= p[Diverge(q, p)]
    requires Diverge(q, p) < |p| - 1 || q[Diverge(q, p)] > p[Diverge(q, p)] + 1
    ensures Before(Sibling(p, 1) + [0], q)
  {
    var d := Diverge(q, p);
    var x := Sibling(p, 1) + [0];
    assert x[..d] == q[..d] && x[d] < q[d];
    BeforeAt(x, q, d);
  }

  /** Below the mark, the only text node is the one inside it. */
  lemma InMarkOnly(r: Node, p: Path, s: string, q: Path)
    requires |p| > 0 && NodeAt(r, Sibling(p, 1)) == Some(NewMark(s))
    requires Diverge(q, p) == |p| - 1 && |p| <= |q| && q[|p| - 1] == p[|p| - 1] + 1
    ensures !Hit(r, q, s) || q == Sibling(p, 1) + [0]
  {
    var m := Sibling(p, 1);
    assert q[..|p|] == m;
    var y := q[|p|..];
    assert q == m + y;
    NodeAtConcat(r, m, y);
    InsideMark(s, y);
    assert y == [0] ==> q == m + [0];
  }

  /** Nothing lies below a text node. */
  lemma BelowText(r: Node, p: Path, rest: Path)
    requires NodeAt(r, p).Some? && NodeAt(r, p).value.Text? && rest != []
    ensures NodeAt(r, p + rest) == None
  {
    NodeAtConcat(r, p, rest);
  }

  /** Inside a fresh mark the only text node is its first child. */
  lemma InsideMark(s: string, y: Path)
    ensures y == [0] || NodeAt(NewMark(s), y).None? || !NodeAt(NewMark(s), y).value.Text?
  {
    if y != [] && y[0] == 0 && |y| > 1 {
      NodeAtChild(NewMark(s), 0, y[1..]);
      assert y == [0] + y[1..];
    }
  }

  lemma HighlightOneAdds(n: Node, s: string, p: Path)
    requires |s| >= 10 && Hit(n, p, s)
    ensures MarkCount(HighlightOne(n, s)) == MarkCount(n) + 1
  {
    HighlightOneMarks(n, s);
  }

  /** The text inside a highlight mark is a hit for its own sentence. */
  lemma MarkIsHit(r: Node, m: Path, s: string)
    requires s != "" && NodeAt(r, m) == Some(NewMark(s))
    ensures Hit(r, m + [0], s)
  {
    NodeAtConcat(r, m, [0]);
    assert NodeAt(NewMark(s), [0]) == Some(Text(s)) by {
      NodeAtChild(NewMark(s), 0, []);
    }
    assert OccursAt(s, s, 0) by { assert s[0..|s|] == s; }
  }

  /** Text accounting: highlighting a sentence that occurs once in the text node it lands
      in keeps the page's text; the leftover pieces rebuild the node exactly. */
  lemma HighlightKeepsText(n: Node, s: string, p: Path, k: nat)
    requires |s| >= 10 && HitPath(n, s) == Some(p)
    requires OccursAt(NodeAt(n, p).value.data, s, k)
    requires forall j: nat :: OccursAt(NodeAt(n, p).value.data, s, j) ==> j == k
    ensures TextContent(HighlightOne(n, s)) == TextContent(n)
  {
    var text := NodeAt(n, p).value.data;
    var r := Highlighted(text, s);
    SplitUnique(text, s, k);
    MarkedRun(r[0].data, s, r[2].data);
    SpliceText(n, p, r);
  }

  /** Text accounting: when the sentence occurs twice, without overlap, in the text node it
      lands in, the page loses at least a sentence's worth of text, because only
      `parts[0]` and `parts[1]` are put back. */
  lemma HighlightLosesText(n: Node, s: string, p: Path, i: nat, j: nat)
    requires |s| >= 10 && HitPath(n, s) == Some(p)
    requires OccursAt(NodeAt(n, p).value.data, s, i) && OccursAt(NodeAt(n, p).value.data, s, j)
    requires i + |s| <= j
    ensures |TextContent(HighlightOne(n, s))| + |s| <= |TextContent(n)|
  {
    var text := NodeAt(n, p).value.data;
    var r := Highlighted(text, s);
    SplitTwice(text, s, i, j);
    MarkedRun(r[0].data, s, r[2].data);
    SpliceText(n, p, r);
  }

  /** The effect of the whole sentence loop, one sentence after another: each sentence
      adds at most one mark, and the root element stays what it was. */
  function HighlightAll(n: Node, ss: seq<string>): (r: Node)
    ensures MarkCount(r) <= MarkCount(n) + |ss|
    ensures n.Element? ==> r.Element? && r.tag == n.tag && r.classes == n.classes && r.style == n.style
    decreases |ss|
  {
    if ss == [] then n
    else
      var m := HighlightAll(n, ss[..|ss| - 1]);
      HighlightOneMarks(m, ss[|ss| - 1]);
      HighlightOne(m, ss[|ss| - 1])
  }

  /** After a highlight request the page holds at most one mark per sentence: the old
      marks are all gone. */
  lemma HighlightRequestMarks(n: Node, ss: seq<string>)
    ensures MarkCount(HighlightAll(Unmark(n), ss)) <= |ss|
  {
  }

  // ---------------------------------------------------------------------------------------
  // The page and the message handler
  // ---------------------------------------------------------------------------------------

  /** A message from the popup: its `type` and, for a highlight request, its sentences. */
  datatype Request = Request(kind: string, sentences: Option<seq<string>>)

  /** What the handler sends back through `sendResponse`. */
  datatype Reply = ArticleText(text: string) | Status(status: string)

  /** `querySelectorAll('mark.ai-highlight')`: every highlight mark of the tree is listed. */
  function HighlightMarks(n: Node): (ps: seq<Path>)
    ensures forall p :: IsMarkAt(n, p) ==> p in ps
  {
    Matching(n, IsMark)
  }

  /** One turn of the reset loop over the listed marks: replacing the mark at the `i`-th
      path, if it is still there, keeps the body and its unmarking, and leaves every mark
      among the later paths. */
  lemma ResetStep(b: Node, marks: seq<Path>, i: nat)
    requires b.Element? && b.tag == "body" && i < |marks|
    requires forall q :: IsMarkAt(b, q) ==> q in marks[i..]
    ensures var p := marks[i];
            IsMarkAt(b, p) ==>
              |p| > 0
              && var b' := Splice(b, p, [Text(TextContent(NodeAt(b, p).value))]);
                 b'.Element? && b'.tag == "body" && Unmark(b') == Unmark(b)
                 && forall q :: IsMarkAt(b', q) ==> q in marks[i + 1..]
    ensures !IsMarkAt(b, marks[i]) ==> forall q :: IsMarkAt(b, q) ==> q in marks[i + 1..]
  {
    assert marks[i..] == [marks[i]] + marks[i + 1..];
    if IsMarkAt(b, marks[i]) {
      UnmarkStep(b, marks[i], marks[i + 1..]);
    }
  }

  /** One step of clearing the highlights: the mark at `p` gives way to a text node with
      its text; the body keeps its tag and its unmarking, and every mark left was already
      a mark other than `p`. */
  lemma UnmarkStep(b: Node, p: Path, rest: seq<Path>)
    requires b.Element? && b.tag == "body" && IsMarkAt(b, p)
    requires forall q :: IsMarkAt(b, q) ==> q in [p] + rest
    ensures |p| > 0
    ensures var b' := Splice(b, p, [Text(TextContent(NodeAt(b, p).value))]);
            b'.Element? && b'.tag == "body" && Unmark(b') == Unmark(b)
            && forall q :: IsMarkAt(b', q) ==> q in rest
  {
    assert p != [];
    var t := TextContent(NodeAt(b, p).value);
    assert ForestText([Text(t)]) == t by { assert [Text(t)][1..] == []; }
    SpliceUnmark(b, p, Text(t));
    forall q | IsMarkAt(Splice(b, p, [Text(t)]), q) ensures q in rest {
      SpliceTextKeepsMarks(b, p, t, q);
    }
  }

  /** The document the content script runs in, reduced to its `<body>`. */
  class Page {
    var body: Node

    predicate Valid()
      reads this
    {
      body.Element? && body.tag == "body"
    }

    constructor(b: Node)
      requires b.Element? && b.tag == "body"
      ensures Valid() && body == b
    {
      body := b;
    }

    /** Replaces every `mark.ai-highlight` element, in document order, by a text node
        holding its text; a mark inside an already replaced one is detached by then and
        leaves the page alone. */
    method ResetHighlights()
      requires Valid()
      modifies this
      ensures Valid() && body == Unmark(old(body))
    {
      var marks := HighlightMarks(body);
      var i := 0;
      while i < |marks|
        invariant 0 <= i <= |marks|
        invariant Valid()
        invariant Unmark(body) == Unmark(old(body))
        invariant forall p :: IsMarkAt(body, p) ==> p in marks[i..]
      {
        var p := marks[i];
        ResetStep(body, marks, i);
        if IsMarkAt(body, p) {
          var t := TextContent(NodeAt(body, p).value);
          body := Splice(body, p, [Text(t)]);
        }
        i := i + 1;
      }
      UnmarkFixed(body);
    }

    /** One iteration of the sentence loop: skip a sentence under ten characters, else walk
        the text nodes in document order and highlight the first that contains it. */
    method HighlightSentence(s: string)
      requires Valid()
      modifies this
      ensures Valid() && body == HighlightOne(old(body), s)
    {
      if |s| < 10 {
        return;
      }
      var walk := AllPaths(body);
      var i := 0;
      while i < |walk|
        invariant 0 <= i <= |walk|
        invariant body == old(body)
        invariant forall j :: 0 <= j < i ==> !Hit(body, walk[j], s)
      {
        var p := walk[i];
        if |p| > 0 && NodeAt(body, p).Some? && NodeAt(body, p).value.Text? {
          var text := NodeAt(body, p).value.data;
          if text != "" && Includes(text, s) {
            assert FirstHit(body, walk, s, 0) == Some(i);
            body := Splice(body, p, Highlighted(text, s));
            return;
          }
        }
        i := i + 1;
      }
      assert FirstHit(body, walk, s, 0).None?;
    }

    /** The `HIGHLIGHT_TEXT` handler's work: clear the old highlights, then highlight each
        sentence in turn. */
    method HighlightText(sentences: seq<string>)
      requires Valid()
      modifies this
      ensures Valid() && body == HighlightAll(Unmark(old(body)), sentences)
    {
      ResetHighlights();
      for i := 0 to |sentences|
        invariant Valid() && body == HighlightAll(Unmark(old(body)), sentences[..i])
      {
        HighlightSentence(sentences[i]);
        assert sentences[..i + 1][..i] == sentences[..i];
      }
      assert sentences[..|sentences|] == sentences;
    }

    /** The message listener: `GET_ARTICLE_TEXT` answers with the article text and leaves
        the page alone; `HIGHLIGHT_TEXT` clears and re-applies highlights and answers
        `success`, except that a request without sentences fails after the clearing and
        sends nothing; any other message is ignored. */
    method OnMessage(req: Request, innerText: InnerText) returns (reply: Option<Reply>)
      requires Valid()
      modifies this
      ensures Valid()
      ensures req.kind == "GET_ARTICLE_TEXT" ==>
                body == old(body) && reply == Some(ArticleText(GetArticleText(old(body), innerText)))
      ensures req.kind == "HIGHLIGHT_TEXT" && req.sentences.Some? ==>
                body == HighlightAll(Unmark(old(body)), req.sentences.value) && reply == Some(Status("success"))
      ensures req.kind == "HIGHLIGHT_TEXT" && req.sentences.None? ==>
                body == Unmark(old(body)) && reply == None
      ensures req.kind != "GET_ARTICLE_TEXT" && req.kind != "HIGHLIGHT_TEXT" ==>
                body == old(body) && reply == None
    {
      reply := None;
      if req.kind == "GET_ARTICLE_TEXT" {
        reply := Some(ArticleText(GetArticleText(body, innerText)));
      }
      if req.kind == "HIGHLIGHT_TEXT" {
        match req.sentences
        case None =>
          ResetHighlights();
        case Some(ss) =>
          HighlightText(ss);
          reply := Some(Status("success"));
      }
    }
  }
}
