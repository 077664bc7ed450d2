/**
 * The JavaScript string operations the extension relies on: `includes`, `split` with a
 * string separator, `split(/\s+/)`, `trim`, `join`, and the `map(trim).filter(...)` chains
 * built from them. Strings are sequences of characters; lengths count characters.
 */
module JsString {
  import opened Common

  /** White space as `trim` and the regular-expression class `\s` see it (a fixed subset:
      space, tab, line feed, carriage return, vertical tab, form feed, no-break space). */
  predicate IsSpace(c: char) {
    c == ' ' || c == '\t' || c == '\n' || c == '\r' || c == '\U{B}' || c == '\U{C}' || c == '\U{A0}'
  }

  predicate AllSpace(s: string) {
    forall k :: 0 <= k < |s| ==> IsSpace(s[k])
  }

  /** Neither the first nor the last character is white space. */
  predicate IsTrimmed(s: string) {
    s == [] || (!IsSpace(s[0]) && !IsSpace(s[|s| - 1]))
  }

  // ---------------------------------------------------------------------------------------
  // Searching
  // ---------------------------------------------------------------------------------------

  /** `sub` occurs in `s` starting at index `j`. */
  predicate OccursAt(s: string, sub: string, j: nat) {
    j + |sub| <= |s| && s[j..j + |sub|] == sub
  }

  lemma OccursAtTail(s: string, sub: string)
    requires |s| > 0
    ensures forall j: nat :: j >= 1 ==> (OccursAt(s, sub, j) <==> OccursAt(s[1..], sub, j - 1))
    ensures forall j: nat :: OccursAt(s[1..], sub, j) ==> OccursAt(s, sub, j + 1)
  {
    forall j: nat | j >= 1 ensures OccursAt(s, sub, j) <==> OccursAt(s[1..], sub, j - 1) {
      if j + |sub| <= |s| {
        assert s[1..][j - 1..j - 1 + |sub|] == s[j..j + |sub|];
      }
    }
  }

  /** `s.indexOf(sub)`: the leftmost occurrence, or None where JavaScript returns -1. */
  function IndexOf(s: string, sub: string): (r: Option<nat>)
    ensures r.Some? ==> OccursAt(s, sub, r.value)
    ensures r.Some? ==> forall j: nat :: j < r.value ==> !OccursAt(s, sub, j)
    ensures r.None? ==> forall j: nat :: !OccursAt(s, sub, j)
    decreases |s|
  {
    if |s| < |sub| then None
    else if s[..|sub|] == sub then Some(0)
    else
      OccursAtTail(s, sub);
      match IndexOf(s[1..], sub)
      case None => None
      case Some(k) => Some(k + 1)
  }

  /** `s.includes(sub)`. */
  function Includes(s: string, sub: string): (b: bool)
    ensures b <==> exists j: nat :: OccursAt(s, sub, j)
  {
    IndexOf(s, sub).Some?
  }

  /** A one-character pattern occurs exactly where that character stands. */
  lemma OccursAtChar(s: string, c: char, j: nat)
    ensures OccursAt(s, [c], j) <==> j < |s| && s[j] == c
  {
    if j < |s| {
      assert s[j..j + 1] == [s[j]];
    }
  }

  // ---------------------------------------------------------------------------------------
  // join and split with a string separator
  // ---------------------------------------------------------------------------------------

  /** `x` is the end of `s`. */
  predicate EndsWith(s: string, x: string) {
    |x| <= |s| && s[|s| - |x|..] == x
  }

  /** `xs.join(sep)`; an empty array joins to "". */
  function Join(xs: seq<string>, sep: string): string
    decreases |xs|
  {
    if |xs| == 0 then ""
    else if |xs| == 1 then xs[0]
    else xs[0] + sep + Join(xs[1..], sep)
  }

  /** Two elements join around one separator. */
  lemma JoinTwo(xs: seq<string>, sep: string)
    requires |xs| == 2
    ensures Join(xs, sep) == xs[0] + sep + xs[1]
  {
    assert xs[1..] == [xs[1]];
  }

  /** A join starts with its first element and ends with its last. */
  lemma {:induction false} JoinEnds(xs: seq<string>, sep: string)
    requires |xs| > 0
    ensures xs[0] <= Join(xs, sep) && EndsWith(Join(xs, sep), xs[|xs| - 1])
    decreases |xs|
  {
    if |xs| > 1 {
      JoinEnds(xs[1..], sep);
      assert xs[1..][|xs[1..]| - 1] == xs[|xs| - 1];
      EndsWithTail(xs[0] + sep, Join(xs[1..], sep), xs[|xs| - 1]);
    }
  }

  lemma EndsWithTail(a: string, t: string, x: string)
    requires EndsWith(t, x)
    ensures a <= a + t && EndsWith(a + t, x)
  {
    var r := a + t;
    assert r[|r| - |x|..] == t[|t| - |x|..];
  }

  lemma {:induction false} JoinAppend(xs: seq<string>, x: string, sep: string)
    requires |xs| > 0
    ensures Join(xs + [x], sep) == Join(xs, sep) + sep + x
    decreases |xs|
  {
    if |xs| == 1 {
      assert (xs + [x])[1..] == [x];
    } else {
      assert (xs + [x])[1..] == xs[1..] + [x];
      JoinAppend(xs[1..], x, sep);
    }
  }

  /** Every element of an array occurs in its join. */
  lemma {:induction false} JoinContains(xs: seq<string>, sep: string, i: nat)
    requires i < |xs|
    ensures Includes(Join(xs, sep), xs[i])
    decreases i
  {
    var r := Join(xs, sep);
    if i == 0 {
      assert r[0..|xs[0]|] == xs[0];
      assert OccursAt(r, xs[0], 0);
    } else {
      var tail := Join(xs[1..], sep);
      JoinContains(xs[1..], sep, i - 1);
      var j: nat :| OccursAt(tail, xs[i], j);
      var off := |xs[0]| + |sep|;
      assert r == xs[0] + sep + tail;
      assert r[off + j..off + j + |xs[i]|] == tail[j..j + |xs[i]|];
      assert OccursAt(r, xs[i], off + j);
    }
  }

  /** `s.split(sep)` for a non-empty string separator: cut at every leftmost,
      non-overlapping occurrence, keeping the (possibly empty) pieces between them. */
  function Split(s: string, sep: string): (parts: seq<string>)
    requires |sep| > 0
    ensures |parts| >= 1
    decreases |s|
  {
    match IndexOf(s, sep)
    case None => [s]
    case Some(k) => [s[..k]] + Split(s[k + |sep|..], sep)
  }

  /** Splitting then joining with the same separator gives the string back. */
  lemma {:induction false} SplitThenJoin(s: string, sep: string)
    requires |sep| > 0
    ensures Join(Split(s, sep), sep) == s
    decreases |s|
  {
    match IndexOf(s, sep)
    case None =>
    case Some(k) =>
      SplitUnfold(s, sep, k);
      JoinCons(s[..k], Split(s[k + |sep|..], sep), sep, Split(s, sep));
      SplitThenJoin(s[k + |sep|..], sep);
      AroundOccurrence(s, sep, k);
  }

  lemma JoinCons(x: string, rest: seq<string>, sep: string, xs: seq<string>)
    requires |rest| >= 1 && xs == [x] + rest
    ensures Join(xs, sep) == x + sep + Join(rest, sep)
  {
    assert xs[0] == x && xs[1..] == rest;
  }

  /** A string is the text before an occurrence, the occurrence and the text after it. */
  lemma AroundOccurrence(s: string, sep: string, k: nat)
    requires OccursAt(s, sep, k)
    ensures s == s[..k] + sep + s[k + |sep|..]
  {
    assert s == s[..k] + s[k..k + |sep|] + s[k + |sep|..];
  }

  /** No piece of a split contains the separator. */
  lemma {:induction false} SplitPiecesFree(s: string, sep: string)
    requires |sep| > 0
    ensures forall i :: 0 <= i < |Split(s, sep)| ==> !Includes(Split(s, sep)[i], sep)
    decreases |s|
  {
    match IndexOf(s, sep)
    case None =>
    case Some(k) =>
      HeadFree(s, sep, k);
      SplitPiecesFree(s[k + |sep|..], sep);
      SplitUnfold(s, sep, k);
      ConsFree(s[..k], Split(s[k + |sep|..], sep), Split(s, sep), sep);
  }

  /** The piece before the first occurrence holds no occurrence. */
  lemma HeadFree(s: string, sep: string, k: nat)
    requires |sep| > 0 && k <= |s|
    requires forall j: nat :: j < k ==> !OccursAt(s, sep, j)
    ensures !Includes(s[..k], sep)
  {
    var head := s[..k];
    forall j: nat ensures !OccursAt(head, sep, j) {
      if j + |sep| <= |head| {
        assert head[j..j + |sep|] == s[j..j + |sep|];
        assert !OccursAt(s, sep, j);
      }
    }
  }

  lemma ConsFree(head: string, rest: seq<string>, parts: seq<string>, sep: string)
    requires parts == [head] + rest && !Includes(head, sep)
    requires forall i :: 0 <= i < |rest| ==> !Includes(rest[i], sep)
    ensures forall i :: 0 <= i < |parts| ==> !Includes(parts[i], sep)
  {
    forall i | 0 <= i < |parts| ensures !Includes(parts[i], sep) {
      if i > 0 { assert parts[i] == rest[i - 1]; }
    }
  }

  /** With a one-character separator there is one piece more than separator characters. */
  lemma {:induction false} SplitCharCount(s: string, c: char)
    ensures |Split(s, [c])| == multiset(s)[c] + 1
    decreases |s|
  {
    match IndexOf(s, [c])
    case None =>
      forall j | 0 <= j < |s| ensures s[j] != c { OccursAtChar(s, c, j); }
      assert c !in s;
    case Some(k) =>
      forall j | 0 <= j < k ensures s[j] != c { OccursAtChar(s, c, j); }
      OccursAtChar(s, c, k);
      assert c !in s[..k];
      assert s == s[..k] + [c] + s[k + 1..];
      assert multiset(s) == multiset(s[..k]) + multiset([c]) + multiset(s[k + 1..]);
      SplitCharCount(s[k + 1..], c);
  }

  /** Joining pieces free of a one-character separator and splitting again gives them back. */
  lemma {:induction false} JoinThenSplit(xs: seq<string>, c: char)
    requires |xs| > 0
    requires forall i :: 0 <= i < |xs| ==> c !in xs[i]
    ensures Split(Join(xs, [c]), [c]) == xs
    decreases |xs|
  {
    var s := Join(xs, [c]);
    if |xs| == 1 {
      forall j: nat ensures !OccursAt(s, [c], j) { OccursAtChar(s, c, j); }
    } else {
      var k := |xs[0]|;
      assert s == xs[0] + [c] + Join(xs[1..], [c]);
      forall j: nat | j < k ensures !OccursAt(s, [c], j) {
        OccursAtChar(s, c, j);
        assert s[j] == xs[0][j];
      }
      OccursAtChar(s, c, k);
      assert IndexOf(s, [c]) == Some(k);
      assert s[k + 1..] == Join(xs[1..], [c]);
      assert s[..k] == xs[0];
      JoinThenSplit(xs[1..], c);
    }
  }

  lemma SplitUnfold(s: string, sep: string, k: nat)
    requires |sep| > 0
    requires IndexOf(s, sep) == Some(k)
    ensures Split(s, sep) == [s[..k]] + Split(s[k + |sep|..], sep)
  {
  }

  /** The first piece of a split is a prefix of the string. */
  lemma SplitHead(s: string, sep: string)
    requires |sep| > 0
    ensures |Split(s, sep)[0]| <= |s| && Split(s, sep)[0] == s[..|Split(s, sep)[0]|]
  {
  }

  /** A string that contains `sep` splits into at least two pieces, the first being the text
      before the leftmost occurrence; the first two pieces around `sep` make up a prefix of
      the string. */
  lemma SplitFirstTwo(s: string, sep: string, k: nat)
    requires |sep| > 0
    requires IndexOf(s, sep) == Some(k)
    ensures |Split(s, sep)| >= 2
    ensures Split(s, sep)[0] == s[..k]
    ensures k + |sep| + |Split(s, sep)[1]| <= |s|
    ensures Split(s, sep)[0] + sep + Split(s, sep)[1] == s[..k + |sep| + |Split(s, sep)[1]|]
  {
    var rest := s[k + |sep|..];
    SplitUnfold(s, sep, k);
    SplitHead(rest, sep);
    TwoPieces(s, sep, k, rest, Split(rest, sep), Split(s, sep));
  }

  lemma TwoPieces(s: string, sep: string, k: nat, rest: string, tail: seq<string>, parts: seq<string>)
    requires OccursAt(s, sep, k) && rest == s[k + |sep|..]
    requires |tail| >= 1 && |tail[0]| <= |rest| && tail[0] == rest[..|tail[0]|]
    requires parts == [s[..k]] + tail
    ensures |parts| >= 2 && parts[0] == s[..k] && parts[1] == tail[0]
    ensures k + |sep| + |parts[1]| <= |s| && parts[0] + sep + parts[1] == s[..k + |sep| + |parts[1]|]
  {
    var p := tail[0];
    assert parts[1] == p;
    var n := k + |sep| + |p|;
    assert s[k + |sep|..n] == p;
    assert s[..n] == s[..k] + s[k..k + |sep|] + s[k + |sep|..n];
  }

  /** The `len` characters from `start` hold no occurrence of `sep` and are followed by
      one, or by the end of `s`. */
  predicate PieceEnds(s: string, sep: string, start: nat, len: nat) {
    start + len <= |s| && (start + len == |s| || OccursAt(s, sep, start + len))
    && forall j: nat :: start <= j < start + len ==> !OccursAt(s, sep, j)
  }

  /** The second piece of a split runs from the end of the leftmost occurrence to the next
      occurrence, or to the end of the string when there is none. */
  lemma SplitSecond(s: string, sep: string, k: nat)
    requires |sep| > 0
    requires IndexOf(s, sep) == Some(k)
    ensures |Split(s, sep)| >= 2 && PieceEnds(s, sep, k + |sep|, |Split(s, sep)[1]|)
  {
    var off := k + |sep|;
    var rest := s[off..];
    SecondOfRest(s, sep, k);
    FirstPiece(rest, sep);
    LiftPiece(s, sep, off, rest, |Split(rest, sep)[0]|);
  }

  lemma SecondOfRest(s: string, sep: string, k: nat)
    requires |sep| > 0
    requires IndexOf(s, sep) == Some(k)
    ensures |Split(s, sep)| >= 2 && Split(s, sep)[1] == Split(s[k + |sep|..], sep)[0]
  {
    SplitUnfold(s, sep, k);
  }

  /** The first piece of a split ends at the leftmost occurrence, or at the end. */
  lemma FirstPiece(s: string, sep: string)
    requires |sep| > 0
    ensures PieceEnds(s, sep, 0, |Split(s, sep)[0]|)
  {
  }

  /** What holds of the text after `off` holds, shifted by `off`, of the whole text. */
  lemma LiftPiece(s: string, sep: string, off: nat, rest: string, m: nat)
    requires off <= |s| && rest == s[off..] && PieceEnds(rest, sep, 0, m)
    ensures PieceEnds(s, sep, off, m)
  {
    if m < |rest| {
      InfixOccurs(s, rest, sep, off, m);
    }
    forall j: nat | off <= j < off + m ensures !OccursAt(s, sep, j) {
      OccursInRest(s, sep, off, rest, j);
    }
  }

  /** An occurrence at or after `off` is an occurrence in what follows `off`. */
  lemma OccursInRest(s: string, sep: string, off: nat, rest: string, j: nat)
    requires off <= |s| && rest == s[off..] && off <= j
    ensures OccursAt(s, sep, j) ==> OccursAt(rest, sep, j - off)
  {
    if OccursAt(s, sep, j) {
      assert rest[j - off..j - off + |sep|] == s[j..j + |sep|];
    }
  }

  /** When `sep` occurs at exactly one position, the split has exactly two pieces and they
      rebuild the string around the separator. */
  lemma SplitUnique(s: string, sep: string, k: nat)
    requires |sep| > 0
    requires OccursAt(s, sep, k)
    requires forall j: nat :: OccursAt(s, sep, j) ==> j == k
    ensures Split(s, sep) == [s[..k], s[k + |sep|..]]
    ensures s[..k] + sep + s[k + |sep|..] == s
  {
    var rest := s[k + |sep|..];
    assert IndexOf(s, sep) == Some(k);
    NoneAfter(s, sep, k, rest);
    assert Split(rest, sep) == [rest];
    SplitUnfold(s, sep, k);
    assert s == s[..k] + s[k..k + |sep|] + rest;
  }

  /** An occurrence in what follows position `k` plus the separator is a later occurrence
      in the whole string. */
  lemma NoneAfter(s: string, sep: string, k: nat, rest: string)
    requires |sep| > 0 && OccursAt(s, sep, k) && rest == s[k + |sep|..]
    requires forall j: nat :: OccursAt(s, sep, j) ==> j == k
    ensures forall j: nat :: !OccursAt(rest, sep, j)
  {
    forall j: nat ensures !OccursAt(rest, sep, j) {
      if j + |sep| <= |rest| {
        assert rest[j..j + |sep|] == s[k + |sep| + j..k + |sep| + j + |sep|];
        assert !OccursAt(s, sep, k + |sep| + j);
      }
    }
  }

  /** When `sep` occurs twice without overlap, the split has a third piece, so the first two
      pieces around `sep` fall at least one separator short of the whole string. */
  lemma SplitTwice(s: string, sep: string, i: nat, j: nat)
    requires |sep| > 0
    requires OccursAt(s, sep, i) && OccursAt(s, sep, j) && i + |sep| <= j
    ensures |Split(s, sep)| >= 3
    ensures |Split(s, sep)[0] + sep + Split(s, sep)[1]| + |sep| <= |s|
  {
    var k := IndexOf(s, sep).value;
    assert k <= i;
    var rest := s[k + |sep|..];
    var j' := j - (k + |sep|);
    assert rest[j'..j' + |sep|] == s[j..j + |sep|];
    assert OccursAt(rest, sep, j');
    var k2 := IndexOf(rest, sep).value;
    assert Split(s, sep) == [s[..k]] + Split(rest, sep);
    assert Split(rest, sep) == [rest[..k2]] + Split(rest[k2 + |sep|..], sep);
    assert |Split(s, sep)[1]| == k2;
  }

  // ---------------------------------------------------------------------------------------
  // trim
  // ---------------------------------------------------------------------------------------

  /** `trimStart`: drop leading white space. */
  function TrimStart(s: string): (r: string)
    ensures |r| <= |s| && r == s[|s| - |r|..]
    ensures r == [] || !IsSpace(r[0])
    decreases |s|
  {
    if s != [] && IsSpace(s[0]) then TrimStart(s[1..]) else s
  }

  /** `trimEnd`: drop trailing white space. */
  function TrimEnd(s: string): (r: string)
    ensures |r| <= |s| && r == s[..|r|]
    ensures r == [] || !IsSpace(r[|r| - 1])
    decreases |s|
  {
    if s != [] && IsSpace(s[|s| - 1]) then TrimEnd(s[..|s| - 1]) else s
  }

  /** What `trimStart` drops is white space. */
  lemma {:induction false} TrimStartCut(s: string)
    ensures AllSpace(s[..|s| - |TrimStart(s)|])
    decreases |s|
  {
    if s != [] && IsSpace(s[0]) {
      var m := |s| - |TrimStart(s)|;
      TrimStartCut(s[1..]);
      SpaceBefore(s, m);
    }
  }

  lemma SpaceBefore(s: string, m: nat)
    requires 0 < m <= |s| && IsSpace(s[0]) && AllSpace(s[1..][..m - 1])
    ensures AllSpace(s[..m])
  {
    forall k | 0 < k < m ensures IsSpace(s[k]) { assert s[k] == s[1..][..m - 1][k - 1]; }
  }

  /** What `trimEnd` drops is white space. */
  lemma {:induction false} TrimEndCut(s: string)
    ensures AllSpace(s[|TrimEnd(s)|..])
    decreases |s|
  {
    if s != [] && IsSpace(s[|s| - 1]) {
      TrimEndCut(s[..|s| - 1]);
      SpaceAfter(s, |TrimEnd(s)|);
    }
  }

  lemma SpaceAfter(s: string, m: nat)
    requires m < |s| && IsSpace(s[|s| - 1]) && AllSpace(s[..|s| - 1][m..])
    ensures AllSpace(s[m..])
  {
    forall k | m <= k < |s| - 1 ensures IsSpace(s[k]) { assert s[k] == s[..|s| - 1][m..][k - m]; }
  }

  /** `trim`: drop white space at both ends. */
  function Trim(s: string): (r: string)
    ensures IsTrimmed(r)
  {
    var t := TrimStart(s);
    var r := TrimEnd(t);
    assert r != [] ==> r[0] == t[0];
    r
  }

  lemma SuffixSlices<T>(s: seq<T>, t: seq<T>, i: nat, m: nat)
    requires i <= |s| && t == s[i..] && m <= |t|
    ensures t[..m] == s[i..i + m] && t[m..] == s[i + m..]
  {
  }

  /** Trimming an already trimmed string changes nothing. */
  lemma TrimTrimmed(s: string)
    requires IsTrimmed(s)
    ensures Trim(s) == s
  {
  }

  /** An occurrence inside an infix is an occurrence in the whole. */
  lemma InfixOccurs(s: string, r: string, sub: string, i: nat, j: nat)
    requires i + |r| <= |s| && r == s[i..i + |r|] && OccursAt(r, sub, j)
    ensures OccursAt(s, sub, i + j)
  {
    forall k | 0 <= k < |sub| ensures s[i + j..i + j + |sub|][k] == sub[k] {
      assert s[i + j + k] == r[j + k] == r[j..j + |sub|][k];
    }
  }

  /** Whatever occurs in the trimmed string occurs in the string: the trimmed string is
      the infix of `s` that starts where the leading white space ends. */
  lemma TrimKeepsOut(s: string, sub: string)
    ensures Includes(Trim(s), sub) ==> Includes(s, sub)
  {
    var t := TrimStart(s);
    var r := TrimEnd(t);
    assert Trim(s) == r;
    InfixIncludes(s, t, r, sub);
  }

  /** Whatever occurs in a prefix `r` of a suffix `t` of `s` occurs in `s`. */
  lemma InfixIncludes(s: string, t: string, r: string, sub: string)
    requires |t| <= |s| && t == s[|s| - |t|..] && |r| <= |t| && r == t[..|r|]
    ensures Includes(r, sub) ==> Includes(s, sub)
  {
    var i := |s| - |t|;
    SuffixSlices(s, t, i, |r|);
    if Includes(r, sub) {
      InfixOccurs(s, r, sub, i, IndexOf(r, sub).value);
    }
  }

  /** One leading space is trimmed away from a trimmed string. */
  lemma TrimLeadingSpace(s: string)
    requires IsTrimmed(s)
    ensures Trim(" " + s) == s
  {
    TrimStartSpace(s);
    TrimTrimmed(s);
  }

  /** `trim` yields "" exactly for the strings made only of white space. */
  lemma TrimEmpty(s: string)
    ensures Trim(s) == "" <==> AllSpace(s)
  {
    var t := TrimStart(s);
    TrimStartCut(s);
    TrimEndCut(t);
    if t != [] {
      assert t[0] == s[|s| - |t|];
      assert TrimEnd(t) != [] by { assert !AllSpace(t[0..]); }
    } else {
      assert s[..|s|] == s;
    }
  }

  // ---------------------------------------------------------------------------------------
  // split(/\s+/)
  // ---------------------------------------------------------------------------------------

  /** The index of the first white-space character. */
  function IndexOfSpace(s: string): (r: Option<nat>)
    ensures r.Some? ==> r.value < |s| && IsSpace(s[r.value])
    ensures r.Some? ==> forall j :: 0 <= j < r.value ==> !IsSpace(s[j])
    ensures r.None? ==> forall j :: 0 <= j < |s| ==> !IsSpace(s[j])
    decreases |s|
  {
    if s == [] then None
    else if IsSpace(s[0]) then Some(0)
    else match IndexOfSpace(s[1..])
      case None => None
      case Some(k) => Some(k + 1)
  }

  /** `s.split(/\s+/)`: cut at every maximal run of white space. */
  function SplitWs(s: string): (parts: seq<string>)
    ensures |parts| >= 1
    decreases |s|
  {
    match IndexOfSpace(s)
    case None => [s]
    case Some(k) =>
      var rest := TrimStart(s[k..]);
      assert |rest| < |s[k..]|;
      [s[..k]] + SplitWs(rest)
  }

  /** The non-space characters of `s`, in order. */
  function NonSpace(s: string): string {
    if s == [] then "" else (if IsSpace(s[0]) then "" else [s[0]]) + NonSpace(s[1..])
  }

  lemma {:induction false} NonSpaceAppend(a: string, b: string)
    ensures NonSpace(a + b) == NonSpace(a) + NonSpace(b)
    decreases |a|
  {
    if a == [] {
      assert a + b == b;
    } else {
      var x := if IsSpace(a[0]) then "" else [a[0]];
      assert (a + b)[0] == a[0];
      assert (a + b)[1..] == a[1..] + b;
      assert NonSpace(a + b) == x + NonSpace(a[1..] + b);
      NonSpaceAppend(a[1..], b);
      assert NonSpace(a) == x + NonSpace(a[1..]);
    }
  }

  lemma {:induction false} NonSpaceOfSpaces(s: string)
    requires AllSpace(s)
    ensures NonSpace(s) == ""
    decreases |s|
  {
    if s != [] { NonSpaceOfSpaces(s[1..]); }
  }

  lemma {:induction false} NonSpaceOfWord(s: string)
    requires forall k :: 0 <= k < |s| ==> !IsSpace(s[k])
    ensures NonSpace(s) == s
    decreases |s|
  {
    if s != [] { NonSpaceOfWord(s[1..]); }
  }

  function Concat(xs: seq<string>): string
    decreases |xs|
  {
    if xs == [] then "" else xs[0] + Concat(xs[1..])
  }

  /** The pieces of `split(/\s+/)` hold no white space. */
  lemma {:induction false} SplitWsNoSpace(s: string)
    ensures forall i :: 0 <= i < |SplitWs(s)| ==> forall k :: 0 <= k < |SplitWs(s)[i]| ==> !IsSpace(SplitWs(s)[i][k])
    decreases |s|
  {
    match IndexOfSpace(s)
    case None =>
    case Some(k) =>
      var rest := TrimStart(s[k..]);
      SplitWsNoSpace(rest);
      assert SplitWs(s) == [s[..k]] + SplitWs(rest);
  }

  lemma SplitWsUnfold(s: string, k: nat)
    requires IndexOfSpace(s) == Some(k)
    ensures SplitWs(s) == [s[..k]] + SplitWs(TrimStart(s[k..]))
  {
  }

  lemma ConcatCons(x: string, xs: seq<string>)
    ensures Concat([x] + xs) == x + Concat(xs)
  {
    assert ([x] + xs)[1..] == xs;
  }

  lemma NonSpaceAtCut(word: string, gap: string, rest: string)
    requires forall j :: 0 <= j < |word| ==> !IsSpace(word[j])
    requires AllSpace(gap)
    ensures NonSpace(word + (gap + rest)) == word + NonSpace(rest)
  {
    calc {
      NonSpace(word + (gap + rest));
      { NonSpaceAppend(word, gap + rest); }
      NonSpace(word) + NonSpace(gap + rest);
      { NonSpaceOfWord(word); NonSpaceAppend(gap, rest); }
      word + (NonSpace(gap) + NonSpace(rest));
      { NonSpaceOfSpaces(gap); assert "" + NonSpace(rest) == NonSpace(rest); }
      word + NonSpace(rest);
    }
  }

  /** Together the pieces of `split(/\s+/)` hold every non-space character of the input,
      in order. */
  lemma {:induction false} SplitWsConcat(s: string)
    ensures Concat(SplitWs(s)) == NonSpace(s)
    decreases |s|
  {
    match IndexOfSpace(s)
    case None =>
      NonSpaceOfWord(s);
    case Some(k) =>
      var tail := s[k..];
      var rest := TrimStart(tail);
      TrimStartCut(tail);
      var gap := tail[..|tail| - |rest|];
      SplitAtGap(s, k, tail, gap, rest);
      SplitWsUnfold(s, k);
      SplitWsConcat(rest);
      ConcatAtCut(s, s[..k], gap, rest, SplitWs(rest));
  }

  lemma SplitAtGap(s: string, k: nat, tail: string, gap: string, rest: string)
    requires k <= |s| && tail == s[k..] && |rest| <= |tail| && rest == tail[|tail| - |rest|..]
    requires gap == tail[..|tail| - |rest|]
    ensures s == s[..k] + (gap + rest)
  {
    assert tail == gap + rest;
  }

  lemma ConcatAtCut(s: string, word: string, gap: string, rest: string, parts: seq<string>)
    requires s == word + (gap + rest)
    requires forall j :: 0 <= j < |word| ==> !IsSpace(word[j])
    requires AllSpace(gap)
    requires Concat(parts) == NonSpace(rest)
    ensures Concat([word] + parts) == NonSpace(s)
  {
    ConcatCons(word, parts);
    NonSpaceAtCut(word, gap, rest);
  }

  /** On trimmed, non-empty text every piece of `split(/\s+/)` is a non-empty word. */
  lemma {:induction false} SplitWsNonEmpty(s: string)
    requires IsTrimmed(s) && s != ""
    ensures forall i :: 0 <= i < |SplitWs(s)| ==> SplitWs(s)[i] != ""
    decreases |s|
  {
    match IndexOfSpace(s)
    case None =>
    case Some(k) =>
      var t := s[k..];
      var rest := TrimStart(t);
      TrimStartCut(t);
      TrimmedTail(s, k, t, rest);
      SplitWsNonEmpty(rest);
      SplitWsUnfold(s, k);
      NonEmptyPieces(s[..k], SplitWs(rest), SplitWs(s));
  }

  lemma NonEmptyPieces(first: string, parts: seq<string>, all: seq<string>)
    requires first != "" && all == [first] + parts
    requires forall i :: 0 <= i < |parts| ==> parts[i] != ""
    ensures forall i :: 0 <= i < |all| ==> all[i] != ""
  {
    forall i | 0 < i < |all| ensures all[i] != "" { assert all[i] == parts[i - 1]; }
  }

  /** Cutting a trimmed string at a white-space character and trimming the front of the
      tail leaves a non-empty, trimmed string, and the cut is not at the start. */
  lemma TrimmedTail(s: string, k: nat, t: string, rest: string)
    requires IsTrimmed(s) && s != "" && k < |s| && IsSpace(s[k]) && t == s[k..]
    requires |rest| <= |t| && rest == t[|t| - |rest|..] && AllSpace(t[..|t| - |rest|])
    requires rest == [] || !IsSpace(rest[0])
    ensures k > 0 && rest != "" && IsTrimmed(rest)
  {
    assert t[..|t|][|t| - 1] == s[|s| - 1];
    assert rest[|rest| - 1] == t[|t| - 1] == s[|s| - 1];
  }

  /** A word: non-empty, without white space. */
  predicate IsWord(w: string) {
    w != "" && forall k :: 0 <= k < |w| ==> !IsSpace(w[k])
  }

  lemma TrimStartSpace(s: string)
    requires s == [] || !IsSpace(s[0])
    ensures TrimStart(" " + s) == s
  {
    assert (" " + s)[1..] == s;
  }

  /** A word, one space, and a text starting with a non-space character split into the
      word and the pieces of the text. */
  lemma SplitWsStep(w: string, rest: string)
    requires IsWord(w) && rest != [] && !IsSpace(rest[0])
    ensures SplitWs(w + " " + rest) == [w] + SplitWs(rest)
  {
    var t := " " + rest;
    Associative(w, " ", rest);
    FirstSpaceAt(w, t);
    TrimStartSpace(rest);
    SplitWsAt(w + t, w, t, rest);
  }

  /** A gap of any non-empty run of white space behaves like a single space: a word, the
      gap, and a text that does not start with white space split into the word and the
      pieces of the text. Joins with "\n\n" and other multi-character gaps are counted by
      this. */
  lemma SplitWsGap(w: string, gap: string, rest: string)
    requires IsWord(w) && gap != [] && forall k :: 0 <= k < |gap| ==> IsSpace(gap[k])
    requires rest == [] || !IsSpace(rest[0])
    ensures SplitWs(w + gap + rest) == [w] + SplitWs(rest)
  {
    var t := gap + rest;
    Associative(w, gap, rest);
    FirstSpaceAt(w, t);
    TrimStartGap(gap, rest);
    SplitWsAt(w + t, w, t, rest);
  }

  /** Trimming the start of white space followed by a text that does not start with white
      space leaves that text. */
  lemma {:induction false} TrimStartGap(gap: string, rest: string)
    requires forall k :: 0 <= k < |gap| ==> IsSpace(gap[k])
    requires rest == [] || !IsSpace(rest[0])
    ensures TrimStart(gap + rest) == rest
    decreases |gap|
  {
    if gap != [] {
      assert (gap + rest)[1..] == gap[1..] + rest;
      TrimStartGap(gap[1..], rest);
    }
  }

  lemma Associative<T>(a: seq<T>, b: seq<T>, c: seq<T>)
    ensures a + b + c == a + (b + c)
  {
  }

  lemma SplitWsAt(s: string, w: string, t: string, rest: string)
    requires s == w + t && IndexOfSpace(s) == Some(|w|) && TrimStart(t) == rest
    ensures SplitWs(s) == [w] + SplitWs(rest)
  {
    assert s[..|w|] == w && s[|w|..] == t;
    SplitWsUnfold(s, |w|);
  }

  /** The first white space after a word is the one right behind it. */
  lemma FirstSpaceAt(w: string, t: string)
    requires IsWord(w) && t != [] && IsSpace(t[0])
    ensures IndexOfSpace(w + t) == Some(|w|)
  {
    var s := w + t;
    assert IsSpace(s[|w|]);
    forall j | 0 <= j < |w| ensures !IsSpace(s[j]) { assert s[j] == w[j]; }
  }

  lemma SplitWsJoinStep(ws: seq<string>, rest: string)
    requires |ws| > 1 && IsWord(ws[0]) && rest == Join(ws[1..], " ")
    requires rest != [] && !IsSpace(rest[0]) && SplitWs(rest) == ws[1..]
    ensures SplitWs(Join(ws, " ")) == ws
  {
    assert Join(ws, " ") == ws[0] + " " + rest;
    SplitWsStep(ws[0], rest);
    assert [ws[0]] + ws[1..] == ws;
  }

  lemma WordStartsJoin(w: string, rest: string)
    requires IsWord(w) && |rest| >= |w| && rest[..|w|] == w
    ensures rest != [] && !IsSpace(rest[0])
  {
    assert rest[0] == rest[..|w|][0];
  }

  /** Words joined by single spaces split back into exactly those words. */
  lemma {:induction false} SplitWsJoin(ws: seq<string>)
    requires |ws| > 0 && forall i :: 0 <= i < |ws| ==> IsWord(ws[i])
    ensures SplitWs(Join(ws, " ")) == ws
    decreases |ws|
  {
    if |ws| == 1 {
      assert IndexOfSpace(ws[0]) == None;
    } else {
      var tail := ws[1..];
      var rest := Join(tail, " ");
      assert forall i :: 0 <= i < |tail| ==> IsWord(tail[i]) by {
        forall i | 0 <= i < |tail| ensures IsWord(tail[i]) { assert tail[i] == ws[i + 1]; }
      }
      JoinEnds(tail, " ");
      WordStartsJoin(tail[0], rest);
      SplitWsJoin(tail);
      SplitWsJoinStep(ws, rest);
    }
  }

  /** Words joined by single spaces are already trimmed. */
  lemma JoinWordsTrimmed(ws: seq<string>)
    requires |ws| > 0 && forall i :: 0 <= i < |ws| ==> IsWord(ws[i])
    ensures Trim(Join(ws, " ")) == Join(ws, " ")
  {
    var s := Join(ws, " ");
    assert IsTrimmed(s) by {
      JoinEnds(ws, " ");
      var first, last := ws[0], ws[|ws| - 1];
      assert s[..|first|][0] == s[0];
      assert s[|s| - |last|..][|last| - 1] == s[|s| - 1];
    }
    TrimTrimmed(s);
  }

  // ---------------------------------------------------------------------------------------
  // map(trim) and filter(length > n)
  // ---------------------------------------------------------------------------------------

  /** `xs.map(x => x.trim())`. */
  function TrimAll(xs: seq<string>): (r: seq<string>)
    ensures |r| == |xs|
    ensures forall i :: 0 <= i < |xs| ==> r[i] == Trim(xs[i])
  {
    seq(|xs|, i requires 0 <= i < |xs| => Trim(xs[i]))
  }

  lemma TrimAllTrimmed(xs: seq<string>)
    requires forall i :: 0 <= i < |xs| ==> IsTrimmed(xs[i])
    ensures TrimAll(xs) == xs
  {
    forall i | 0 <= i < |xs| ensures Trim(xs[i]) == xs[i] {
      TrimTrimmed(xs[i]);
    }
  }

  /** `a` is `b` with some elements left out, order kept. */
  ghost predicate IsSubsequence<T>(a: seq<T>, b: seq<T>)
    decreases |b|
  {
    a == [] || (b != [] && if a[0] == b[0] then IsSubsequence(a[1..], b[1..]) else IsSubsequence(a, b[1..]))
  }

  /** `xs.filter(x => x.length > min)`. */
  function KeepLonger(xs: seq<string>, min: nat): (r: seq<string>)
    ensures |r| <= |xs|
    ensures forall i :: 0 <= i < |r| ==> |r[i]| > min && r[i] in xs
    ensures forall i :: 0 <= i < |xs| && |xs[i]| > min ==> xs[i] in r
    ensures IsSubsequence(r, xs)
    decreases |xs|
  {
    if xs == [] then []
    else if |xs[0]| > min then [xs[0]] + KeepLonger(xs[1..], min)
    else KeepLonger(xs[1..], min)
  }

  /** The filter keeps every copy of a long enough string and no copy of a shorter one. */
  lemma {:induction false} KeepLongerCounts(xs: seq<string>, min: nat, x: string)
    ensures multiset(KeepLonger(xs, min))[x] == if |x| > min then multiset(xs)[x] else 0
    decreases |xs|
  {
    if xs != [] {
      assert xs == [xs[0]] + xs[1..];
      KeepLongerCounts(xs[1..], min, x);
    }
  }

  /** The filter keeps everything when every element is long enough. */
  lemma {:induction false} KeepLongerAll(xs: seq<string>, min: nat)
    requires forall i :: 0 <= i < |xs| ==> |xs[i]| > min
    ensures KeepLonger(xs, min) == xs
    decreases |xs|
  {
    if xs != [] {
      KeepLongerAll(xs[1..], min);
    }
  }
}
