/** The parts of JavaScript's String and Array built-ins that the editor's helpers are
    written in: `split` with a string separator, `join`, `slice`, and `reverse`, over
    strings taken as sequences of characters. */
module JsString {
  import opened Wrappers

  /** `nd` occurs in `h` starting at offset `i`. */
  predicate OccursAt(h: string, nd: string, i: nat) {
    i + |nd| <= |h| && h[i..i + |nd|] == nd
  }

  /** The first offset at or after `from` where `nd` occurs: the search step that
      `split` repeats after every separator it consumes. */
  function IndexFrom(h: string, nd: string, from: nat): (r: Option<nat>)
    ensures r.Some? ==> from <= r.value && r.value + |nd| <= |h|
    decreases |h| - from
  {
    if from + |nd| > |h| then None
    else if OccursAt(h, nd, from) then Some(from)
    else IndexFrom(h, nd, from + 1)
  }

  /** The search finds the first occurrence at or after `from`, and when it finds none
      there is none. */
  lemma {:induction false} IndexFromSound(h: string, nd: string, from: nat)
    ensures IndexFrom(h, nd, from).Some? ==> OccursAt(h, nd, IndexFrom(h, nd, from).value)
    ensures IndexFrom(h, nd, from).Some? ==>
      forall j: nat :: from <= j < IndexFrom(h, nd, from).value ==> !OccursAt(h, nd, j)
    ensures IndexFrom(h, nd, from).None? ==> forall j: nat :: from <= j ==> !OccursAt(h, nd, j)
    decreases |h| - from
  {
    if from + |nd| <= |h| && !OccursAt(h, nd, from) {
      IndexFromSound(h, nd, from + 1);
    }
  }

  /** The offsets at which a left-to-right scan from `from` finds `nd` without
      overlap: the separators that `split` consumes. */
  function PositionsFrom(h: string, nd: string, from: nat): seq<nat>
    requires nd != []
    decreases |h| - from
  {
    match IndexFrom(h, nd, from)
    case None => []
    case Some(i) => [i] + PositionsFrom(h, nd, i + |nd|)
  }

  /** Every position the scan reports is an occurrence at or after `from`, and each
      starts at or after the end of the one before. */
  lemma {:induction false} PositionsSound(h: string, nd: string, from: nat)
    requires nd != []
    ensures forall k :: 0 <= k < |PositionsFrom(h, nd, from)| ==>
      from <= PositionsFrom(h, nd, from)[k] && OccursAt(h, nd, PositionsFrom(h, nd, from)[k])
    ensures forall j, k :: 0 <= j < k < |PositionsFrom(h, nd, from)| ==>
      PositionsFrom(h, nd, from)[j] + |nd| <= PositionsFrom(h, nd, from)[k]
    decreases |h| - from
  {
    match IndexFrom(h, nd, from)
    case None =>
    case Some(i) =>
      IndexFromSound(h, nd, from);
      PositionsSound(h, nd, i + |nd|);
      var rest := PositionsFrom(h, nd, i + |nd|);
      PositionsSoundStep(h, nd, from, i, rest, PositionsFrom(h, nd, from));
  }

  lemma PositionsSoundStep(h: string, nd: string, from: nat, i: nat, rest: seq<nat>, ps: seq<nat>)
    requires ps == [i] + rest && from <= i && OccursAt(h, nd, i)
    requires forall k :: 0 <= k < |rest| ==> i + |nd| <= rest[k] && OccursAt(h, nd, rest[k])
    requires forall j, k :: 0 <= j < k < |rest| ==> rest[j] + |nd| <= rest[k]
    ensures forall k :: 0 <= k < |ps| ==> from <= ps[k] && OccursAt(h, nd, ps[k])
    ensures forall j, k :: 0 <= j < k < |ps| ==> ps[j] + |nd| <= ps[k]
  {
    forall k | 0 < k < |ps|
      ensures ps[k] == rest[k - 1]
    {
    }
  }

  /** The scan misses no occurrence: every occurrence at or after `from` either is one
      the scan found or starts inside one it found. */
  lemma {:induction false} PositionsComplete(h: string, nd: string, from: nat, q: nat)
    requires nd != [] && from <= q && OccursAt(h, nd, q)
    ensures exists k :: 0 <= k < |PositionsFrom(h, nd, from)| &&
              PositionsFrom(h, nd, from)[k] <= q < PositionsFrom(h, nd, from)[k] + |nd|
    decreases |h| - from
  {
    var ps := PositionsFrom(h, nd, from);
    IndexFromSound(h, nd, from);
    match IndexFrom(h, nd, from)
    case None =>
    case Some(i) =>
      var rest := PositionsFrom(h, nd, i + |nd|);
      assert ps == [i] + rest;
      if q < i + |nd| {
        assert ps[0] <= q < ps[0] + |nd|;
      } else {
        PositionsComplete(h, nd, i + |nd|, q);
        var k :| 0 <= k < |rest| && rest[k] <= q < rest[k] + |nd|;
        assert ps[k + 1] == rest[k];
      }
  }

  /** The non-overlapping occurrences of `nd` in `h`, left to right. */
  function Positions(h: string, nd: string): seq<nat>
    requires nd != []
  {
    PositionsFrom(h, nd, 0)
  }

  /** `split(sep)` applied to `h[from..]` for a non-empty separator: the pieces
      between the separators found by the scan. */
  function SplitFrom(h: string, sep: string, from: nat): (ps: seq<string>)
    requires sep != [] && from <= |h|
    ensures |ps| >= 1
    decreases |h| - from
  {
    match IndexFrom(h, sep, from)
    case None => [h[from..]]
    case Some(i) => [h[from..i]] + SplitFrom(h, sep, i + |sep|)
  }

  /** String.prototype.split with a string separator; an empty separator splits the
      string into its characters (and the empty string into no pieces at all). */
  function Split(h: string, sep: string): seq<string> {
    if sep == [] then seq(|h|, k requires 0 <= k < |h| => [h[k]])
    else SplitFrom(h, sep, 0)
  }

  /** Array.prototype.join. */
  function Join(ps: seq<string>, sep: string): string {
    if |ps| == 0 then []
    else if |ps| == 1 then ps[0]
    else ps[0] + sep + Join(ps[1..], sep)
  }

  /** The first `n` elements, as `split`'s limit and `slice(0, n)` keep them. */
  function Take<T>(ps: seq<T>, n: nat): seq<T> {
    if n <= |ps| then ps[..n] else ps
  }

  /** Array.prototype.slice and String.prototype.slice: a negative index counts from
      the end, every index is clamped to the sequence, and crossed indices give the
      empty sequence. */
  function Slice<T>(s: seq<T>, start: int, end: int): (r: seq<T>)
    ensures 0 <= start <= end <= |s| ==> r == s[start..end]
    ensures 0 <= start && end >= |s| ==> r == s[if start <= |s| then start else |s|..]
  {
    var lo := if start < 0 then (if |s| + start < 0 then 0 else |s| + start)
              else if start < |s| then start else |s|;
    var hi := if end < 0 then (if |s| + end < 0 then 0 else |s| + end)
              else if end < |s| then end else |s|;
    if lo < hi then s[lo..hi] else []
  }

  /** The number of elements of `s` equal to `x`. */
  function Count<T(==)>(s: seq<T>, x: T): nat {
    if |s| == 0 then 0
    else Count(s[..|s| - 1], x) + (if s[|s| - 1] == x then 1 else 0)
  }

  /** Array.prototype.reverse on a copy. */
  function Reverse<T>(s: seq<T>): (r: seq<T>)
    ensures |r| == |s|
    ensures forall k :: 0 <= k < |s| ==> r[k] == s[|s| - 1 - k]
  {
    if s == [] then [] else Reverse(s[1..]) + [s[0]]
  }

  lemma OccursAtChar(h: string, c: char, i: nat)
    ensures OccursAt(h, [c], i) <==> i < |h| && h[i] == c
  {
    if i < |h| {
      assert h[i..i + 1][0] == h[i];
    }
  }

  lemma {:induction false} CountConcat<T>(a: seq<T>, b: seq<T>, x: T)
    ensures Count(a + b, x) == Count(a, x) + Count(b, x)
    decreases |b|
  {
    if |b| > 0 {
      assert (a + b)[..|a + b| - 1] == a + b[..|b| - 1];
      CountConcat(a, b[..|b| - 1], x);
    } else {
      assert a + b == a;
    }
  }

  /** Rejoining the pieces with the separator gives back the text. */
  lemma {:induction false} JoinSplitFrom(h: string, sep: string, from: nat)
    requires sep != [] && from <= |h|
    ensures Join(SplitFrom(h, sep, from), sep) == h[from..]
    decreases |h| - from
  {
    IndexFromSound(h, sep, from);
    match IndexFrom(h, sep, from)
    case None =>
    case Some(i) =>
      JoinSplitFrom(h, sep, i + |sep|);
      JoinSplitStep(h, sep, from, i);
  }

  lemma JoinSplitStep(h: string, sep: string, from: nat, i: nat)
    requires sep != [] && from <= |h| && IndexFrom(h, sep, from) == Some(i) && OccursAt(h, sep, i)
    requires Join(SplitFrom(h, sep, i + |sep|), sep) == h[i + |sep|..]
    ensures Join(SplitFrom(h, sep, from), sep) == h[from..]
  {
    var rest := SplitFrom(h, sep, i + |sep|);
    JoinCons(h[from..i], rest, sep);
    assert h[from..] == h[from..i] + h[i..i + |sep|] + h[i + |sep|..];
  }

  /** Joining a piece in front of at least one more piece puts a separator between. */
  lemma JoinCons(x: string, ps: seq<string>, sep: string)
    requires |ps| >= 1
    ensures Join([x] + ps, sep) == x + sep + Join(ps, sep)
  {
    assert ([x] + ps)[1..] == ps;
  }

  lemma JoinSplit(h: string, sep: string)
    ensures Join(Split(h, sep), sep) == h
  {
    if sep == [] {
      JoinChars(h);
    } else {
      JoinSplitFrom(h, sep, 0);
    }
  }

  /** Splitting into characters and joining them with nothing gives back the text. */
  lemma {:induction false} JoinChars(h: string)
    ensures Join(Split(h, []), []) == h
    decreases |h|
  {
    if |h| >= 2 {
      JoinChars(h[1..]);
      assert Split(h, []) == [[h[0]]] + Split(h[1..], []);
      JoinCons([h[0]], Split(h[1..], []), []);
      assert h == [h[0]] + h[1..];
    } else if |h| == 1 {
      assert h == [h[0]] && Split(h, []) == [h];
    }
  }

  /** `t.split('').reverse().join('')` is the reversal of `t`. */
  lemma ReverseChars(t: string)
    ensures Join(Reverse(Split(t, [])), []) == Reverse(t)
  {
    assert Reverse(Split(t, [])) == Split(Reverse(t), []);
    JoinChars(Reverse(t));
  }

  /** The scan for a one-character needle stops at the first copy of that character. */
  lemma {:induction false} IndexFromChar(h: string, c: char, from: nat, i: nat)
    requires from <= i <= |h|
    requires forall j :: from <= j < i ==> h[j] != c
    ensures i < |h| && h[i] == c ==> IndexFrom(h, [c], from) == Some(i)
    ensures i == |h| ==> IndexFrom(h, [c], from) == None
    decreases i - from
  {
    OccursAtChar(h, c, from);
    if from < i {
      IndexFromChar(h, c, from + 1, i);
    } else if i < |h| && h[i] == c {
    } else if i == |h| {
    }
  }

  /** Splitting on one character undoes joining with it, as long as no piece contains
      that character. */
  lemma {:induction false} SplitJoinCharFrom(pre: string, ls: seq<string>, c: char)
    requires |ls| >= 1
    requires forall k :: 0 <= k < |ls| ==> c !in ls[k]
    ensures SplitFrom(pre + Join(ls, [c]), [c], |pre|) == ls
    decreases |ls|
  {
    var l0 := ls[0];
    assert c !in l0;
    if |ls| == 1 {
      assert ls == [l0];
      SplitJoinCharLast(pre, l0, c);
    } else {
      var rest := ls[1..];
      assert ls == [l0] + rest;
      SplitJoinCharStep(pre, l0, rest, c);
      SplitJoinCharFrom(pre + l0 + [c], rest, c);
    }
  }

  lemma SplitJoinCharLast(pre: string, l0: string, c: char)
    requires c !in l0
    ensures SplitFrom(pre + Join([l0], [c]), [c], |pre|) == [l0]
  {
    var h := pre + l0;
    assert forall j :: |pre| <= j < |h| ==> h[j] == l0[j - |pre|];
    IndexFromChar(h, c, |pre|, |h|);
    assert h[|pre|..] == l0;
  }

  lemma SplitJoinCharStep(pre: string, l0: string, rest: seq<string>, c: char)
    requires |rest| >= 1 && c !in l0
    ensures pre + Join([l0] + rest, [c]) == (pre + l0 + [c]) + Join(rest, [c])
    ensures SplitFrom(pre + Join([l0] + rest, [c]), [c], |pre|)
         == [l0] + SplitFrom((pre + l0 + [c]) + Join(rest, [c]), [c], |pre| + |l0| + 1)
  {
    JoinCons(l0, rest, [c]);
    var h := (pre + l0 + [c]) + Join(rest, [c]);
    assert pre + Join([l0] + rest, [c]) == h;
    PieceAt(pre, l0, c, Join(rest, [c]));
    SplitAtChar(h, c, |pre|, l0);
  }

  lemma PieceAt(pre: string, l0: string, c: char, tail: string)
    ensures var h := (pre + l0 + [c]) + tail;
      |pre| + |l0| < |h| && h[|pre|..|pre| + |l0|] == l0 && h[|pre| + |l0|] == c
  {
  }

  /** When the text from `from` on starts with a piece free of `c` followed by `c`,
      `split` yields that piece first. */
  lemma SplitAtChar(h: string, c: char, from: nat, l0: string)
    requires from + |l0| < |h| && h[from..from + |l0|] == l0 && c !in l0 && h[from + |l0|] == c
    ensures SplitFrom(h, [c], from) == [l0] + SplitFrom(h, [c], from + |l0| + 1)
  {
    forall j | from <= j < from + |l0|
      ensures h[j] != c
    {
      assert h[j] == l0[j - from];
    }
    IndexFromChar(h, c, from, from + |l0|);
  }

  lemma SplitJoinChar(ls: seq<string>, c: char)
    requires |ls| >= 1
    requires forall k :: 0 <= k < |ls| ==> c !in ls[k]
    ensures Split(Join(ls, [c]), [c]) == ls
  {
    SplitJoinCharFrom([], ls, c);
    assert [] + Join(ls, [c]) == Join(ls, [c]);
  }

  /** `split` yields one piece more than the separators it consumes. */
  lemma {:induction false} SplitFromLength(h: string, sep: string, from: nat)
    requires sep != [] && from <= |h|
    ensures |SplitFrom(h, sep, from)| == |PositionsFrom(h, sep, from)| + 1
    decreases |h| - from
  {
    match IndexFrom(h, sep, from)
    case None =>
    case Some(i) => SplitFromLength(h, sep, i + |sep|);
  }

  /** For a one-character needle the scan finds every occurrence of that character:
      the k-th position holds `c` and has exactly k earlier copies of `c`. */
  lemma {:induction false} CharPositions(s: string, c: char, from: nat)
    requires from <= |s|
    ensures |PositionsFrom(s, [c], from)| == Count(s[from..], c)
    ensures forall k :: 0 <= k < |PositionsFrom(s, [c], from)| ==>
              var p := PositionsFrom(s, [c], from)[k];
              from <= p < |s| && s[p] == c && Count(s[from..p], c) == k
    decreases |s| - from
  {
    IndexFromSound(s, [c], from);
    match IndexFrom(s, [c], from)
    case None =>
      NoCharCount(s, c, from, |s|);
      assert PositionsFrom(s, [c], from) == [];
      assert s[from..|s|] == s[from..];
    case Some(i) =>
      CharPositions(s, c, i + 1);
      CharPositionsStep(s, c, from, i, PositionsFrom(s, [c], i + 1));
  }

  lemma CharPositionsStep(s: string, c: char, from: nat, i: nat, rest: seq<nat>)
    requires from <= i < |s| && IndexFrom(s, [c], from) == Some(i)
    requires rest == PositionsFrom(s, [c], i + 1) && |rest| == Count(s[i + 1..], c)
    requires forall k :: 0 <= k < |rest| ==>
              i + 1 <= rest[k] < |s| && s[rest[k]] == c && Count(s[i + 1..rest[k]], c) == k
    ensures |PositionsFrom(s, [c], from)| == Count(s[from..], c)
    ensures forall k :: 0 <= k < |PositionsFrom(s, [c], from)| ==>
              var p := PositionsFrom(s, [c], from)[k];
              from <= p < |s| && s[p] == c && Count(s[from..p], c) == k
  {
    var ps := PositionsFrom(s, [c], from);
    IndexFromSound(s, [c], from);
    OccursAtChar(s, c, i);
    NoCharCount(s, c, from, i);
    assert ps == [i] + rest;
    CountAcross(s, c, from, i, |s|);
    assert s[from..|s|] == s[from..] && s[i + 1..|s|] == s[i + 1..];
    forall k | 0 <= k < |ps|
      ensures from <= ps[k] < |s| && s[ps[k]] == c && Count(s[from..ps[k]], c) == k
    {
      if k > 0 {
        assert ps[k] == rest[k - 1];
        CountAcross(s, c, from, i, rest[k - 1]);
      }
    }
  }

  lemma CountAcross(s: string, c: char, from: nat, i: nat, p: nat)
    requires from <= i < p <= |s| && s[i] == c && Count(s[from..i], c) == 0
    ensures Count(s[from..p], c) == Count(s[i + 1..p], c) + 1
  {
    assert s[from..p] == s[from..i] + [c] + s[i + 1..p];
    CountConcat(s[from..i] + [c], s[i + 1..p], c);
    CountConcat(s[from..i], [c], c);
    assert Count([c], c) == 1 by { assert [c][..0] == []; }
  }

  /** A stretch without an occurrence of `c` counts no copy of it. */
  lemma {:induction false} NoCharCount(s: string, c: char, from: nat, stop: nat)
    requires from <= stop <= |s|
    requires forall j: nat :: from <= j < stop ==> !OccursAt(s, [c], j)
    ensures Count(s[from..stop], c) == 0
    decreases stop - from
  {
    if from < stop {
      OccursAtChar(s, c, stop - 1);
      NoCharCount(s, c, from, stop - 1);
      assert s[from..stop][..stop - from - 1] == s[from..stop - 1];
    }
  }
}
