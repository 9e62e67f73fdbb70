/** The position mapper and the substring mover of src/helpers/helpers.js:
    `nthIndexOf`, `indexOfLine`, `moveSubstring` and `findWordBounds`, each written
    as the JavaScript expression pipeline it is, with lemmas giving its closed form. */
module TextHelpers {
  import opened Wrappers
  import opened JsString

  // ---------------------------------------------------------------------------
  // nthIndexOf

  /** `haystack.split(needle, n).join(needle).length`: where the n-th occurrence of
      the needle starts. */
  function NthIndexOf(h: string, nd: string, n: nat): (r: nat)
    ensures r <= |h|
  {
    NthIndexOfBound(h, nd, n);
    |Join(Take(Split(h, nd), n), nd)|
  }

  lemma NthIndexOfBound(h: string, nd: string, n: nat)
    ensures |Join(Take(Split(h, nd), n), nd)| <= |h|
  {
    if nd != [] {
      ScanLength(h, nd, 0, n);
      NthFromPositions(h, nd, 0, n);
      PositionsSound(h, nd, 0);
      var ps := Positions(h, nd);
      if 1 <= n <= |ps| {
        assert OccursAt(h, nd, ps[n - 1]);
      }
    } else {
      EmptyNeedleLength(h, n);
    }
  }

  /** Where a left-to-right scan from `from` finds the n-th occurrence of `nd`: `from`
      itself for n = 0, and the end of the text when there are fewer than n. */
  function NthFrom(h: string, nd: string, from: nat, n: nat): nat
    decreases n
  {
    if n == 0 then from
    else match IndexFrom(h, nd, from)
      case None => |h|
      case Some(i) => if n == 1 then i else NthFrom(h, nd, i + |nd|, n - 1)
  }

  /** The pieces before the n-th separator, rejoined, reach exactly to that separator. */
  lemma {:induction false} ScanLength(h: string, nd: string, from: nat, n: nat)
    requires nd != [] && from <= |h|
    ensures from + |Join(Take(SplitFrom(h, nd, from), n), nd)| == NthFrom(h, nd, from, n)
    decreases n
  {
    if n >= 2 && IndexFrom(h, nd, from).Some? {
      var i := IndexFrom(h, nd, from).value;
      ScanLength(h, nd, i + |nd|, n - 1);
      ScanStep(h, nd, from, i, n);
    } else {
      ScanFirst(h, nd, from, n);
    }
  }

  /** The scan up to the first separator, or up to the end when there is none. */
  lemma ScanFirst(h: string, nd: string, from: nat, n: nat)
    requires nd != [] && from <= |h|
    requires n < 2 || IndexFrom(h, nd, from).None?
    ensures from + |Join(Take(SplitFrom(h, nd, from), n), nd)| == NthFrom(h, nd, from, n)
  {
    var joined := Join(Take(SplitFrom(h, nd, from), n), nd);
    if n == 0 {
      assert joined == [];
    } else {
      match IndexFrom(h, nd, from)
      case None =>
        assert SplitFrom(h, nd, from) == [h[from..]];
        assert joined == h[from..];
      case Some(i) =>
        var x := h[from..i];
        var rest := SplitFrom(h, nd, i + |nd|);
        assert SplitFrom(h, nd, from) == [x] + rest;
        TakeCons(x, rest, n);
        assert joined == x;
    }
  }

  /** One separator further: the scan from `from` passes piece `h[from..i]` and the
      separator at `i`, then goes on as the scan from `i + |nd|`. */
  lemma ScanStep(h: string, nd: string, from: nat, i: nat, n: nat)
    requires nd != [] && from <= |h| && n >= 2 && IndexFrom(h, nd, from) == Some(i)
    requires i + |Join(Take(SplitFrom(h, nd, i + |nd|), n - 1), nd)| + |nd|
          == NthFrom(h, nd, i + |nd|, n - 1)
    ensures from + |Join(Take(SplitFrom(h, nd, from), n), nd)| == NthFrom(h, nd, from, n)
  {
    var x := h[from..i];
    var rest := SplitFrom(h, nd, i + |nd|);
    assert SplitFrom(h, nd, from) == [x] + rest;
    TakeCons(x, rest, n);
    JoinCons(x, Take(rest, n - 1), nd);
  }

  /** The n-th occurrence the scan finds is the n-th of the positions it reports. */
  lemma {:induction false} NthFromPositions(h: string, nd: string, from: nat, n: nat)
    requires nd != []
    ensures 1 <= n <= |PositionsFrom(h, nd, from)| ==>
      NthFrom(h, nd, from, n) == PositionsFrom(h, nd, from)[n - 1]
    ensures n > |PositionsFrom(h, nd, from)| ==> NthFrom(h, nd, from, n) == |h|
    decreases n
  {
    if n > 0 {
      match IndexFrom(h, nd, from)
      case None =>
      case Some(i) =>
        var later := PositionsFrom(h, nd, i + |nd|);
        assert PositionsFrom(h, nd, from) == [i] + later;
        if n > 1 {
          NthFromPositions(h, nd, i + |nd|, n - 1);
          if n - 1 <= |later| {
            ConsIndex(i, later, n - 1);
          }
        }
    }
  }

  lemma ConsIndex<T>(x: T, rest: seq<T>, k: nat)
    requires 1 <= k <= |rest|
    ensures ([x] + rest)[k] == rest[k - 1]
  {
  }

  /** Taking `n >= 1` elements of a list keeps its head and takes `n - 1` of its tail. */
  lemma TakeCons<T>(x: T, rest: seq<T>, n: nat)
    requires n >= 1
    ensures Take([x] + rest, n) == [x] + Take(rest, n - 1)
  {
    if n <= |rest| + 1 {
      assert ([x] + rest)[..n] == [x] + rest[..n - 1];
    }
  }

  /** With an empty needle `split` gives single characters, so the first `n` of them
      rejoined are `n` characters long (or the whole haystack). */
  lemma EmptyNeedleLength(h: string, n: nat)
    ensures |Join(Take(Split(h, []), n), [])| == if n <= |h| then n else |h|
  {
    var taken := Take(Split(h, []), n);
    JoinSingletons(taken);
  }

  lemma {:induction false} JoinSingletons(ps: seq<string>)
    requires forall k :: 0 <= k < |ps| ==> |ps[k]| == 1
    ensures |Join(ps, [])| == |ps|
  {
    if |ps| > 1 {
      JoinSingletons(ps[1..]);
    }
  }

  /** For a non-empty needle `nthIndexOf` returns 0 for n = 0, the start of the n-th
      non-overlapping occurrence found scanning left to right when there is one, and
      the haystack's length when there are fewer than n. */
  lemma NthIndexOfFindsNth(h: string, nd: string, n: nat)
    requires nd != []
    ensures n == 0 ==> NthIndexOf(h, nd, n) == 0
    ensures 1 <= n <= |Positions(h, nd)| ==> NthIndexOf(h, nd, n) == Positions(h, nd)[n - 1]
    ensures n > |Positions(h, nd)| ==> NthIndexOf(h, nd, n) == |h|
  {
    ScanLength(h, nd, 0, n);
    NthFromPositions(h, nd, 0, n);
  }

  /** The same, stated without the scan: for n >= 1 the result is either an offset
      where the needle occurs or the haystack's length, and it is an occurrence
      exactly when the needle occurs at least n times without overlap. */
  lemma NthIndexOfOccurrence(h: string, nd: string, n: nat)
    requires nd != [] && n >= 1
    ensures NthIndexOf(h, nd, n) < |h| <==> n <= |Positions(h, nd)|
    ensures NthIndexOf(h, nd, n) < |h| ==> OccursAt(h, nd, NthIndexOf(h, nd, n))
    ensures n == 1 ==> forall j: nat :: j < NthIndexOf(h, nd, n) ==> !OccursAt(h, nd, j)
  {
    NthIndexOfFindsNth(h, nd, n);
    PositionsSound(h, nd, 0);
    IndexFromSound(h, nd, 0);
    var ps := Positions(h, nd);
    if n <= |ps| {
      assert OccursAt(h, nd, ps[n - 1]);
    }
  }

  /** An empty needle counts as occurring after every character. */
  lemma NthIndexOfEmptyNeedle(h: string, n: nat)
    ensures NthIndexOf(h, [], n) == if n <= |h| then n else |h|
  {
    EmptyNeedleLength(h, n);
  }

  /** A later occurrence never starts before an earlier one. */
  lemma NthIndexOfMonotone(h: string, nd: string, n: nat, m: nat)
    requires n <= m
    ensures NthIndexOf(h, nd, n) <= NthIndexOf(h, nd, m)
  {
    if nd == [] {
      NthIndexOfEmptyNeedle(h, n);
      NthIndexOfEmptyNeedle(h, m);
    } else {
      NonEmptyNeedleMonotone(h, nd, n, m);
    }
  }

  lemma NonEmptyNeedleMonotone(h: string, nd: string, n: nat, m: nat)
    requires nd != [] && n <= m
    ensures NthIndexOf(h, nd, n) <= NthIndexOf(h, nd, m)
  {
    NthIndexOfFindsNth(h, nd, n);
    NthIndexOfFindsNth(h, nd, m);
    PositionsSound(h, nd, 0);
    var ps := Positions(h, nd);
    if 1 <= n < m && m <= |ps| {
      assert ps[n - 1] + |nd| <= ps[m - 1];
    } else if 1 <= n <= |ps| {
      assert OccursAt(h, nd, ps[n - 1]);
    }
  }

  /** Two verbatim-equal headings are told apart by their occurrence number: in
      "# a\nfoo\n# a\n" the first "# a" is at offset 0 and the second at offset 8. */
  lemma DuplicateHeadingOffsets()
    ensures NthIndexOf("# a\nfoo\n# a\n", "# a", 1) == 0
    ensures NthIndexOf("# a\nfoo\n# a\n", "# a", 2) == 8
  {
    var h, nd := "# a\nfoo\n# a\n", "# a";
    assert OccursAt(h, nd, 0) && OccursAt(h, nd, 8);
    assert IndexFrom(h, nd, 0) == Some(0);
    forall i | 3 <= i < 8
      ensures !OccursAt(h, nd, i)
    {
      assert h[i] != '#';
      assert h[i..i + 3][0] == h[i];
    }
    assert IndexFrom(h, nd, 8) == Some(8);
    assert IndexFrom(h, nd, 7) == Some(8);
    assert IndexFrom(h, nd, 6) == Some(8);
    assert IndexFrom(h, nd, 5) == Some(8);
    assert IndexFrom(h, nd, 4) == Some(8);
    assert IndexFrom(h, nd, 3) == Some(8);
    var ps := Positions(h, nd);
    assert ps == [0] + PositionsFrom(h, nd, 3);
    assert PositionsFrom(h, nd, 3) == [8] + PositionsFrom(h, nd, 11);
    NthIndexOfFindsNth(h, nd, 1);
    NthIndexOfFindsNth(h, nd, 2);
  }

  // ---------------------------------------------------------------------------
  // indexOfLine

  /** `str.split('\n').slice(0, ln).join('\n').length`. */
  function IndexOfLine(s: string, ln: int): nat {
    |Join(Slice(Split(s, "\n"), 0, ln), "\n")|
  }

  /** For k >= 0 `indexOfLine` is `nthIndexOf` with the newline as needle. */
  lemma IndexOfLineIsNthNewline(s: string, k: nat)
    ensures IndexOfLine(s, k) == NthIndexOf(s, "\n", k)
  {
    var lines := Split(s, "\n");
    assert Slice(lines, 0, k) == Take(lines, k);
  }

  /** `indexOfLine(s, k)` is 0 for k = 0, the offset of the k-th newline when the text
      has at least k of them, and the text's length otherwise. It is not the offset
      where line k begins: that lies one character further on. */
  lemma IndexOfLineClosedForm(s: string, k: nat)
    ensures k == 0 ==> IndexOfLine(s, k) == 0
    ensures 1 <= k <= Count(s, '\n') ==>
      var r := IndexOfLine(s, k);
      r < |s| && s[r] == '\n' && Count(s[..r], '\n') == k - 1
    ensures k > Count(s, '\n') ==> IndexOfLine(s, k) == |s|
  {
    IndexOfLineIsNthNewline(s, k);
    NthIndexOfFindsNth(s, "\n", k);
    CharPositions(s, '\n', 0);
    assert s[0..] == s;
    if 1 <= k <= Count(s, '\n') {
      var r := Positions(s, "\n")[k - 1];
      assert s[0..r] == s[..r];
    }
  }

  /** `indexOfLine("a\nb\nc", 2)` is 3, the offset of the second newline; line 2
      ("b") starts at 2. */
  lemma IndexOfLineExample()
    ensures IndexOfLine("a\nb\nc", 2) == 3
  {
    var s := "a\nb\nc";
    assert s[..1] == "a" && s[..2] == "a\n" && s[..3] == "a\nb" && s[..4] == "a\nb\n";
    assert Count("a", '\n') == 0;
    assert Count(s[..2], '\n') == 1;
    assert s[..3][..2] == s[..2];
    assert Count(s[..3], '\n') == 1;
    assert s[..4][..3] == s[..3];
    assert Count(s[..4], '\n') == 2;
    assert s[..4] == s[..|s| - 1];
    assert Count(s, '\n') == 2;
    IndexOfLineClosedForm(s, 2);
  }

  lemma IndexOfLineMonotone(s: string, j: nat, k: nat)
    requires j <= k
    ensures IndexOfLine(s, j) <= IndexOfLine(s, k)
  {
    IndexOfLineIsNthNewline(s, j);
    IndexOfLineIsNthNewline(s, k);
    NthIndexOfMonotone(s, "\n", j, k);
  }

  /** `s.split('\n').length`, the editor's line count, is one more than the number of
      newlines. */
  lemma LineCount(s: string)
    ensures |Split(s, "\n")| == Count(s, '\n') + 1
  {
    SplitFromLength(s, "\n", 0);
    CharPositions(s, '\n', 0);
    assert s[0..] == s;
  }

  /** Counting the newlines before an offset gives the line that offset lies on:
      with c newlines before `pos`, `pos` lies after the c-th newline and at or
      before the (c + 1)-th. */
  lemma LineOfOffset(s: string, pos: nat)
    requires pos <= |s|
    ensures var c := Count(s[..pos], '\n');
      IndexOfLine(s, c) <= pos <= IndexOfLine(s, c + 1)
  {
    LineStartBefore(s, pos);
    LineEndAfter(s, pos);
  }

  lemma LineStartBefore(s: string, pos: nat)
    requires pos <= |s|
    ensures IndexOfLine(s, Count(s[..pos], '\n')) <= pos
  {
    var c := Count(s[..pos], '\n');
    IndexOfLineClosedForm(s, c);
    if c >= 1 {
      CountPrefixMonotone(s, '\n', pos, |s|);
      assert s[..|s|] == s;
      var r := IndexOfLine(s, c);
      if r >= pos {
        CountPrefixMonotone(s, '\n', pos, r);
      }
    }
  }

  lemma LineEndAfter(s: string, pos: nat)
    requires pos <= |s|
    ensures pos <= IndexOfLine(s, Count(s[..pos], '\n') + 1)
  {
    var c := Count(s[..pos], '\n');
    IndexOfLineClosedForm(s, c + 1);
    if c + 1 <= Count(s, '\n') {
      var r := IndexOfLine(s, c + 1);
      if r < pos {
        assert s[..r + 1][..r] == s[..r];
        assert Count(s[..r + 1], '\n') == c + 1;
        CountPrefixMonotone(s, '\n', r + 1, pos);
      }
    }
  }

  lemma CountPrefixMonotone(s: string, c: char, i: nat, j: nat)
    requires i <= j <= |s|
    ensures Count(s[..i], c) <= Count(s[..j], c)
  {
    assert s[..j] == s[..i] + s[i..j];
    CountConcat(s[..i], s[i..j], c);
  }

  // ---------------------------------------------------------------------------
  // moveSubstring

  /** Cuts `s[cutStart..cutEnd]` out and pastes it at `pasteIndex`, an index into the
      original text: a paste point at or after the cut is shifted left by the cut's
      length before the insertion. */
  function MoveSubstring(s: string, cutStart: nat, cutEnd: nat, pasteIndex: nat): string {
    // `slice` with non-negative indices clamps them to the text
    var lo := if cutStart <= |s| then cutStart else |s|;
    var hi := if cutEnd <= |s| then cutEnd else |s|;
    var cutted := if lo < hi then s[lo..hi] else [];
    var holed := s[..lo] + s[hi..];
    var paste := if cutEnd <= pasteIndex then pasteIndex - (cutEnd - cutStart) else pasteIndex;
    var at := if paste <= |holed| then paste else |holed|;
    holed[..at] + cutted + holed[at..]
  }

  /** Moving a section up: it lands at the paste point and what lay between slides
      down behind it. */
  lemma MoveSubstringUp(s: string, cs: nat, ce: nat, p: nat)
    requires p <= cs <= ce <= |s|
    ensures MoveSubstring(s, cs, ce, p) == s[..p] + s[cs..ce] + s[p..cs] + s[ce..]
  {
    var holed := s[..cs] + s[ce..];
    assert holed[..p] == s[..p];
    assert holed[p..] == s[p..cs] + s[ce..];
  }

  /** Moving a section down: what lay between the cut and the paste point slides up
      and the section lands just before the text that followed the paste point. */
  lemma MoveSubstringDown(s: string, cs: nat, ce: nat, p: nat)
    requires cs <= ce <= p <= |s|
    ensures MoveSubstring(s, cs, ce, p) == s[..cs] + s[ce..p] + s[cs..ce] + s[p..]
  {
    var holed := s[..cs] + s[ce..];
    var paste := p - (ce - cs);
    assert holed[..paste] == s[..cs] + s[ce..p];
    assert holed[paste..] == s[p..];
  }

  /** Whatever the paste point, a well-formed cut only rearranges the text. */
  lemma MoveSubstringPermutes(s: string, cs: nat, ce: nat, p: nat)
    requires cs <= ce
    ensures |MoveSubstring(s, cs, ce, p)| == |s|
    ensures multiset(MoveSubstring(s, cs, ce, p)) == multiset(s)
  {
    var lo := if cs <= |s| then cs else |s|;
    var hi := if ce <= |s| then ce else |s|;
    var holed := s[..lo] + s[hi..];
    var paste := if ce <= p then p - (ce - cs) else p;
    var at := if paste <= |holed| then paste else |holed|;
    if lo == hi {
      assert s[lo..hi] == [];
    }
    assert MoveSubstring(s, cs, ce, p) == holed[..at] + s[lo..hi] + holed[at..];
    CutMultiset(s, lo, hi);
    PasteMultiset(holed, s[lo..hi], at);
  }

  lemma CutMultiset(s: string, lo: nat, hi: nat)
    requires lo <= hi <= |s|
    ensures multiset(s[..lo] + s[hi..]) + multiset(s[lo..hi]) == multiset(s)
  {
    assert s == s[..lo] + s[lo..hi] + s[hi..];
  }

  lemma PasteMultiset(x: string, y: string, k: nat)
    requires k <= |x|
    ensures multiset(x[..k] + y + x[k..]) == multiset(x) + multiset(y)
  {
    assert x == x[..k] + x[k..];
  }

  /** Pasting a section where it starts or where it ends leaves the text as it was. */
  lemma MoveSubstringInPlace(s: string, cs: nat, ce: nat)
    requires cs <= ce <= |s|
    ensures MoveSubstring(s, cs, ce, cs) == s
    ensures MoveSubstring(s, cs, ce, ce) == s
  {
    MoveSubstringUp(s, cs, ce, cs);
    assert s == s[..cs] + s[cs..ce] + s[ce..];
    MoveSubstringDown(s, cs, ce, ce);
  }

  /** Cutting nothing changes nothing, wherever the cut and the paste point lie. */
  lemma MoveSubstringEmptyCut(s: string, c: nat, p: nat)
    ensures MoveSubstring(s, c, c, p) == s
  {
    var lo := if c <= |s| then c else |s|;
    var at := if p <= |s| then p else |s|;
    assert s[..lo] + s[lo..] == s;
    assert s[..at] + s[at..] == s;
  }

  /** A move is undone by moving the section back from where it landed. */
  lemma MoveSubstringUndo(s: string, cs: nat, ce: nat, p: nat)
    requires cs <= ce <= |s| && (p <= cs || ce <= p <= |s|)
    ensures var moved := MoveSubstring(s, cs, ce, p);
      var len := ce - cs;
      if p <= cs then MoveSubstring(moved, p, p + len, ce) == s
      else MoveSubstring(moved, p - len, p, cs) == s
  {
    if p <= cs {
      UndoUp(s, cs, ce, p);
    } else {
      UndoDown(s, cs, ce, p);
    }
  }

  lemma UndoUp(s: string, cs: nat, ce: nat, p: nat)
    requires p <= cs <= ce <= |s|
    ensures MoveSubstring(MoveSubstring(s, cs, ce, p), p, p + (ce - cs), ce) == s
  {
    var a, b, c, d := s[..p], s[p..cs], s[cs..ce], s[ce..];
    Decompose(s, p, cs, ce);
    MoveUpPieces(a, b, c, d);
    MoveDownPieces(a, c, b, d);
  }

  lemma UndoDown(s: string, cs: nat, ce: nat, p: nat)
    requires cs <= ce <= p <= |s|
    ensures MoveSubstring(MoveSubstring(s, cs, ce, p), p - (ce - cs), p, cs) == s
  {
    var a, b, c, d := s[..cs], s[cs..ce], s[ce..p], s[p..];
    var moved := a + c + b + d;
    MoveSubstringDown(s, cs, ce, p);
    assert MoveSubstring(s, cs, ce, p) == moved;
    Pieces(a, c, b, d);
    MoveSubstringUp(moved, p - (ce - cs), p, cs);
    Decompose(s, cs, ce, p);
  }

  /** Moving `c` up in front of `b`. */
  lemma MoveUpPieces(a: string, b: string, c: string, d: string)
    ensures MoveSubstring(a + b + c + d, |a| + |b|, |a| + |b| + |c|, |a|) == a + c + b + d
  {
    MoveSubstringUp(a + b + c + d, |a| + |b|, |a| + |b| + |c|, |a|);
    Pieces(a, b, c, d);
  }

  /** Moving `b` down behind `c`. */
  lemma MoveDownPieces(a: string, b: string, c: string, d: string)
    ensures MoveSubstring(a + b + c + d, |a|, |a| + |b|, |a| + |b| + |c|) == a + c + b + d
  {
    MoveSubstringDown(a + b + c + d, |a|, |a| + |b|, |a| + |b| + |c|);
    Pieces(a, b, c, d);
  }

  /** A text is the concatenation of its four pieces between three cut points. */
  lemma Decompose(s: string, i: nat, j: nat, k: nat)
    requires i <= j <= k <= |s|
    ensures s == s[..i] + s[i..j] + s[j..k] + s[k..]
  {
  }

  /** The four pieces of a concatenation are found again by slicing it. */
  lemma Pieces(a: string, b: string, c: string, d: string)
    ensures var x := a + b + c + d;
      x[..|a|] == a && x[|a|..|a| + |b|] == b &&
      x[|a| + |b|..|a| + |b| + |c|] == c && x[|a| + |b| + |c|..] == d
  {
  }

  /** Cutting "BC" out of "ABCDE" and pasting it before the "E" gives "ADBCE". */
  lemma MoveSubstringExample()
    ensures MoveSubstring("ABCDE", 1, 3, 4) == "ADBCE"
  {
    MoveSubstringDown("ABCDE", 1, 3, 4);
    assert "ABCDE"[..1] + "ABCDE"[3..4] + "ABCDE"[1..3] + "ABCDE"[4..] == "ADBCE";
  }

  // ---------------------------------------------------------------------------
  // findWordBounds

  /** A character the regular expression class `\w` matches. */
  predicate IsWordChar(c: char) {
    'a' <= c <= 'z' || 'A' <= c <= 'Z' || '0' <= c <= '9' || c == '_'
  }

  /** `t.split(/\W/)[0]`: the text before the first non-word character. */
  function FirstWord(t: string): (w: string)
    ensures |w| <= |t| && w == t[..|w|]
    ensures forall k :: 0 <= k < |w| ==> IsWordChar(w[k])
    ensures |w| == |t| || !IsWordChar(t[|w|])
  {
    if t == [] || !IsWordChar(t[0]) then [] else [t[0]] + FirstWord(t[1..])
  }

  /** The word around `index`: the run of word characters ending at `index` read
      backwards, and the run starting there read forwards. */
  function FindWordBounds(s: string, index: nat): (nat, nat) {
    var before := Join(Reverse(Split(Slice(s, 0, index), [])), []);
    ReverseChars(Slice(s, 0, index));
    var after := Slice(s, index, |s|);
    (index - |FirstWord(before)|, index + |FirstWord(after)|)
  }

  /** The bounds enclose the index and delimit a maximal run of word characters. */
  lemma FindWordBoundsMaximal(s: string, i: nat)
    requires i <= |s|
    ensures var (a, b) := FindWordBounds(s, i);
      a <= i <= b <= |s| &&
      (forall k :: a <= k < b ==> IsWordChar(s[k])) &&
      (a == 0 || !IsWordChar(s[a - 1])) &&
      (b == |s| || !IsWordChar(s[b]))
  {
    var before := Reverse(s[..i]);
    var after := s[i..];
    assert Slice(s, 0, i) == s[..i] && Slice(s, i, |s|) == after;
    ReverseChars(s[..i]);
    var wb, wa := FirstWord(before), FirstWord(after);
    var (a, b) := FindWordBounds(s, i);
    assert a == i - |wb| && b == i + |wa|;
    forall k | a <= k < b
      ensures IsWordChar(s[k])
    {
      if k < i {
        assert before[i - 1 - k] == s[k];
        assert wb[i - 1 - k] == before[i - 1 - k];
      } else {
        assert wa[k - i] == after[k - i];
      }
    }
    if a > 0 {
      assert before[|wb|] == s[a - 1];
    }
    if b < |s| {
      assert after[|wa|] == s[b];
    }
  }
}
