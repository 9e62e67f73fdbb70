/** The outline tree of `generateOutline` in src/helpers/helpers.js. Each heading is
    handed to a reducer: it opens a new top-level entry or is inserted along the
    rightmost spine of the last entry, following the branches of the inner `insert`
    exactly, including the path values the code computes. */
module OutlineTree {
  import opened Headings

  /** A heading placed in the tree: its record, its position `at` in the flat heading
      list (so its `next` link is heading `at + 1`), the path the code assigns to it,
      and its children. */
  datatype Node = Node(header: Header, at: nat, path: seq<int>, children: seq<Node>)

  /** What `insert` does with a heading: it either lands somewhere inside `into`, or,
      in the branch at helpers.js:117, is pushed onto the children of `into`'s parent. */
  datatype Insertion = Placed(node: Node) | ToParent(what: Node)

  function Level(n: Node): nat { n.header.level }

  /** `insert(into, what)` with the node returned instead of updated in place. */
  function Insert(into: Node, what: Node): (r: Insertion)
    ensures r.ToParent? ==> into.children == [] && Level(what) == Level(into)
    ensures r.ToParent? ==> r.what.header == what.header && r.what.at == what.at &&
                            r.what.children == what.children
    ensures r.Placed? ==> r.node.header == into.header && r.node.at == into.at &&
                          r.node.path == into.path
    decreases into
  {
    var cs := into.children;
    if |cs| == 0 || Level(what) - Level(into) == 1 then
      if Level(what) == Level(into) then ToParent(what)
      else Placed(into.(children := cs + [what.(path := what.path + [|cs|])]))
    else if Level(into) < Level(what) then
      match Insert(cs[|cs| - 1], what.(path := what.path + [|cs| - 1]))
      case Placed(c) => Placed(into.(children := cs[..|cs| - 1] + [c]))
      case ToParent(x) => Placed(into.(children := cs + [x]))
    else
      Placed(into.(children := cs + [what.(path := what.path + [|cs|])]))
  }

  /** The nesting rule: a heading offered to a childless node, or to a node exactly one
      level shallower, becomes that node's last child, unless the two levels are equal,
      in which case it is handed on to the node's parent. */
  lemma InsertNesting(into: Node, what: Node)
    requires into.children == [] || Level(what) - Level(into) == 1
    ensures Level(what) == Level(into) <==> Insert(into, what).ToParent?
    ensures Level(what) == Level(into) ==> Insert(into, what).what == what
    ensures Level(what) != Level(into) ==>
      Insert(into, what).Placed? &&
      Insert(into, what).node.children ==
        into.children + [what.(path := what.path + [|into.children|])]
  {
  }

  /** One step of the `reduce`: the heading at position `at` joins the forest `acc`. A
      new top-level entry is opened for the first heading and for one no deeper than
      the last entry; otherwise the heading goes into the last entry. */
  function Step(acc: seq<Node>, val: Header, at: nat): seq<Node> {
    var lastLevel := if acc == [] then 1 else Level(acc[|acc| - 1]);
    if |acc| == 0 || val.level <= lastLevel then
      acc + [Node(val, at, [(if |acc| > 1 then |acc| else 1) - 1], [])]
    else
      match Insert(acc[|acc| - 1], Node(val, at, [|acc| - 1], []))
      case Placed(n) => acc[..|acc| - 1] + [n]
      case ToParent(_) => assert false; acc
  }

  /** The forest built from the first `n` headings. */
  function ForestUpTo(hs: seq<Header>, n: nat): seq<Node>
    requires n <= |hs|
  {
    if n == 0 then [] else Step(ForestUpTo(hs, n - 1), hs[n - 1], n - 1)
  }

  /** The outline `generateOutline` returns for a list of headings. */
  function Outline(hs: seq<Header>): seq<Node> {
    ForestUpTo(hs, |hs|)
  }

  /** The `reduce` as a loop that pushes into the accumulator. */
  method GenerateOutline(hs: seq<Header>) returns (outline: seq<Node>)
    ensures outline == Outline(hs)
    ensures hs == [] <==> outline == []
  {
    outline := [];
    var i := 0;
    while i < |hs|
      invariant 0 <= i <= |hs|
      invariant outline == ForestUpTo(hs, i)
      invariant i > 0 ==> outline != []
    {
      outline := Step(outline, hs[i], i);
      i := i + 1;
    }
  }

  // ---------------------------------------------------------------------------
  // Pre-order

  /** The flat positions of a tree's headings in pre-order. */
  function Ats(n: Node): seq<nat>
    decreases n, 1
  {
    [n.at] + AtsOf(n.children)
  }

  function AtsOf(ns: seq<Node>): seq<nat>
    decreases ns, 0
  {
    if ns == [] then [] else AtsOf(ns[..|ns| - 1]) + Ats(ns[|ns| - 1])
  }

  lemma AtsOfAppend(ns: seq<Node>, x: Node)
    ensures AtsOf(ns + [x]) == AtsOf(ns) + Ats(x)
  {
    assert (ns + [x])[..|ns|] == ns;
  }

  /** Inserting a fresh leaf adds exactly that heading, at the end of the pre-order. */
  lemma {:induction false} InsertPreorder(into: Node, what: Node)
    requires what.children == []
    ensures Insert(into, what).Placed? ==> Ats(Insert(into, what).node) == Ats(into) + [what.at]
    decreases into
  {
    var cs := into.children;
    if |cs| == 0 || Level(what) - Level(into) == 1 {
      if Level(what) != Level(into) {
        AtsOfAppend(cs, what.(path := what.path + [|cs|]));
      }
    } else if Level(into) < Level(what) {
      var last := cs[|cs| - 1];
      var w := what.(path := what.path + [|cs| - 1]);
      InsertPreorder(last, w);
      assert AtsOf(cs) == AtsOf(cs[..|cs| - 1]) + Ats(last);
      match Insert(last, w)
      case Placed(c) =>
        AtsOfAppend(cs[..|cs| - 1], c);
      case ToParent(x) =>
        AtsOfAppend(cs, x);
    } else {
      AtsOfAppend(cs, what.(path := what.path + [|cs|]));
    }
  }

  /** Each reducer step appends the new heading to the pre-order. */
  lemma StepPreorder(acc: seq<Node>, val: Header, at: nat)
    ensures AtsOf(Step(acc, val, at)) == AtsOf(acc) + [at]
  {
    if acc == [] || val.level <= Level(acc[|acc| - 1]) {
      OpenPreorder(acc, val, at);
    } else {
      DescendPreorder(acc, val, at);
    }
  }

  /** A heading that opens a new entry is the last in the pre-order. */
  lemma OpenPreorder(acc: seq<Node>, val: Header, at: nat)
    requires acc == [] || val.level <= Level(acc[|acc| - 1])
    ensures AtsOf(Step(acc, val, at)) == AtsOf(acc) + [at]
  {
    var leaf := Node(val, at, [(if |acc| > 1 then |acc| else 1) - 1], []);
    AtsOfAppend(acc, leaf);
    assert AtsOf(leaf.children) == [] && Ats(leaf) == [at];
    assert Step(acc, val, at) == acc + [leaf];
  }

  /** A heading that goes into the last entry is appended to that entry's pre-order. */
  lemma DescendPreorder(acc: seq<Node>, val: Header, at: nat)
    requires acc != [] && val.level > Level(acc[|acc| - 1])
    ensures AtsOf(Step(acc, val, at)) == AtsOf(acc) + [at]
  {
    var pre, last := acc[..|acc| - 1], acc[|acc| - 1];
    var leaf := Node(val, at, [|acc| - 1], []);
    var c := Insert(last, leaf).node;
    InsertPreorder(last, leaf);
    assert Insert(last, leaf).Placed?;
    assert Step(acc, val, at) == pre + [c];
    assert AtsOf(acc) == AtsOf(pre) + Ats(last);
    AppendGrown(pre, last, c, at);
  }

  /** Replacing the last entry by one whose pre-order has grown by `at`. */
  lemma AppendGrown(pre: seq<Node>, last: Node, c: Node, at: nat)
    requires Ats(c) == Ats(last) + [at]
    ensures AtsOf(pre + [c]) == (AtsOf(pre) + Ats(last)) + [at]
  {
    AtsOfAppend(pre, c);
  }

  /** The positions `0, 1, ..., n - 1` in order. */
  function Range(n: nat): (r: seq<nat>)
    ensures |r| == n && forall k :: 0 <= k < n ==> r[k] == k
  {
    if n == 0 then [] else Range(n - 1) + [n - 1]
  }

  /** A pre-order traversal of the outline visits every heading exactly once, in the
      order of the heading list. */
  lemma {:induction false} OutlinePreorder(hs: seq<Header>, n: nat)
    requires n <= |hs|
    ensures AtsOf(ForestUpTo(hs, n)) == Range(n)
  {
    if n > 0 {
      OutlinePreorder(hs, n - 1);
      ForestNext(hs, n, ForestUpTo(hs, n - 1));
      StepPreorder(ForestUpTo(hs, n - 1), hs[n - 1], n - 1);
    }
  }

  /** No headings, no outline; some headings, some outline. */
  lemma OutlineEmpty(hs: seq<Header>)
    ensures hs == [] <==> Outline(hs) == []
  {
    OutlinePreorder(hs, |hs|);
  }

  // ---------------------------------------------------------------------------
  // Labels

  /** Every node of the tree carries the record of the heading at its position. */
  predicate Labelled(n: Node, hs: seq<Header>)
    decreases n
  {
    n.at < |hs| && n.header == hs[n.at] &&
    forall k :: 0 <= k < |n.children| ==> Labelled(n.children[k], hs)
  }

  lemma {:induction false} InsertLabelled(into: Node, what: Node, hs: seq<Header>)
    requires Labelled(into, hs) && Labelled(what, hs)
    ensures match Insert(into, what)
      case Placed(n) => Labelled(n, hs)
      case ToParent(x) => Labelled(x, hs)
    decreases into
  {
    var cs := into.children;
    if |cs| == 0 || Level(what) - Level(into) == 1 {
    } else if Level(into) < Level(what) {
      var last := cs[|cs| - 1];
      var w := what.(path := what.path + [|cs| - 1]);
      InsertLabelled(last, w, hs);
    }
  }

  /** Every top-level entry of the outline, and so every node in it, is labelled with
      the heading at its position. */
  lemma {:induction false} OutlineLabelled(hs: seq<Header>, n: nat)
    requires n <= |hs|
    ensures AllLabelled(ForestUpTo(hs, n), hs)
  {
    if n > 0 {
      OutlineLabelled(hs, n - 1);
      LabelledNext(hs, n);
    }
  }

  lemma LabelledNext(hs: seq<Header>, n: nat)
    requires 1 <= n <= |hs| && AllLabelled(ForestUpTo(hs, n - 1), hs)
    ensures AllLabelled(ForestUpTo(hs, n), hs)
  {
    StepLabelled(ForestUpTo(hs, n - 1), hs, n - 1);
  }

  predicate AllLabelled(f: seq<Node>, hs: seq<Header>) {
    forall k :: 0 <= k < |f| ==> Labelled(f[k], hs)
  }

  lemma StepLabelled(acc: seq<Node>, hs: seq<Header>, at: nat)
    requires at < |hs| && AllLabelled(acc, hs)
    ensures AllLabelled(Step(acc, hs[at], at), hs)
  {
    var val := hs[at];
    var lastLevel := if acc == [] then 1 else Level(acc[|acc| - 1]);
    if !(|acc| == 0 || val.level <= lastLevel) {
      InsertLabelled(acc[|acc| - 1], Node(val, at, [|acc| - 1], []), hs);
    }
  }

  // ---------------------------------------------------------------------------
  // The top-level rule

  /** A reducer step opens a new top-level entry exactly when there is none yet or
      the heading's level is at most the last entry's level; otherwise the heading
      lands inside the last entry's subtree and the other entries stay as they were. */
  lemma StepTopLevel(acc: seq<Node>, val: Header, at: nat)
    ensures var cur := Step(acc, val, at);
      (acc == [] || val.level <= Level(acc[|acc| - 1])) <==> |cur| == |acc| + 1
    ensures var cur := Step(acc, val, at);
      |cur| == |acc| + 1 ==>
        cur[..|acc|] == acc && cur[|acc|].header == val && cur[|acc|].children == []
    ensures var cur := Step(acc, val, at);
      |cur| != |acc| + 1 ==>
        acc != [] && |cur| == |acc| && cur[..|acc| - 1] == acc[..|acc| - 1] &&
        Ats(cur[|acc| - 1]) == Ats(acc[|acc| - 1]) + [at]
  {
    var cur := Step(acc, val, at);
    if acc == [] || val.level <= Level(acc[|acc| - 1]) {
      assert cur == acc + [Node(val, at, [(if |acc| > 1 then |acc| else 1) - 1], [])];
    } else {
      var leaf := Node(val, at, [|acc| - 1], []);
      InsertPreorder(acc[|acc| - 1], leaf);
      assert cur == acc[..|acc| - 1] + [Insert(acc[|acc| - 1], leaf).node];
    }
  }

  /** The levels of the top-level entries never increase from left to right. */
  predicate NonIncreasing(f: seq<Node>) {
    forall k :: 0 < k < |f| ==> Level(f[k]) <= Level(f[k - 1])
  }

  /** Step by step non-increasing is non-increasing between any two entries. */
  lemma {:induction false} NonIncreasingPairs(f: seq<Node>, j: nat, k: nat)
    requires NonIncreasing(f) && j <= k < |f|
    ensures Level(f[k]) <= Level(f[j])
    decreases k - j
  {
    if j < k {
      NonIncreasingPairs(f, j, k - 1);
    }
  }

  lemma {:induction false} TopLevelNonIncreasing(hs: seq<Header>, n: nat)
    requires n <= |hs|
    ensures NonIncreasing(ForestUpTo(hs, n))
  {
    if n > 0 {
      TopLevelNonIncreasing(hs, n - 1);
      NonIncreasingNext(hs, n);
    }
  }

  lemma NonIncreasingNext(hs: seq<Header>, n: nat)
    requires 1 <= n <= |hs| && NonIncreasing(ForestUpTo(hs, n - 1))
    ensures NonIncreasing(ForestUpTo(hs, n))
  {
    StepNonIncreasing(ForestUpTo(hs, n - 1), hs[n - 1], n - 1);
  }

  lemma StepNonIncreasing(acc: seq<Node>, val: Header, at: nat)
    requires NonIncreasing(acc)
    ensures NonIncreasing(Step(acc, val, at))
  {
    var cur := Step(acc, val, at);
    StepTopLevel(acc, val, at);
    if |cur| == |acc| + 1 {
      forall k | 0 <= k < |acc|
        ensures Level(cur[k]) == Level(acc[k])
      {
        assert cur[..|acc|][k] == cur[k];
      }
      if acc != [] {
        assert Level(cur[|acc|]) <= Level(acc[|acc| - 1]);
      }
    } else {
      forall k | 0 <= k < |acc| - 1
        ensures Level(cur[k]) == Level(acc[k])
      {
        assert cur[..|acc| - 1][k] == cur[k] && acc[..|acc| - 1][k] == acc[k];
      }
      assert Level(cur[|acc| - 1]) == Level(acc[|acc| - 1]);
    }
  }

  // ---------------------------------------------------------------------------
  // Worked cases

  /** One more heading: the forest for `n` headings is the forest for `n - 1` with
      the reducer applied to heading `n - 1`. */
  lemma ForestNext(hs: seq<Header>, n: nat, prev: seq<Node>)
    requires 1 <= n <= |hs| && ForestUpTo(hs, n - 1) == prev
    ensures ForestUpTo(hs, n) == Step(prev, hs[n - 1], n - 1)
  {
  }

  /** The first heading opens the first entry, with path `[0]`. */
  lemma OpenFirst(hs: seq<Header>)
    requires |hs| >= 1
    ensures ForestUpTo(hs, 1) == [Node(hs[0], 0, [0], [])]
  {
    ForestNext(hs, 1, []);
  }

  /** A childless node adopts a heading of a different level as its first child. */
  lemma InsertIntoLeaf(into: Node, what: Node)
    requires into.children == [] && Level(what) != Level(into)
    ensures Insert(into, what) == Placed(into.(children := [what.(path := what.path + [0])]))
  {
    assert [] + [what.(path := what.path + [0])] == [what.(path := what.path + [0])];
  }

  /** A deeper heading after a lone childless entry becomes that entry's first child. */
  lemma StepIntoLeaf(top: Node, val: Header, at: nat)
    requires top.children == [] && top.path == [0] && Level(top) < val.level
    ensures Step([top], val, at) == [top.(children := [Node(val, at, [0, 0], [])])]
  {
    InsertIntoLeaf(top, Node(val, at, [0], []));
    assert [0] + [0] == [0, 0];
  }

  /** A heading two levels below the first becomes its direct child. */
  lemma DeeperHeadingIsChild(a: Header, b: Header)
    requires a.level == 1 && b.level == 3
    ensures Outline([a, b]) == [Node(a, 0, [0], [Node(b, 1, [0, 0], [])])]
  {
    var hs := [a, b];
    OpenFirst(hs);
    StepIntoLeaf(Node(a, 0, [0], []), b, 1);
    ForestNext(hs, 2, [Node(a, 0, [0], [])]);
  }

  /** Levels need not grow along a path: after h1 and h4, an h3 goes under the h4. */
  lemma ShallowerHeadingUnderDeeper(a: Header, b: Header, c: Header)
    requires a.level == 1 && b.level == 4 && c.level == 3
    ensures Outline([a, b, c]) ==
      [Node(a, 0, [0], [Node(b, 1, [0, 0], [Node(c, 2, [0, 0, 0], [])])])]
  {
    var hs := [a, b, c];
    var na := Node(a, 0, [0], []);
    OpenFirst(hs);
    StepIntoLeaf(na, b, 1);
    ForestNext(hs, 2, [na]);
    var f2 := [na.(children := [Node(b, 1, [0, 0], [])])];
    StepUnderDeeper(na, Node(b, 1, [0, 0], []), c, 2);
    ForestNext(hs, 3, f2);
  }

  /** The third heading of the case above: it passes the h1 (two levels apart) and
      becomes the first child of the childless h4. */
  lemma StepUnderDeeper(na: Node, nb: Node, c: Header, at: nat)
    requires na.children == [] && na.path == [0] && Level(na) == 1
    requires nb.children == [] && nb.path == [0, 0] && Level(nb) == 4 && c.level == 3
    ensures Step([na.(children := [nb])], c, at) ==
      [na.(children := [nb.(children := [Node(c, at, [0, 0, 0], [])])])]
  {
    var top := na.(children := [nb]);
    InsertIntoLeaf(nb, Node(c, at, [0, 0], []));
    assert [0] + [0] == [0, 0] && [0, 0] + [0] == [0, 0, 0];
    assert Insert(top, Node(c, at, [0], [])) == Placed(top.(children := [nb.(children := [Node(c, at, [0, 0, 0], [])])]));
  }

  /** A heading offered to a childless node of its own level joins that node's
      parent, with the same path as the node. */
  lemma EqualLevelJoinsParent(a: Header, b: Header, c: Header)
    requires a.level == 1 && b.level == 3 && c.level == 3
    ensures Outline([a, b, c]) ==
      [Node(a, 0, [0], [Node(b, 1, [0, 0], []), Node(c, 2, [0, 0], [])])]
  {
    var hs := [a, b, c];
    var na := Node(a, 0, [0], []);
    OpenFirst(hs);
    StepIntoLeaf(na, b, 1);
    ForestNext(hs, 2, [na]);
    StepToParent(na, Node(b, 1, [0, 0], []), c, 2);
    ForestNext(hs, 3, [na.(children := [Node(b, 1, [0, 0], [])])]);
  }

  /** The third heading of the case above: the childless h3 hands it back to the h1. */
  lemma StepToParent(na: Node, nb: Node, c: Header, at: nat)
    requires na.children == [] && na.path == [0] && Level(na) == 1
    requires nb.children == [] && nb.path == [0, 0] && Level(nb) == 3 && c.level == 3
    ensures Step([na.(children := [nb])], c, at) ==
      [na.(children := [nb, Node(c, at, [0, 0], [])])]
  {
    var top := na.(children := [nb]);
    assert [0] + [0] == [0, 0];
    assert Insert(nb, Node(c, at, [0, 0], [])) == ToParent(Node(c, at, [0, 0], []));
    assert [nb] + [Node(c, at, [0, 0], [])] == [nb, Node(c, at, [0, 0], [])];
  }

  /** Three headings of non-increasing level open three top-level entries. The second
      gets the path `[0]`, as the first one does; the third gets `[1]`. */
  lemma TopLevelPaths(a: Header, b: Header, c: Header)
    requires b.level <= a.level && c.level <= b.level
    ensures Outline([a, b, c]) ==
      [Node(a, 0, [0], []), Node(b, 1, [0], []), Node(c, 2, [1], [])]
  {
    var hs := [a, b, c];
    var na, nb, nc := Node(a, 0, [0], []), Node(b, 1, [0], []), Node(c, 2, [1], []);
    OpenFirst(hs);
    assert Step([na], b, 1) == [na] + [nb];
    ForestNext(hs, 2, [na]);
    assert Step([na, nb], c, 2) == [na, nb] + [nc];
    ForestNext(hs, 3, [na, nb]);
  }
}
