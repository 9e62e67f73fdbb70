/** The state of the `Editor` component of src/components/Editor.js and the handlers
    that compute with it: the preview generator that tags every source line, the
    state update that derives `html`, `loc` and the outline from the text, the
    outline click that finds a heading's line, and the outline drag that moves a
    heading's section within the text. */
module EditorModel {
  import opened Wrappers
  import opened JsString
  import opened TextHelpers
  import opened Headings
  import opened OutlineTree

  /** The language plug-in: its converter `getToHtml()`, its `lineSafeInsert`, the
      matches of its heading pattern in a text, and what the heading pattern of
      `findHeaders` extracts from a rendered heading. */
  datatype Language = Language(
    toHtml: string -> string,
    lineSafeInsert: (string, string) -> string,
    headerMatches: string -> seq<string>,
    headingTag: string -> Option<HeadingTag>)

  /** The line markers: `createNinja(i)` and `ninjasToHtml`. */
  datatype Ninjas = Ninjas(create: nat -> string, toHtml: string -> string)

  // ---------------------------------------------------------------------------
  // generateHtml

  /** Line `i` handed to `insert` together with the marker for line `i`. */
  function TaggedLines(lines: seq<string>, insert: (string, string) -> string,
                       create: nat -> string): seq<string>
  {
    seq(|lines|, i requires 0 <= i < |lines| => insert(lines[i], create(i)))
  }

  /** The text with a marker in every line, before conversion. */
  function TagLines(raw: string, insert: (string, string) -> string, create: nat -> string): string {
    Join(TaggedLines(Split(raw, "\n"), insert, create), "\n")
  }

  /** When the plug-in keeps every line a single line, line `i` of the tagged text is
      line `i` of the source passed through `lineSafeInsert` with marker `i`: every
      line is tagged exactly once and the line count is kept. */
  lemma TagLinesPerLine(raw: string, insert: (string, string) -> string, create: nat -> string)
    requires var t := TaggedLines(Split(raw, "\n"), insert, create);
      forall i :: 0 <= i < |t| ==> '\n' !in t[i]
    ensures var lines, tagged := Split(raw, "\n"), Split(TagLines(raw, insert, create), "\n");
      |tagged| == |lines| == Count(raw, '\n') + 1 &&
      forall i :: 0 <= i < |lines| ==> tagged[i] == insert(lines[i], create(i))
  {
    var t := TaggedLines(Split(raw, "\n"), insert, create);
    SplitJoinChar(t, '\n');
    LineCount(raw);
  }

  /** With the default `lineSafeInsert`, which returns the line unchanged, tagging
      gives back the source text. */
  lemma TagLinesDefault(raw: string, create: nat -> string)
    ensures TagLines(raw, (line: string, ninja: string) => line, create) == raw
  {
    var lines := Split(raw, "\n");
    assert TaggedLines(lines, (line: string, ninja: string) => line, create) == lines;
    JoinSplit(raw, "\n");
  }

  /** `generateHtml(raw)` where no document is present. */
  function GenerateHtml(language: Language, ninjas: Ninjas, raw: string): string {
    ninjas.toHtml(language.toHtml(TagLines(raw, language.lineSafeInsert, ninjas.create)))
  }

  // ---------------------------------------------------------------------------
  // handleOutlineOrderChange, as a function of the state

  /** `container[i]`, with `undefined` outside the array. */
  function ItemAt(container: seq<Node>, i: int): Option<Node> {
    if 0 <= i < |container| then Some(container[i]) else None
  }

  /** `findNextSibling(item)` on a node of the outline, as a heading record. */
  function SiblingOf(hs: seq<Header>, item: Option<Node>): Option<Header>
    requires item.Some? ==> item.value.at < |hs|
  {
    match item
    case None => None
    case Some(n) =>
      match NextSibling(hs, n.at)
      case None => None
      case Some(j) => Some(hs[j])
  }

  /** `item ? nthIndexOf(raw, item.source, item.dupIndex) : raw.length`. */
  function OffsetOf(raw: string, item: Option<Header>): (r: nat)
    ensures r <= |raw|
  {
    match item
    case None => |raw|
    case Some(h) => NthIndexOf(raw, h.source, h.dupIndex)
  }

  /** The heading record of an optional node. */
  function HeaderOf(item: Option<Node>): Option<Header> {
    match item
    case None => None
    case Some(n) => Some(n.header)
  }

  /** `header ? header.children : outline`: every entry of the container being reordered
      is labelled with its heading when the outline and the given header are. */
  function Container(outline: seq<Node>, hs: seq<Header>, header: Option<Node>): (c: seq<Node>)
    requires AllLabelled(outline, hs)
    requires header.Some? ==> Labelled(header.value, hs)
    ensures AllLabelled(c, hs)
  {
    if header.Some? then header.value.children else outline
  }

  /** `[cutStart, cutEnd, paste]` for dragging entry `oldIndex` of the container to
      position `newIndex`: the section of the moving heading runs up to its next
      sibling, and it is pasted after the target's section when moving down and
      before the target when moving up. */
  function ReorderIndices(raw: string, hs: seq<Header>, container: seq<Node>,
                          oldIndex: int, newIndex: int): (r: (nat, nat, nat))
    requires forall k :: 0 <= k < |container| ==> Labelled(container[k], hs)
    ensures r.0 <= |raw| && r.1 <= |raw| && r.2 <= |raw|
  {
    assert 0 <= oldIndex < |container| ==> Labelled(container[oldIndex], hs);
    assert 0 <= newIndex < |container| ==> Labelled(container[newIndex], hs);
    var moving := ItemAt(container, oldIndex);
    var target := ItemAt(container, newIndex);
    var paste := if newIndex > oldIndex then SiblingOf(hs, target) else HeaderOf(target);
    (OffsetOf(raw, HeaderOf(moving)), OffsetOf(raw, SiblingOf(hs, moving)), OffsetOf(raw, paste))
  }

  /** The index computation of the drag handler, with the sibling walks done by
      `FindNextSibling`. */
  method OrderChangeIndices(raw: string, hs: seq<Header>, container: seq<Node>,
                            oldIndex: int, newIndex: int)
    returns (cutStart: nat, cutEnd: nat, paste: nat)
    requires forall k :: 0 <= k < |container| ==> Labelled(container[k], hs)
    ensures (cutStart, cutEnd, paste) == ReorderIndices(raw, hs, container, oldIndex, newIndex)
  {
    var movingItem := ItemAt(container, oldIndex);
    var sibling := FindNextSibling(hs, if movingItem.Some? then Some(movingItem.value.at) else None);
    cutStart := OffsetOf(raw, HeaderOf(movingItem));
    cutEnd := OffsetOf(raw, if sibling.Some? then Some(hs[sibling.value]) else None);
    var targetItem := ItemAt(container, newIndex);
    var pasteItem: Option<Header>;
    if newIndex > oldIndex {
      var next := FindNextSibling(hs, if targetItem.Some? then Some(targetItem.value.at) else None);
      pasteItem := if next.Some? then Some(hs[next.value]) else None;
    } else {
      pasteItem := HeaderOf(targetItem);
    }
    paste := OffsetOf(raw, pasteItem);
  }

  /** The text after the drag. */
  function Reordered(raw: string, hs: seq<Header>, container: seq<Node>,
                     oldIndex: int, newIndex: int): string
    requires forall k :: 0 <= k < |container| ==> Labelled(container[k], hs)
  {
    var (cutStart, cutEnd, paste) := ReorderIndices(raw, hs, container, oldIndex, newIndex);
    MoveSubstring(raw, cutStart, cutEnd, paste)
  }

  /** Dragging an entry the container does not have leaves the text as it was. */
  lemma ReorderedMissingItem(raw: string, hs: seq<Header>, container: seq<Node>,
                             oldIndex: int, newIndex: int)
    requires forall k :: 0 <= k < |container| ==> Labelled(container[k], hs)
    requires !(0 <= oldIndex < |container|)
    ensures Reordered(raw, hs, container, oldIndex, newIndex) == raw
  {
    var (cutStart, cutEnd, paste) := ReorderIndices(raw, hs, container, oldIndex, newIndex);
    assert cutStart == |raw| && cutEnd == |raw|;
    MoveSubstringEmptyCut(raw, |raw|, paste);
  }

  /** When the moving section ends no earlier than it starts, the drag only
      rearranges the text: its length and its characters stay the same. In the
      usual case, the paste point outside the section, the section is lifted out
      whole and set down at the paste point. */
  lemma ReorderedRearranges(raw: string, hs: seq<Header>, container: seq<Node>,
                            oldIndex: int, newIndex: int)
    requires forall k :: 0 <= k < |container| ==> Labelled(container[k], hs)
    requires var r := ReorderIndices(raw, hs, container, oldIndex, newIndex); r.0 <= r.1
    ensures var r' := Reordered(raw, hs, container, oldIndex, newIndex);
      |r'| == |raw| && multiset(r') == multiset(raw)
    ensures var (cs, ce, p) := ReorderIndices(raw, hs, container, oldIndex, newIndex);
      p <= cs ==> (Reordered(raw, hs, container, oldIndex, newIndex) ==
                   raw[..p] + raw[cs..ce] + raw[p..cs] + raw[ce..])
    ensures var (cs, ce, p) := ReorderIndices(raw, hs, container, oldIndex, newIndex);
      ce <= p ==> (Reordered(raw, hs, container, oldIndex, newIndex) ==
                   raw[..cs] + raw[ce..p] + raw[cs..ce] + raw[p..])
  {
    var (cs, ce, p) := ReorderIndices(raw, hs, container, oldIndex, newIndex);
    MoveSubstringPermutes(raw, cs, ce, p);
    if p <= cs {
      MoveSubstringUp(raw, cs, ce, p);
    }
    if ce <= p {
      MoveSubstringDown(raw, cs, ce, p);
    }
  }

  /** The first occurrence the search finds is what `nthIndexOf(h, nd, 1)` returns. */
  lemma FirstOffset(h: string, nd: string, i: nat)
    requires nd != [] && IndexFrom(h, nd, 0) == Some(i)
    ensures NthIndexOf(h, nd, 1) == i
  {
    NthIndexOfFindsNth(h, nd, 1);
    assert Positions(h, nd) == [i] + PositionsFrom(h, nd, i + |nd|);
  }

  /** A heading's offset is looked up by its source text alone, so a source that also
      occurs inside an earlier heading is found there. In "## b\n# a\n# b\n", dragging
      the top-level "# a" below "# b" cuts from the "# a" at 5 to the "# b" found
      inside "## b" at 1: the cut is reversed, and the text grows from 13 to 17
      characters. */
  lemma ReorderedDuplicatesText(a: Header, b: Header, c: Header)
    requires a.source == "## b" && b.source == "# a" && c.source == "# b"
    requires a.level == 2 && b.level == 1 && c.level == 1
    requires a.dupIndex == 1 && b.dupIndex == 1 && c.dupIndex == 1
    ensures Outline([a, b, c]) ==
      [Node(a, 0, [0], []), Node(b, 1, [0], []), Node(c, 2, [1], [])]
    ensures ReorderIndices("## b\n# a\n# b\n", [a, b, c],
      [Node(a, 0, [0], []), Node(b, 1, [0], []), Node(c, 2, [1], [])], 1, 2) == (5, 1, 13)
    ensures |Reordered("## b\n# a\n# b\n", [a, b, c],
      [Node(a, 0, [0], []), Node(b, 1, [0], []), Node(c, 2, [1], [])], 1, 2)| == 17
  {
    TopLevelPaths(a, b, c);
    var raw := "## b\n# a\n# b\n";
    var hs := [a, b, c];
    assert NextSibling(hs, 1) == Some(2);
    assert NextSibling(hs, 2) == None;
    CutOffsets(raw);
  }

  lemma CutOffsets(raw: string)
    requires raw == "## b\n# a\n# b\n"
    ensures NthIndexOf(raw, "# a", 1) == 5 && NthIndexOf(raw, "# b", 1) == 1
  {
    assert !OccursAt(raw, "# b", 0) by { assert raw[0..3][1] != ' '; }
    assert OccursAt(raw, "# b", 1);
    assert IndexFrom(raw, "# b", 0) == Some(1);
    FirstOffset(raw, "# b", 1);
    assert OccursAt(raw, "# a", 5);
    assert IndexFrom(raw, "# a", 5) == Some(5);
    assert !OccursAt(raw, "# a", 4) by { assert raw[4..7][0] != '#'; }
    assert IndexFrom(raw, "# a", 4) == Some(5);
    assert !OccursAt(raw, "# a", 3) by { assert raw[3..6][0] != '#'; }
    assert IndexFrom(raw, "# a", 3) == Some(5);
    assert !OccursAt(raw, "# a", 2) by { assert raw[2..5][0] != '#'; }
    assert IndexFrom(raw, "# a", 2) == Some(5);
    assert !OccursAt(raw, "# a", 1) by { assert raw[1..4][2] != 'a'; }
    assert IndexFrom(raw, "# a", 1) == Some(5);
    assert !OccursAt(raw, "# a", 0) by { assert raw[0..3][1] != ' '; }
    assert IndexFrom(raw, "# a", 0) == Some(5);
    FirstOffset(raw, "# a", 5);
  }

  /** The number of lines up to an offset names the line that offset lies on. */
  lemma LineOfPosition(raw: string, pos: nat)
    requires pos <= |raw|
    ensures var line := |Split(raw[..pos], "\n")|;
      line == Count(raw[..pos], '\n') + 1 && 1 <= line <= Count(raw, '\n') + 1 &&
      IndexOfLine(raw, line - 1) <= pos <= IndexOfLine(raw, line)
  {
    LineCount(raw[..pos]);
    LineOfOffset(raw, pos);
    CountPrefixMonotone(raw, '\n', pos, |raw|);
    assert raw[..|raw|] == raw;
  }

  // ---------------------------------------------------------------------------
  // The component

  class Editor {
    const language: Language
    const ninjas: Ninjas
    var raw: string
    var html: string
    var loc: nat
    /** The headings in text order, linked by `prev` and `next`: the array local to
        `generateOutline` that the outline's nodes still point into. */
    var headers: seq<Header>
    var outline: seq<Node>
    /** The text that `html`, `loc`, the headings and the outline were last derived
        from. While typing it lags behind `raw`. */
    ghost var derivedFrom: string

    /** `html`, `loc`, the headings and the outline are all derived from the same text. */
    ghost predicate Consistent()
      reads this
    {
      loc == Count(derivedFrom, '\n') + 1 &&
      html == GenerateHtml(language, ninjas, derivedFrom) &&
      headers == HeadersOf(language.headerMatches(derivedFrom), language.toHtml, language.headingTag) &&
      outline == Outline(headers)
    }

    /** The derived state is up to date with the text. */
    ghost predicate Valid()
      reads this
    {
      Consistent() && derivedFrom == raw
    }

    constructor(content: string, language: Language, ninjas: Ninjas)
      ensures Valid() && raw == content
      ensures this.language == language && this.ninjas == ninjas
    {
      var hs := FindHeaders(language.headerMatches(content), language.toHtml, language.headingTag);
      var tree := GenerateOutline(hs);
      this.language := language;
      this.ninjas := ninjas;
      raw := content;
      html := GenerateHtml(language, ninjas, content);
      loc := |Split(content, "\n")|;
      headers := hs;
      outline := tree;
      derivedFrom := content;
      LineCount(content);
    }

    /** `updateStateValue(value)`: the text is replaced and everything derived from
        it recomputed, `loc` as the number of lines. */
    method UpdateStateValue(value: string)
      modifies this
      ensures Valid() && raw == value
    {
      var hs := FindHeaders(language.headerMatches(value), language.toHtml, language.headingTag);
      var tree := GenerateOutline(hs);
      raw := value;
      html := GenerateHtml(language, ninjas, value);
      loc := |Split(value, "\n")|;
      headers := hs;
      outline := tree;
      derivedFrom := value;
      LineCount(value);
    }

    /** `handleChange(value)`, called on every edit: only the text is stored at once;
        the derived state keeps describing the previous text until typing stops. */
    method HandleChange(value: string)
      requires Consistent()
      modifies this
      ensures Consistent() && raw == value
      ensures html == old(html) && loc == old(loc) && headers == old(headers) &&
              outline == old(outline) && derivedFrom == old(derivedFrom)
    {
      raw := value;
    }

    /** `handleStoppedTyping(value)`, run when typing has stopped: the derived state
        catches up with the text. */
    method HandleStoppedTyping(value: string)
      modifies this
      ensures Valid() && raw == value
    {
      UpdateStateValue(value);
    }

    /** The line the editor jumps to when a heading of the outline is clicked: one more
        than the number of newlines before the heading's occurrence in the current
        text. It is a line of the text and the occurrence lies on it; it is at most
        `loc` when the derived state is up to date. */
    method HandleOutlineClick(heading: Node) returns (line: nat)
      requires Consistent()
      ensures var pos := NthIndexOf(raw, heading.header.source, heading.header.dupIndex);
        line == Count(raw[..pos], '\n') + 1 && 1 <= line <= Count(raw, '\n') + 1 &&
        IndexOfLine(raw, line - 1) <= pos <= IndexOfLine(raw, line)
      ensures Valid() ==> line <= loc
    {
      var pos := NthIndexOf(raw, heading.header.source, heading.header.dupIndex);
      line := |Split(raw[..pos], "\n")|;
      LineOfPosition(raw, pos);
    }

    /** Dragging entry `oldIndex` of `header`'s children (or of the top level of the
        outline held in the state) to position `newIndex`. Equal indices change
        nothing; otherwise the section is moved in the current text, located through
        the headings and the outline as they stand, and the state is brought up to
        date with the result. */
    method HandleOutlineOrderChange(header: Option<Node>, oldIndex: int, newIndex: int)
      requires Consistent()
      requires header.Some? ==> Labelled(header.value, headers)
      modifies this
      ensures oldIndex == newIndex ==> unchanged(this)
      ensures oldIndex != newIndex ==> Valid()
      ensures oldIndex != newIndex ==>
        AllLabelled(old(outline), old(headers)) &&
        raw == Reordered(old(raw), old(headers), Container(old(outline), old(headers), header),
                         oldIndex, newIndex)
    {
      if oldIndex == newIndex {
        return;
      }
      OutlineLabelled(headers, |headers|);
      var container := if header.Some? then header.value.children else outline;
      assert container == Container(outline, headers, header);
      var cutStart, cutEnd, paste := OrderChangeIndices(raw, headers, container, oldIndex, newIndex);
      var newValue := MoveSubstring(raw, cutStart, cutEnd, paste);
      UpdateStateValue(newValue);
    }
  }
}
