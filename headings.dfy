/** The flat list of headings of src/helpers/helpers.js: `findHeaders`, which numbers
    repeated heading sources and drops matches the converter does not render as a
    heading, and `findNextSibling`, which walks the list to the next heading that is
    not deeper than a given one. */
module Headings {
  import opened Wrappers
  import opened JsString

  /** What the heading pattern extracts from a rendered heading: the digit of its
      `<hN>` tag and the markup between the tags. */
  datatype HeadingTag = HeadingTag(level: nat, content: string)

  /** One record of the list `findHeaders` returns. `index` is the position of the
      match among all matches, false friends included; `dupIndex` says which
      occurrence of `source` this is, counting from 1. */
  datatype Header = Header(source: string, html: string, level: nat, content: string,
                           index: nat, dupIndex: nat)

  // ---------------------------------------------------------------------------
  // findHeaders

  /** How the record for match `i` is built, or `None` for a false friend. */
  function HeaderAt(matches: seq<string>, i: nat, toHtml: string -> string,
                    tagOf: string -> Option<HeadingTag>): Option<Header>
    requires i < |matches|
  {
    var source := matches[i];
    var html := toHtml(source);
    match tagOf(html)
    case None => None
    case Some(t) => Some(Header(source, html, t.level, t.content, i, Count(matches[..i + 1], source)))
  }

  /** `h` is the record of a genuine heading among `matches`. */
  ghost predicate Describes(matches: seq<string>, toHtml: string -> string,
                            tagOf: string -> Option<HeadingTag>, h: Header)
  {
    h.index < |matches| && h.source == matches[h.index] && h.html == toHtml(h.source) &&
    tagOf(h.html) == Some(HeadingTag(h.level, h.content)) &&
    h.dupIndex == Count(matches[..h.index + 1], h.source)
  }

  /** The records for the first `n` matches, false friends dropped. */
  function HeadersUpTo(matches: seq<string>, n: nat, toHtml: string -> string,
                       tagOf: string -> Option<HeadingTag>): (hs: seq<Header>)
    requires n <= |matches|
    ensures |hs| <= n
  {
    if n == 0 then []
    else
      var prev := HeadersUpTo(matches, n - 1, toHtml, tagOf);
      match HeaderAt(matches, n - 1, toHtml, tagOf)
      case None => prev
      case Some(h) => prev + [h]
  }

  /** Every record describes the match it came from, and the records keep the order
      of the matches. */
  lemma {:induction false} HeadersDescribed(matches: seq<string>, n: nat, toHtml: string -> string,
                                            tagOf: string -> Option<HeadingTag>)
    requires n <= |matches|
    ensures forall k :: 0 <= k < |HeadersUpTo(matches, n, toHtml, tagOf)| ==>
      HeadersUpTo(matches, n, toHtml, tagOf)[k].index < n &&
      Describes(matches, toHtml, tagOf, HeadersUpTo(matches, n, toHtml, tagOf)[k])
    ensures forall j, k :: 0 <= j < k < |HeadersUpTo(matches, n, toHtml, tagOf)| ==>
      HeadersUpTo(matches, n, toHtml, tagOf)[j].index < HeadersUpTo(matches, n, toHtml, tagOf)[k].index
  {
    if n > 0 {
      HeadersDescribed(matches, n - 1, toHtml, tagOf);
      var prev := HeadersUpTo(matches, n - 1, toHtml, tagOf);
      var hs := HeadersUpTo(matches, n, toHtml, tagOf);
      if hs != prev {
        assert hs == prev + [hs[|hs| - 1]];
        assert forall k :: 0 <= k < |prev| ==> hs[k] == prev[k];
      }
    }
  }

  /** The list `findHeaders` returns for the matches of the heading pattern. */
  function HeadersOf(matches: seq<string>, toHtml: string -> string,
                     tagOf: string -> Option<HeadingTag>): seq<Header>
  {
    HeadersUpTo(matches, |matches|, toHtml, tagOf)
  }

  /** How often `s` has been seen so far: `dupIndexMap[s] || 0`. */
  function Seen(dupIndexMap: map<string, nat>, s: string): nat {
    if s in dupIndexMap then dupIndexMap[s] else 0
  }

  /** Maps every match to a record (or `null`) while counting sources in a
      dictionary, then filters the `null`s out. */
  method FindHeaders(matches: seq<string>, toHtml: string -> string,
                     tagOf: string -> Option<HeadingTag>) returns (headers: seq<Header>)
    ensures headers == HeadersOf(matches, toHtml, tagOf)
  {
    var dupIndexMap: map<string, nat> := map[];
    var mapped: seq<Option<Header>> := [];
    var index := 0;
    while index < |matches|
      invariant 0 <= index <= |matches| && |mapped| == index
      invariant forall k :: 0 <= k < index ==> mapped[k] == HeaderAt(matches, k, toHtml, tagOf)
      invariant forall s :: Seen(dupIndexMap, s) == Count(matches[..index], s)
    {
      var headerSource := matches[index];
      assert matches[..index + 1][..index] == matches[..index];
      dupIndexMap := dupIndexMap[headerSource := Seen(dupIndexMap, headerSource) + 1];
      var html := toHtml(headerSource);
      var entry := match tagOf(html)
        case None => None
        case Some(t) => Some(Header(headerSource, html, t.level, t.content, index, dupIndexMap[headerSource]));
      mapped := mapped + [entry];
      index := index + 1;
    }
    headers := [];
    var k := 0;
    while k < |mapped|
      invariant 0 <= k <= |mapped|
      invariant headers == HeadersUpTo(matches, k, toHtml, tagOf)
    {
      if mapped[k].Some? {
        headers := headers + [mapped[k].value];
      }
      k := k + 1;
    }
  }

  /** The match positions a list of records came from. */
  function Indices(hs: seq<Header>): seq<nat> {
    seq(|hs|, k requires 0 <= k < |hs| => hs[k].index)
  }

  /** No genuine heading is dropped: every match the converter renders as a heading
      has a record. */
  lemma {:induction false} HeadersComplete(matches: seq<string>, n: nat, toHtml: string -> string,
                                           tagOf: string -> Option<HeadingTag>, i: nat)
    requires i < n <= |matches| && tagOf(toHtml(matches[i])).Some?
    ensures i in Indices(HeadersUpTo(matches, n, toHtml, tagOf))
  {
    var hs := HeadersUpTo(matches, n, toHtml, tagOf);
    var prev := HeadersUpTo(matches, n - 1, toHtml, tagOf);
    if i == n - 1 {
      var h := HeaderAt(matches, i, toHtml, tagOf).value;
      assert hs == prev + [h];
      assert Indices(hs)[|prev|] == i;
    } else {
      HeadersComplete(matches, n - 1, toHtml, tagOf, i);
      if hs != prev {
        assert Indices(hs)[..|prev|] == Indices(prev);
      }
    }
  }

  /** The sources of a list of records. */
  function Sources(hs: seq<Header>): seq<string> {
    seq(|hs|, k requires 0 <= k < |hs| => hs[k].source)
  }

  /** A source the converter renders as a heading is kept every time it matches, so
      the records count it as often as the matches do. */
  lemma {:induction false} SourcesCounted(matches: seq<string>, n: nat, toHtml: string -> string,
                                          tagOf: string -> Option<HeadingTag>, s: string)
    requires n <= |matches| && tagOf(toHtml(s)).Some?
    ensures Count(Sources(HeadersUpTo(matches, n, toHtml, tagOf)), s) == Count(matches[..n], s)
  {
    if n > 0 {
      SourcesCounted(matches, n - 1, toHtml, tagOf, s);
      SourcesCountedStep(matches, n, toHtml, tagOf, s);
    }
  }

  lemma SourcesCountedStep(matches: seq<string>, n: nat, toHtml: string -> string,
                           tagOf: string -> Option<HeadingTag>, s: string)
    requires 0 < n <= |matches| && tagOf(toHtml(s)).Some?
    requires Count(Sources(HeadersUpTo(matches, n - 1, toHtml, tagOf)), s) == Count(matches[..n - 1], s)
    ensures Count(Sources(HeadersUpTo(matches, n, toHtml, tagOf)), s) == Count(matches[..n], s)
  {
    var prev := HeadersUpTo(matches, n - 1, toHtml, tagOf);
    var hs := HeadersUpTo(matches, n, toHtml, tagOf);
    assert matches[..n][..n - 1] == matches[..n - 1];
    assert Count(matches[..n], s)
        == Count(matches[..n - 1], s) + (if matches[n - 1] == s then 1 else 0);
    match HeaderAt(matches, n - 1, toHtml, tagOf)
    case None =>
      assert hs == prev && matches[n - 1] != s;
    case Some(h) =>
      assert hs == prev + [h] && h.source == matches[n - 1];
      assert Sources(hs)[..|hs| - 1] == Sources(prev);
  }

  /** Although the counter runs before false friends are dropped, a false friend never
      shares its source with a genuine heading, so `dupIndex` is also the number of
      records up to and including this one with the same source. That is the
      occurrence `nthIndexOf` is asked for when the editor locates a heading. */
  lemma {:induction false} DupIndexAmongRecords(matches: seq<string>, n: nat, toHtml: string -> string,
                                                tagOf: string -> Option<HeadingTag>, k: nat)
    requires n <= |matches| && k < |HeadersUpTo(matches, n, toHtml, tagOf)|
    ensures HeadersUpTo(matches, n, toHtml, tagOf)[k].dupIndex >= 1
    ensures HeadersUpTo(matches, n, toHtml, tagOf)[k].dupIndex
         == Count(Sources(HeadersUpTo(matches, n, toHtml, tagOf)[..k + 1]),
                  HeadersUpTo(matches, n, toHtml, tagOf)[k].source)
  {
    var hs := HeadersUpTo(matches, n, toHtml, tagOf);
    var prev := HeadersUpTo(matches, n - 1, toHtml, tagOf);
    if k < |prev| {
      DupIndexAmongRecords(matches, n - 1, toHtml, tagOf, k);
      assert hs[..k + 1] == prev[..k + 1];
    } else {
      DupIndexOfLast(matches, n, toHtml, tagOf);
      assert k == |hs| - 1 && hs[..k + 1] == hs;
    }
  }

  /** The same for the record of the last match, when that match is a heading. */
  lemma DupIndexOfLast(matches: seq<string>, n: nat, toHtml: string -> string,
                       tagOf: string -> Option<HeadingTag>)
    requires 0 < n <= |matches|
    requires |HeadersUpTo(matches, n, toHtml, tagOf)| > |HeadersUpTo(matches, n - 1, toHtml, tagOf)|
    ensures var hs := HeadersUpTo(matches, n, toHtml, tagOf);
      hs[|hs| - 1].dupIndex >= 1 &&
      hs[|hs| - 1].dupIndex == Count(Sources(hs), hs[|hs| - 1].source)
  {
    var hs := HeadersUpTo(matches, n, toHtml, tagOf);
    var prev := HeadersUpTo(matches, n - 1, toHtml, tagOf);
    var h := hs[|hs| - 1];
    assert h.index == n - 1 && hs == prev + [h];
    SourcesCounted(matches, n - 1, toHtml, tagOf, h.source);
    assert Sources(hs)[..|hs| - 1] == Sources(prev);
    assert matches[..n][..n - 1] == matches[..n - 1];
  }

  // ---------------------------------------------------------------------------
  // findNextSibling

  /** The first heading after position `from` whose level is at most `level`. */
  function SiblingFrom(hs: seq<Header>, level: nat, from: nat): (r: Option<nat>)
    ensures r.Some? ==> from <= r.value < |hs| && hs[r.value].level <= level
    ensures r.Some? ==> forall k :: from <= k < r.value ==> hs[k].level > level
    ensures r.None? ==> forall k :: from <= k < |hs| ==> hs[k].level > level
    decreases |hs| - from
  {
    if from >= |hs| then None
    else if hs[from].level > level then SiblingFrom(hs, level, from + 1)
    else Some(from)
  }

  /** The next sibling of heading `i` in the heading hierarchy: the first later
      heading of the same or a shallower level. Every heading skipped is deeper. */
  function NextSibling(hs: seq<Header>, i: nat): (r: Option<nat>)
    requires i < |hs|
    ensures r.Some? ==> i < r.value < |hs| && hs[r.value].level <= hs[i].level
    ensures r.Some? ==> forall k :: i < k < r.value ==> hs[k].level > hs[i].level
    ensures r.None? ==> forall k :: i < k < |hs| ==> hs[k].level > hs[i].level
  {
    SiblingFrom(hs, hs[i].level, i + 1)
  }

  /** The walk along `next` links: the link of heading `i` is heading `i + 1`, and a
      missing heading (`null`) has no sibling. */
  method FindNextSibling(hs: seq<Header>, heading: Option<nat>) returns (r: Option<nat>)
    requires heading.Some? ==> heading.value < |hs|
    ensures heading.None? ==> r.None?
    ensures heading.Some? ==> r == NextSibling(hs, heading.value)
  {
    if heading.None? {
      return None;
    }
    var i := heading.value;
    var current := i + 1;
    while current < |hs| && hs[current].level > hs[i].level
      invariant i < current <= |hs|
      invariant forall k :: i < k < current ==> hs[k].level > hs[i].level
      decreases |hs| - current
    {
      current := current + 1;
    }
    r := if current < |hs| then Some(current) else None;
  }
}
