// The heading callback of 4.3.13 as a function of the per-call state, and
// its fold over the ordered matches (Kama_Contents.php:396-456, 612-632,
// 783-802). The table of contents elements, the anchor registry, the
// counter and the recorded offsets are what the callback changes.

module Toc {
  import opened Php
  import opened Slug
  import opened Levels
  import opened Selectors
  import opened Headings

  /** The options the pipeline reads; the presentational ones are not part of this model. */
  datatype Options = Options(
    selectors: SelectorsOpt,
    toMenu: string,
    minFound: int,
    minLength: int,
    pageUrl: string,
    spec: string,
    anchorType: string,
    anchorAttrName: string,
    anchorLink: string,
    tomenuSimcount: int,
    leaveTags: LeaveTags,
    asTable: Option<seq<string>>,
    embed: bool)

  /** The defaults of Kama_Contents::$default_opt; `to_menu` false is "". */
  const DefaultOptions: Options := Options(SelectorText("h2 h3 h4"), "contents \U{2191}", 1, 500, "", "", "id", "id", "",
    800, LeaveFlag(true), None, false)

  /** TOC_Elem: one entry of the table of contents. */
  datatype TocElem = TocElem(fullMatch: string, tag: string, anchor: string, text: string, level: int, position: nat)

  /** What the callback changes: the counter, the anchor registry, el_strpos and toc_elems. */
  datatype TocState = TocState(counter: nat, anchors: set<string>, strpos: seq<int>, elems: seq<TocElem>)

  /** The state of a fresh call: a new temp object and toc_elems emptied by collect_toc. */
  const Fresh: TocState := TocState(0, {}, [], [])

  /** _toc_element_anchor followed by _sanitaze_anchor and _unique_anchor, against a registry. */
  function ElementAnchor(lib: Library, opt: Options, reg: set<string>, p: Parsed): (r: string)
    ensures r !in reg
  {
    Uniquify(reg, AnchorBase(lib, opt.spec, AnchorSource(opt.anchorAttrName, p.text, p.attrs)))
  }

  /** _to_menu_link_html: the link, given the offsets recorded so far and this match's offset. */
  function GotopLink(opt: Options, strpos: seq<int>, pos: int): string
  {
    if !Truthy(opt.toMenu) then ""
    else if ShowGotop(pos, strpos, opt.tomenuSimcount) then GotopHtml(opt.pageUrl, opt.toMenu)
    else ""
  }

  /** The link is the 4.3.13 "back to top" anchor when shown, and it is shown exactly when to_menu is set and the gap is wide enough. */
  lemma GotopLinkGate(opt: Options, strpos: seq<int>, pos: int)
    ensures GotopLink(opt, strpos, pos) != "" <==> Truthy(opt.toMenu) && pos - PrevPos(strpos) >= opt.tomenuSimcount
    ensures GotopLink(opt, strpos, pos) != "" ==> GotopLink(opt, strpos, pos) == GotopHtml(opt.pageUrl, opt.toMenu)
  {
  }

  /** The offsets after _to_menu_link_html: the match's offset is recorded only when to_menu is set. */
  function Record(opt: Options, strpos: seq<int>, pos: int): seq<int>
  {
    if Truthy(opt.toMenu) then strpos + [pos] else strpos
  }

  /** The heading written back for a parsed match and its anchor. */
  function Rebuilt(opt: Options, anchor: string, p: Parsed): string
  {
    HeadingHtml(CurrentPrefix, opt.anchorType, opt.anchorLink, anchor, p.tag, p.attrs, p.text)
  }

  /** The element collect_toc_replace_callback makes for a match. */
  function NewElem(lib: Library, opt: Options, levels: LevelMap, st: TocState, m: RegexMatch): TocElem
    requires Valid(levels)
  {
    var p := ParseMatch(m);
    TocElem(p.fullMatch, p.tag, ElementAnchor(lib, opt, st.anchors, p), ElemText(lib, opt.leaveTags, p.text),
      Lookup(levels, p.levelTag), st.counter + 1)
  }

  /** collect_toc_replace_callback: the new state and the replacement of one match. */
  function Step(lib: Library, opt: Options, levels: LevelMap, orig: string, st: TocState, m: RegexMatch): (TocState, string)
    requires Valid(levels)
  {
    var e := NewElem(lib, opt, levels, st, m);
    var pos := MatchPos(orig, FullMatch(m));
    (TocState(st.counter + 1, st.anchors + {e.anchor}, Record(opt, st.strpos, pos), st.elems + [e]),
     GotopLink(opt, st.strpos, pos) + Rebuilt(opt, e.anchor, ParseMatch(m)))
  }

  /** The callback applied to the matches in order, with the replacements it returns. */
  function Collect(lib: Library, opt: Options, levels: LevelMap, orig: string, st: TocState, ms: seq<RegexMatch>): (r: (TocState, seq<string>))
    requires Valid(levels)
    ensures |r.1| == |ms|
    decreases |ms|
  {
    if ms == [] then (st, [])
    else
      var prev := Collect(lib, opt, levels, orig, st, ms[..|ms| - 1]);
      var next := Step(lib, opt, levels, orig, prev.0, ms[|ms| - 1]);
      (next.0, prev.1 + [next.1])
  }

  lemma CollectUnfold(lib: Library, opt: Options, levels: LevelMap, orig: string, st: TocState, ms: seq<RegexMatch>)
    requires Valid(levels) && ms != []
    ensures var prev := Collect(lib, opt, levels, orig, st, ms[..|ms| - 1]);
      Collect(lib, opt, levels, orig, st, ms) ==
        (Step(lib, opt, levels, orig, prev.0, ms[|ms| - 1]).0, prev.1 + [Step(lib, opt, levels, orig, prev.0, ms[|ms| - 1]).1])
  {
  }

  /**
   * The counter advances by one per match, and the i-th match adds the
   * element at position counter + i + 1, after the elements already there.
   */
  lemma {:induction false} CollectPositions(lib: Library, opt: Options, levels: LevelMap, orig: string, st: TocState, ms: seq<RegexMatch>)
    requires Valid(levels)
    ensures var r := Collect(lib, opt, levels, orig, st, ms).0;
      r.counter == st.counter + |ms| && |r.elems| == |st.elems| + |ms| && r.elems[..|st.elems|] == st.elems &&
      NumberedFrom(r.elems, |st.elems|, st.counter)
    decreases |ms|
  {
    if ms != [] {
      var init := ms[..|ms| - 1];
      CollectPositions(lib, opt, levels, orig, st, init);
      var prev := Collect(lib, opt, levels, orig, st, init).0;
      var e := NewElem(lib, opt, levels, prev, ms[|ms| - 1]);
      var r := Collect(lib, opt, levels, orig, st, ms).0;
      assert r.elems == prev.elems + [e] && r.counter == prev.counter + 1;
      NumberedExtend(prev.elems, |st.elems|, st.counter, e);
      assert r.elems[..|st.elems|] == prev.elems[..|st.elems|];
    }
  }

  /** From index `from` on, the elements are numbered counter + 1, counter + 2, ... */
  predicate NumberedFrom(elems: seq<TocElem>, from: nat, counter: nat)
  {
    forall k :: from <= k < |elems| ==> elems[k].position == counter + (k - from) + 1
  }

  lemma NumberedExtend(elems: seq<TocElem>, from: nat, counter: nat, e: TocElem)
    requires from <= |elems| && NumberedFrom(elems, from, counter) && e.position == counter + (|elems| - from) + 1
    ensures NumberedFrom(elems + [e], from, counter)
  {
  }

  /** Each element records its match, its tag, its level (0 for a key the level map lacks) and its text. */
  lemma CollectFields(lib: Library, opt: Options, levels: LevelMap, orig: string, st: TocState, ms: seq<RegexMatch>)
    requires Valid(levels)
    ensures var r := Collect(lib, opt, levels, orig, st, ms).0;
      |r.elems| == |st.elems| + |ms| &&
      forall i :: 0 <= i < |ms| ==> ElemMatches(lib, opt, levels, r.elems[|st.elems| + i], ms[i])
  {
    CollectPositions(lib, opt, levels, orig, st, ms);
    forall i | 0 <= i < |ms|
      ensures ElemMatches(lib, opt, levels, Collect(lib, opt, levels, orig, st, ms).0.elems[|st.elems| + i], ms[i])
    {
      CollectFieldAt(lib, opt, levels, orig, st, ms, i);
    }
  }

  /** The element the i-th match added records that match. */
  lemma {:induction false} CollectFieldAt(lib: Library, opt: Options, levels: LevelMap, orig: string, st: TocState,
                                          ms: seq<RegexMatch>, i: nat)
    requires Valid(levels) && i < |ms|
    ensures |st.elems| + i < |Collect(lib, opt, levels, orig, st, ms).0.elems|
    ensures ElemMatches(lib, opt, levels, Collect(lib, opt, levels, orig, st, ms).0.elems[|st.elems| + i], ms[i])
    decreases |ms|
  {
    var init := ms[..|ms| - 1];
    var prev := Collect(lib, opt, levels, orig, st, init).0;
    CollectPositions(lib, opt, levels, orig, st, init);
    StepElems(lib, opt, levels, orig, prev, ms[|ms| - 1]);
    if i < |ms| - 1 {
      CollectFieldAt(lib, opt, levels, orig, st, init, i);
      assert init[i] == ms[i];
    }
  }

  /** One step appends the new element, and that element records its match. */
  lemma StepElems(lib: Library, opt: Options, levels: LevelMap, orig: string, st: TocState, m: RegexMatch)
    requires Valid(levels)
    ensures Step(lib, opt, levels, orig, st, m).0.elems == st.elems + [NewElem(lib, opt, levels, st, m)]
    ensures ElemMatches(lib, opt, levels, NewElem(lib, opt, levels, st, m), m)
  {
  }

  /** The element of match `m` records it: full text, tag, level (0 for a missing key), text. */
  predicate ElemMatches(lib: Library, opt: Options, levels: LevelMap, e: TocElem, m: RegexMatch)
    requires Valid(levels)
  {
    var p := ParseMatch(m);
    e.fullMatch == FullMatch(m) && e.tag == p.tag && e.level == Lookup(levels, p.levelTag) &&
    e.text == ElemText(lib, opt.leaveTags, p.text)
  }

  /** The anchors the matches get: distinct, none already registered, and all registered afterwards. */
  predicate FreshAnchors(before: set<string>, added: seq<TocElem>, after: set<string>)
  {
    before <= after &&
    (forall i, j :: 0 <= i < j < |added| ==> added[i].anchor != added[j].anchor) &&
    (forall i :: 0 <= i < |added| ==> added[i].anchor !in before && added[i].anchor in after) &&
    (forall a :: a in after ==> a in before || exists i :: 0 <= i < |added| && added[i].anchor == a)
  }

  lemma {:induction false} CollectAnchors(lib: Library, opt: Options, levels: LevelMap, orig: string, st: TocState, ms: seq<RegexMatch>)
    requires Valid(levels)
    ensures var r := Collect(lib, opt, levels, orig, st, ms).0;
      |r.elems| >= |st.elems| && FreshAnchors(st.anchors, r.elems[|st.elems|..], r.anchors)
    decreases |ms|
  {
    CollectPositions(lib, opt, levels, orig, st, ms);
    if ms != [] {
      var init := ms[..|ms| - 1];
      CollectAnchors(lib, opt, levels, orig, st, init);
      CollectPositions(lib, opt, levels, orig, st, init);
      var prev := Collect(lib, opt, levels, orig, st, init).0;
      var e := NewElem(lib, opt, levels, prev, ms[|ms| - 1]);
      var r := Collect(lib, opt, levels, orig, st, ms).0;
      assert r.elems == prev.elems + [e] && r.anchors == prev.anchors + {e.anchor};
      assert e.anchor !in prev.anchors;
      AnchorsExtend(st.anchors, prev.elems[|st.elems|..], prev.anchors, e);
      assert r.elems[|st.elems|..] == prev.elems[|st.elems|..] + [e];
    }
  }

  lemma AnchorsExtend(before: set<string>, added: seq<TocElem>, after: set<string>, e: TocElem)
    requires FreshAnchors(before, added, after) && e.anchor !in after
    ensures FreshAnchors(before, added + [e], after + {e.anchor})
  {
    var added' := added + [e];
    forall i | 0 <= i < |added'| ensures added'[i].anchor !in before && added'[i].anchor in after + {e.anchor} {
      if i < |added| {
        assert added'[i] == added[i];
      }
    }
    forall i, j | 0 <= i < j < |added'| ensures added'[i].anchor != added'[j].anchor {
      if j < |added| {
        assert added'[i] == added[i] && added'[j] == added[j];
      } else {
        assert added'[i] == added[i] && added[i].anchor in after;
      }
    }
    forall a | a in after + {e.anchor} ensures a in before || exists i :: 0 <= i < |added'| && added'[i].anchor == a {
      if a == e.anchor {
        assert added'[|added|].anchor == a;
      } else {
        assert a in after;
        if a !in before {
          var i :| 0 <= i < |added| && added[i].anchor == a;
          assert added'[i].anchor == a;
        }
      }
    }
  }

  /** The offsets recorded before match i. */
  function OffsetsBefore(opt: Options, strpos: seq<int>, orig: string, ms: seq<RegexMatch>, i: nat): seq<int>
    requires i <= |ms|
  {
    if Truthy(opt.toMenu) then strpos + Positions(orig, ms)[..i] else strpos
  }

  /**
   * With to_menu set, el_strpos gains the strpos of every match in order;
   * without it, el_strpos is left as it was.
   */
  lemma {:induction false} CollectOffsets(lib: Library, opt: Options, levels: LevelMap, orig: string, st: TocState, ms: seq<RegexMatch>)
    requires Valid(levels)
    ensures Collect(lib, opt, levels, orig, st, ms).0.strpos == OffsetsBefore(opt, st.strpos, orig, ms, |ms|)
    decreases |ms|
  {
    if ms != [] {
      var init := ms[..|ms| - 1];
      CollectOffsets(lib, opt, levels, orig, st, init);
      var prev := Collect(lib, opt, levels, orig, st, init).0;
      var r := Collect(lib, opt, levels, orig, st, ms).0;
      assert r.strpos == Record(opt, prev.strpos, MatchPos(orig, FullMatch(ms[|ms| - 1])));
      OffsetsSnoc(opt, st.strpos, orig, ms);
    }
  }

  lemma OffsetsSnoc(opt: Options, strpos: seq<int>, orig: string, ms: seq<RegexMatch>)
    requires ms != []
    ensures OffsetsBefore(opt, strpos, orig, ms, |ms|) ==
      Record(opt, OffsetsBefore(opt, strpos, orig, ms[..|ms| - 1], |ms| - 1), MatchPos(orig, FullMatch(ms[|ms| - 1])))
  {
    var init := ms[..|ms| - 1];
    assert Positions(orig, ms)[..|ms|] == Positions(orig, init)[..|init|] + [MatchPos(orig, FullMatch(ms[|ms| - 1]))];
  }

  /** One element per match. */
  lemma {:induction false} CollectLength(lib: Library, opt: Options, levels: LevelMap, orig: string, st: TocState, ms: seq<RegexMatch>)
    requires Valid(levels)
    ensures |Collect(lib, opt, levels, orig, st, ms).0.elems| == |st.elems| + |ms|
    decreases |ms|
  {
    if ms != [] {
      CollectLength(lib, opt, levels, orig, st, ms[..|ms| - 1]);
    }
  }

  /**
   * Each replacement is the "back to top" link decided from the offsets
   * recorded before it, followed by the rebuilt heading with the anchor of
   * its element and the attributes as they were matched.
   */
  lemma CollectReplacements(lib: Library, opt: Options, levels: LevelMap, orig: string, st: TocState, ms: seq<RegexMatch>)
    requires Valid(levels)
    ensures var r := Collect(lib, opt, levels, orig, st, ms);
      |r.0.elems| == |st.elems| + |ms| &&
      forall i :: 0 <= i < |ms| ==> ReplacementIs(lib, opt, levels, orig, st, ms, i)
  {
    CollectLength(lib, opt, levels, orig, st, ms);
    forall i | 0 <= i < |ms| ensures ReplacementIs(lib, opt, levels, orig, st, ms, i) {
      ReplacementAt(lib, opt, levels, orig, st, ms, i);
    }
  }

  predicate ReplacementIs(lib: Library, opt: Options, levels: LevelMap, orig: string, st: TocState, ms: seq<RegexMatch>, i: nat)
    requires Valid(levels) && i < |ms| && |Collect(lib, opt, levels, orig, st, ms).0.elems| == |st.elems| + |ms|
  {
    var r := Collect(lib, opt, levels, orig, st, ms);
    r.1[i] == Replacement(opt, orig, st.strpos, ms, i, r.0.elems[|st.elems| + i].anchor)
  }

  lemma {:induction false} ReplacementAt(lib: Library, opt: Options, levels: LevelMap, orig: string, st: TocState, ms: seq<RegexMatch>, i: nat)
    requires Valid(levels) && i < |ms|
    ensures |Collect(lib, opt, levels, orig, st, ms).0.elems| == |st.elems| + |ms|
    ensures ReplacementIs(lib, opt, levels, orig, st, ms, i)
    decreases |ms|
  {
    CollectLength(lib, opt, levels, orig, st, ms);
    if i == |ms| - 1 {
      ReplacementAtLast(lib, opt, levels, orig, st, ms);
    } else {
      ReplacementAt(lib, opt, levels, orig, st, ms[..|ms| - 1], i);
      ReplacementKeep(lib, opt, levels, orig, st, ms, i);
    }
  }

  lemma ReplacementAtLast(lib: Library, opt: Options, levels: LevelMap, orig: string, st: TocState, ms: seq<RegexMatch>)
    requires Valid(levels) && ms != []
    requires |Collect(lib, opt, levels, orig, st, ms).0.elems| == |st.elems| + |ms|
    ensures ReplacementIs(lib, opt, levels, orig, st, ms, |ms| - 1)
  {
    var prev := Collect(lib, opt, levels, orig, st, ms[..|ms| - 1]);
    var e := NewElem(lib, opt, levels, prev.0, ms[|ms| - 1]);
    var r := Collect(lib, opt, levels, orig, st, ms);
    assert r.0.elems == prev.0.elems + [e];
    LastReplacement(lib, opt, levels, orig, st, ms);
  }

  lemma ReplacementKeep(lib: Library, opt: Options, levels: LevelMap, orig: string, st: TocState, ms: seq<RegexMatch>, i: nat)
    requires Valid(levels) && i < |ms| - 1
    requires |Collect(lib, opt, levels, orig, st, ms).0.elems| == |st.elems| + |ms|
    requires |Collect(lib, opt, levels, orig, st, ms[..|ms| - 1]).0.elems| == |st.elems| + |ms| - 1
    requires ReplacementIs(lib, opt, levels, orig, st, ms[..|ms| - 1], i)
    ensures ReplacementIs(lib, opt, levels, orig, st, ms, i)
  {
    var prev := Collect(lib, opt, levels, orig, st, ms[..|ms| - 1]);
    var e := NewElem(lib, opt, levels, prev.0, ms[|ms| - 1]);
    var r := Collect(lib, opt, levels, orig, st, ms);
    assert r.0.elems == prev.0.elems + [e];
    assert r.1 == prev.1 + [Step(lib, opt, levels, orig, prev.0, ms[|ms| - 1]).1];
    assert r.0.elems[|st.elems| + i] == prev.0.elems[|st.elems| + i];
    ReplacementPrefix(opt, orig, st.strpos, ms, i, r.0.elems[|st.elems| + i].anchor);
  }

  lemma LastReplacement(lib: Library, opt: Options, levels: LevelMap, orig: string, st: TocState, ms: seq<RegexMatch>)
    requires Valid(levels) && ms != []
    ensures var prev := Collect(lib, opt, levels, orig, st, ms[..|ms| - 1]);
      var e := NewElem(lib, opt, levels, prev.0, ms[|ms| - 1]);
      Collect(lib, opt, levels, orig, st, ms).1 == prev.1 + [Replacement(opt, orig, st.strpos, ms, |ms| - 1, e.anchor)]
  {
    var init := ms[..|ms| - 1];
    var last := |ms| - 1;
    var prev := Collect(lib, opt, levels, orig, st, init);
    var e := NewElem(lib, opt, levels, prev.0, ms[last]);
    CollectOffsets(lib, opt, levels, orig, st, init);
    OffsetsPrefix(opt, st.strpos, orig, ms);
    assert Collect(lib, opt, levels, orig, st, ms).1 ==
      prev.1 + [GotopLink(opt, prev.0.strpos, MatchPos(orig, FullMatch(ms[last]))) + Rebuilt(opt, e.anchor, ParseMatch(ms[last]))];
  }

  lemma OffsetsPrefix(opt: Options, strpos: seq<int>, orig: string, ms: seq<RegexMatch>)
    requires ms != []
    ensures OffsetsBefore(opt, strpos, orig, ms, |ms| - 1) == OffsetsBefore(opt, strpos, orig, ms[..|ms| - 1], |ms| - 1)
  {
    assert Positions(orig, ms)[..|ms| - 1] == Positions(orig, ms[..|ms| - 1])[..|ms| - 1];
  }

  lemma ReplacementPrefix(opt: Options, orig: string, strpos: seq<int>, ms: seq<RegexMatch>, i: nat, anchor: string)
    requires i < |ms| - 1
    ensures Replacement(opt, orig, strpos, ms, i, anchor) == Replacement(opt, orig, strpos, ms[..|ms| - 1], i, anchor)
  {
    assert ms[i] == ms[..|ms| - 1][i];
    assert Positions(orig, ms)[..i] == Positions(orig, ms[..|ms| - 1])[..i];
  }

  /** The replacement of match i, given its anchor. */
  function Replacement(opt: Options, orig: string, strpos: seq<int>, ms: seq<RegexMatch>, i: nat, anchor: string): string
    requires i < |ms|
  {
    GotopLink(opt, OffsetsBefore(opt, strpos, orig, ms, i), MatchPos(orig, FullMatch(ms[i]))) + Rebuilt(opt, anchor, ParseMatch(ms[i]))
  }

  /**
   * The gate over a whole call: with to_menu set and nothing recorded
   * before, match i gets the link exactly when its offset lies at least
   * tomenu_simcount after the offset of match i - 1 (after 0 for the first).
   */
  lemma GateFromFresh(opt: Options, orig: string, ms: seq<RegexMatch>, i: nat)
    requires Truthy(opt.toMenu) && i < |ms|
    ensures var pos := Positions(orig, ms);
      GotopLink(opt, OffsetsBefore(opt, [], orig, ms, i), pos[i]) != "" <==>
        pos[i] - (if i == 0 then 0 else pos[i - 1]) >= opt.tomenuSimcount
  {
    GotopLinkGate(opt, OffsetsBefore(opt, [], orig, ms, i), Positions(orig, ms)[i]);
  }

  /** Without to_menu no replacement carries a link, and no offset is recorded. */
  lemma NoMenuNoLinks(opt: Options, orig: string, strpos: seq<int>, ms: seq<RegexMatch>, i: nat, anchor: string)
    requires !Truthy(opt.toMenu) && i < |ms|
    ensures OffsetsBefore(opt, strpos, orig, ms, |ms|) == strpos
    ensures Replacement(opt, orig, strpos, ms, i, anchor) == Rebuilt(opt, anchor, ParseMatch(ms[i]))
  {
  }

  /**
   * A heading whose full text repeats the one before it is found by strpos
   * at the same offset: it never gets the link when tomenu_simcount is
   * positive.
   */
  lemma RepeatedHeadingNoLink(opt: Options, orig: string, ms: seq<RegexMatch>, i: nat)
    requires Truthy(opt.toMenu) && 0 < i < |ms| && FullMatch(ms[i]) == FullMatch(ms[i - 1])
    requires opt.tomenuSimcount > 0
    ensures GotopLink(opt, OffsetsBefore(opt, [], orig, ms, i), MatchPos(orig, FullMatch(ms[i]))) == ""
  {
    GateFromFresh(opt, orig, ms, i);
  }
}
