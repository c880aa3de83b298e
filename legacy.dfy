// The legacy 3.17 pipeline of class-Kama_Contents.php: make_contents, its
// callback and the anchor registry (class-Kama_Contents.php:115-417). In
// this version `$this->temp` is the options object itself, so the anchor
// registry, the counter and the recorded offsets are fields of the instance
// that outlive each call.

module Legacy {
  import opened Php
  import opened Slug
  import opened Levels
  import opened Selectors
  import opened Headings

  /** The options the 3.17 pipeline reads; `to_menu` false is "". */
  datatype Options = Options(
    selectors: SelectorsOpt,
    toMenu: string,
    minFound: int,
    minLength: int,
    pageUrl: string,
    spec: string,
    anchorType: string,
    anchorAttrName: string,
    anchorLink: string,
    tomenuSimcount: int,
    margin: int,
    asTable: Option<seq<string>>,
    embed: bool)

  /** The defaults of Kama_Contents::$opt in 3.17. */
  const DefaultOptions: Options := Options(SelectorList(["h2", "h3", "h4"]),
    "к содержанию ↑", 2, 2000, "", "'.+$*~=",
    "id", "id", "", 800, 40, None, false)

  /** One entry of $this->contents: the pieces its list item is made of. */
  datatype Item = Item(anchor: string, text: string, level: int, sub: string, position: nat)

  /** What the callback changes: counter, anchors, elpos (all on the options object) and contents. */
  datatype State = State(counter: nat, anchors: set<string>, elpos: seq<int>, items: seq<Item>)

  /** The whole instance: options, callback state, level_tags and the content kept on temp. */
  datatype Instance = Instance(opt: Options, st: State, levelTags: LevelMap, content: string)

  /** The outcome of one make_contents call: the instance afterwards, the result and the content. */
  datatype Run = Run(inst: Instance, toc: Option<seq<Item>>, content: string)

  /** The anchor of a heading: attribute value or text, slugged, then made unique against the registry. */
  function ItemAnchor(lib: Library, opt: Options, reg: set<string>, p: Parsed): (r: string)
    ensures r !in reg
  {
    LegacyUniquify(reg, LegacyAnchorBase(lib, opt.spec, LegacyAnchorSource(opt.anchorAttrName, p.text, p.attrs)))
  }

  /** The "back to contents" link, given the offsets recorded so far and this match's offset. */
  function GotopLink(opt: Options, elpos: seq<int>, pos: int): string
  {
    if Truthy(opt.toMenu) && ShowGotop(pos, elpos, opt.tomenuSimcount) then LegacyGotopHtml(opt.pageUrl, opt.toMenu) else ""
  }

  /** The link is the 3.17 link when shown, and it is shown exactly when to_menu is set and the gap is wide enough. */
  lemma GotopLinkGate(opt: Options, elpos: seq<int>, pos: int)
    ensures GotopLink(opt, elpos, pos) != "" <==> Truthy(opt.toMenu) && pos - PrevPos(elpos) >= opt.tomenuSimcount
    ensures GotopLink(opt, elpos, pos) != "" ==> GotopLink(opt, elpos, pos) == LegacyGotopHtml(opt.pageUrl, opt.toMenu)
  {
  }

  /** The offsets after the callback: the match's offset is recorded only when to_menu is set. */
  function Record(opt: Options, elpos: seq<int>, pos: int): seq<int>
  {
    if Truthy(opt.toMenu) then elpos + [pos] else elpos
  }

  /** The entry _make_contents_callback pushes for a parsed match. */
  function NewItem(lib: Library, opt: Options, levels: LevelMap, st: State, p: Parsed): Item
    requires Valid(levels)
  {
    var level := Lookup(levels, p.levelTag);
    Item(ItemAnchor(lib, opt, st.anchors, p), ScrubLinks(p.text), level, LegacySubAttr(level, opt.margin), st.counter + 1)
  }

  /** NewItem, given the anchor the registry produced for the parsed match. */
  lemma NewItemIs(lib: Library, opt: Options, levels: LevelMap, st: State, p: Parsed, anchor: string, level: int)
    requires Valid(levels)
    requires anchor == LegacyUniquify(st.anchors, LegacyAnchorBase(lib, opt.spec, LegacyAnchorSource(opt.anchorAttrName, p.text, p.attrs)))
    requires level == Lookup(levels, p.levelTag)
    ensures anchor == ItemAnchor(lib, opt, st.anchors, p)
    ensures NewItem(lib, opt, levels, st, p) == Item(anchor, ScrubLinks(p.text), level, LegacySubAttr(level, opt.margin), st.counter + 1)
  {
  }

  /** The heading written back: the id or name attribute that gave the anchor is removed. */
  function Rebuilt(opt: Options, anchor: string, p: Parsed): string
  {
    HeadingHtml(LegacyPrefix, opt.anchorType, opt.anchorLink, anchor, p.tag, LegacyAttrs(opt.anchorAttrName, p.attrs), p.text)
  }

  /** _make_contents_callback: the new state and the replacement of one match. */
  function CallbackStep(lib: Library, opt: Options, levels: LevelMap, content: string, st: State, m: RegexMatch): (State, string)
    requires Valid(levels)
  {
    var p := ParseMatch(m);
    var item := NewItem(lib, opt, levels, st, p);
    var pos := MatchPos(content, FullMatch(m));
    (State(st.counter + 1, st.anchors + {item.anchor}, Record(opt, st.elpos, pos), st.items + [item]),
     GotopLink(opt, st.elpos, pos) + Rebuilt(opt, item.anchor, p))
  }

  /** CallbackStep, given the anchor, the link and the offsets the callback computes. */
  lemma StepIs(lib: Library, opt: Options, levels: LevelMap, content: string, st: State, m: RegexMatch,
               anchor: string, link: string, elpos: seq<int>)
    requires Valid(levels)
    requires anchor == ItemAnchor(lib, opt, st.anchors, ParseMatch(m))
    requires link == GotopLink(opt, st.elpos, MatchPos(content, FullMatch(m)))
    requires elpos == Record(opt, st.elpos, MatchPos(content, FullMatch(m)))
    ensures CallbackStep(lib, opt, levels, content, st, m) ==
      (State(st.counter + 1, st.anchors + {anchor}, elpos, st.items + [NewItem(lib, opt, levels, st, ParseMatch(m))]),
       link + Rebuilt(opt, anchor, ParseMatch(m)))
  {
  }

  /** The callback applied to the matches in order, with the replacements it returns. */
  function Collect(lib: Library, opt: Options, levels: LevelMap, content: string, st: State, ms: seq<RegexMatch>): (r: (State, seq<string>))
    requires Valid(levels)
    ensures |r.1| == |ms|
    decreases |ms|
  {
    if ms == [] then (st, [])
    else
      var prev := Collect(lib, opt, levels, content, st, ms[..|ms| - 1]);
      var next := CallbackStep(lib, opt, levels, content, prev.0, ms[|ms| - 1]);
      (next.0, prev.1 + [next.1])
  }

  /** From index `from` on, the items are numbered counter + 1, counter + 2, ... */
  predicate NumberedFrom(items: seq<Item>, from: nat, counter: nat)
  {
    forall k :: from <= k < |items| ==> items[k].position == counter + (k - from) + 1
  }

  /**
   * The counter goes on from where it stood, so the i-th match of a call is
   * numbered counter + i + 1, after the items already there.
   */
  lemma {:induction false} CollectCounter(lib: Library, opt: Options, levels: LevelMap, content: string, st: State, ms: seq<RegexMatch>)
    requires Valid(levels)
    ensures var r := Collect(lib, opt, levels, content, st, ms).0;
      r.counter == st.counter + |ms| && |r.items| == |st.items| + |ms| && r.items[..|st.items|] == st.items &&
      NumberedFrom(r.items, |st.items|, st.counter)
    decreases |ms|
  {
    if ms != [] {
      var init := ms[..|ms| - 1];
      CollectCounter(lib, opt, levels, content, st, init);
      var prev := Collect(lib, opt, levels, content, st, init).0;
      var item := NewItem(lib, opt, levels, prev, ParseMatch(ms[|ms| - 1]));
      var r := Collect(lib, opt, levels, content, st, ms).0;
      assert r.items == prev.items + [item] && r.counter == prev.counter + 1;
      NumberedExtend(prev.items, |st.items|, st.counter, item);
      assert r.items[..|st.items|] == prev.items[..|st.items|];
    }
  }

  /** The entry of match `m` records it: the scrubbed text, the level (0 for a missing key) and its sub attribute. */
  predicate ItemMatches(opt: Options, levels: LevelMap, item: Item, m: RegexMatch)
    requires Valid(levels)
  {
    var p := ParseMatch(m);
    item.text == ScrubLinks(p.text) && item.level == Lookup(levels, p.levelTag) &&
    item.sub == LegacySubAttr(item.level, opt.margin)
  }

  /** Each entry a call pushes records its match. */
  lemma CollectItems(lib: Library, opt: Options, levels: LevelMap, content: string, st: State, ms: seq<RegexMatch>)
    requires Valid(levels)
    ensures var r := Collect(lib, opt, levels, content, st, ms).0;
      |r.items| == |st.items| + |ms| &&
      forall i :: 0 <= i < |ms| ==> ItemMatches(opt, levels, r.items[|st.items| + i], ms[i])
  {
    CollectCounter(lib, opt, levels, content, st, ms);
    forall i | 0 <= i < |ms|
      ensures ItemMatches(opt, levels, Collect(lib, opt, levels, content, st, ms).0.items[|st.items| + i], ms[i])
    {
      CollectItemAt(lib, opt, levels, content, st, ms, i);
    }
  }

  /** The entry the i-th match pushed records that match. */
  lemma {:induction false} CollectItemAt(lib: Library, opt: Options, levels: LevelMap, content: string, st: State,
                                         ms: seq<RegexMatch>, i: nat)
    requires Valid(levels) && i < |ms|
    ensures |st.items| + i < |Collect(lib, opt, levels, content, st, ms).0.items|
    ensures ItemMatches(opt, levels, Collect(lib, opt, levels, content, st, ms).0.items[|st.items| + i], ms[i])
    decreases |ms|
  {
    var init := ms[..|ms| - 1];
    CollectCounter(lib, opt, levels, content, st, init);
    var prev := Collect(lib, opt, levels, content, st, init).0;
    var item := NewItem(lib, opt, levels, prev, ParseMatch(ms[|ms| - 1]));
    assert Collect(lib, opt, levels, content, st, ms).0.items == prev.items + [item];
    if i < |ms| - 1 {
      CollectItemAt(lib, opt, levels, content, st, init, i);
      assert init[i] == ms[i];
    }
  }

  lemma NumberedExtend(items: seq<Item>, from: nat, counter: nat, item: Item)
    requires from <= |items| && NumberedFrom(items, from, counter) && item.position == counter + (|items| - from) + 1
    ensures NumberedFrom(items + [item], from, counter)
  {
  }

  /** The anchors the matches get: distinct, none already registered, and all registered afterwards. */
  predicate FreshAnchors(before: set<string>, added: seq<Item>, after: set<string>)
  {
    before <= after &&
    (forall i, j :: 0 <= i < j < |added| ==> added[i].anchor != added[j].anchor) &&
    (forall i :: 0 <= i < |added| ==> added[i].anchor !in before && added[i].anchor in after)
  }

  lemma AnchorsExtend(before: set<string>, added: seq<Item>, after: set<string>, item: Item)
    requires FreshAnchors(before, added, after) && item.anchor !in after
    ensures FreshAnchors(before, added + [item], after + {item.anchor})
  {
    var added' := added + [item];
    forall i | 0 <= i < |added'| ensures added'[i].anchor !in before && added'[i].anchor in after + {item.anchor} {
      if i < |added| {
        assert added'[i] == added[i];
      }
    }
    forall i, j | 0 <= i < j < |added'| ensures added'[i].anchor != added'[j].anchor {
      if j < |added| {
        assert added'[i] == added[i] && added'[j] == added[j];
      } else {
        assert added'[i] == added[i] && added[i].anchor in after;
      }
    }
  }

  /**
   * Every anchor of a call avoids the registry it started from, which holds
   * the anchors of the earlier calls on the instance; the anchors of one call
   * are pairwise distinct and all end up registered.
   */
  lemma {:induction false} CollectAnchors(lib: Library, opt: Options, levels: LevelMap, content: string, st: State, ms: seq<RegexMatch>)
    requires Valid(levels)
    ensures var r := Collect(lib, opt, levels, content, st, ms).0;
      |r.items| >= |st.items| && FreshAnchors(st.anchors, r.items[|st.items|..], r.anchors)
    decreases |ms|
  {
    CollectCounter(lib, opt, levels, content, st, ms);
    if ms != [] {
      var init := ms[..|ms| - 1];
      CollectAnchors(lib, opt, levels, content, st, init);
      CollectCounter(lib, opt, levels, content, st, init);
      var prev := Collect(lib, opt, levels, content, st, init).0;
      var item := NewItem(lib, opt, levels, prev, ParseMatch(ms[|ms| - 1]));
      var r := Collect(lib, opt, levels, content, st, ms).0;
      assert r.items == prev.items + [item] && r.anchors == prev.anchors + {item.anchor};
      assert item.anchor !in prev.anchors;
      AnchorsExtend(st.anchors, prev.items[|st.items|..], prev.anchors, item);
      assert r.items[|st.items|..] == prev.items[|st.items|..] + [item];
    }
  }

  /** The offsets after a run of matches: with to_menu set, the strpos of each is appended. */
  function Offsets(opt: Options, elpos: seq<int>, content: string, ms: seq<RegexMatch>): seq<int>
  {
    if Truthy(opt.toMenu) then elpos + Positions(content, ms) else elpos
  }

  /**
   * With to_menu set, elpos keeps the offsets of the earlier calls and gains
   * the strpos of every match of this one; without it, elpos stays as it was.
   */
  lemma {:induction false} CollectOffsets(lib: Library, opt: Options, levels: LevelMap, content: string, st: State, ms: seq<RegexMatch>)
    requires Valid(levels)
    ensures Collect(lib, opt, levels, content, st, ms).0.elpos == Offsets(opt, st.elpos, content, ms)
    decreases |ms|
  {
    if ms != [] {
      var init := ms[..|ms| - 1];
      CollectOffsets(lib, opt, levels, content, st, init);
      OffsetsSnoc(opt, st.elpos, content, ms);
      var prev := Collect(lib, opt, levels, content, st, init).0;
      assert Collect(lib, opt, levels, content, st, ms).0.elpos == Record(opt, prev.elpos, MatchPos(content, FullMatch(ms[|ms| - 1])));
    }
  }

  lemma OffsetsSnoc(opt: Options, elpos: seq<int>, content: string, ms: seq<RegexMatch>)
    requires ms != []
    ensures Offsets(opt, elpos, content, ms) ==
      Record(opt, Offsets(opt, elpos, content, ms[..|ms| - 1]), MatchPos(content, FullMatch(ms[|ms| - 1])))
  {
    PositionsSnoc(content, ms);
    var init := Positions(content, ms[..|ms| - 1]);
    var pos := MatchPos(content, FullMatch(ms[|ms| - 1]));
    assert elpos + (init + [pos]) == (elpos + init) + [pos];
  }

  lemma PositionsSnoc(content: string, ms: seq<RegexMatch>)
    requires ms != []
    ensures Positions(content, ms) == Positions(content, ms[..|ms| - 1]) + [MatchPos(content, FullMatch(ms[|ms| - 1]))]
  {
  }

  /**
   * The first replacement of a call is gated against the offsets recorded
   * before the call, that is against the last offset of an earlier call.
   */
  lemma {:induction false} FirstReplacement(lib: Library, opt: Options, levels: LevelMap, content: string, st: State, ms: seq<RegexMatch>)
    requires Valid(levels) && ms != []
    ensures Collect(lib, opt, levels, content, st, ms).1[0] ==
      GotopLink(opt, st.elpos, MatchPos(content, FullMatch(ms[0]))) +
      Rebuilt(opt, ItemAnchor(lib, opt, st.anchors, ParseMatch(ms[0])), ParseMatch(ms[0]))
    decreases |ms|
  {
    if |ms| > 1 {
      var init := ms[..|ms| - 1];
      FirstReplacement(lib, opt, levels, content, st, init);
      assert init[0] == ms[0];
    }
  }

  /** The markers set their options; as_table replaces the table titles. */
  function SplitOptions(opt: Options, p: Params): Options
  {
    var o := opt.(embed := opt.embed || "embed" in p.tokens,
                  toMenu := if "no_to_menu" in p.tokens then "" else opt.toMenu);
    if p.asTable.Some? then o.(asTable := p.asTable) else o
  }

  /** One more token: a marker sets its option, any other token leaves the options alone. */
  lemma SplitOptionsStep(opt: Options, tokens: seq<string>, i: nat)
    requires i < |tokens|
    ensures var o := SplitOptions(opt, Params(tokens[..i], None));
      SplitOptions(opt, Params(tokens[..i + 1], None)) ==
        if tokens[i] == "embed" then o.(embed := true)
        else if tokens[i] == "no_to_menu" then o.(toMenu := "")
        else o
  {
    assert tokens[..i + 1] == tokens[..i] + [tokens[i]];
  }

  /** The tokens the check loop keeps: no marker, and the selector occurs in the content. */
  function Kept(content: string): string -> bool
  {
    t => !IsMarker(t) && SelectorOccurs(t, content)
  }

  /** The selectors kept are the occurring non-marker tokens, in their order and as often as they were written. */
  lemma KeptSpec(content: string, tokens: seq<string>)
    ensures IsSubsequence(Filter(Kept(content), tokens), tokens)
    ensures forall t :: t in Filter(Kept(content), tokens) <==> t in tokens && !IsMarker(t) && SelectorOccurs(t, content)
    ensures forall t :: multiset(Filter(Kept(content), tokens))[t] ==
              if !IsMarker(t) && SelectorOccurs(t, content) then multiset(tokens)[t] else 0
  {
    FilterSpec(Kept(content), tokens);
  }

  /**
   * The part of make_contents of 3.17 after the selectors are known: level_tags,
   * the search, the callbacks, then the min_found gate.
   */
  function Gathered(lib: Library, search: (string, seq<string>, seq<string>) -> seq<RegexMatch>,
                    o: Options, st: State, content: string, sels: seq<string>): Run
  {
    var levels := LegacyLevels(sels);
    var ms := search(content, TagNames(sels), ClassNames(sels));
    var r := Collect(lib, o, levels, content, st, ms);
    if |ms| == 0 || |ms| < o.minFound then Run(Instance(o, r.0, levels, content), None, content)
    else
      var rewritten := Splice(content, ms, r.1, 0);
      Run(Instance(o, r.0, levels, rewritten), Some(r.0.items), rewritten)
  }

  /**
   * make_contents of 3.17 on an instance. The contents are given as their
   * items; their HTML is not part of this model.
   */
  function Outcome(lib: Library, search: (string, seq<string>, seq<string>) -> seq<RegexMatch>,
                   s: Instance, content: string, tags: SelectorsOpt): Run
  {
    if |lib.stripTags(content)| < s.opt.minLength then Run(s, None, content)
    else
      var st := s.st.(items := []);
      var p := LegacyParams(if Falsy(tags) then s.opt.selectors else tags);
      var o := SplitOptions(s.opt, p);
      var sels := Filter(Kept(content), p.tokens);
      if sels == [] then Run(Instance(o, st, s.levelTags, s.content), None, content)
      else Gathered(lib, search, o, st, content, sels)
  }

  /** Gathered, given the matches and the fold make_contents computes. */
  lemma GatheredIs(lib: Library, search: (string, seq<string>, seq<string>) -> seq<RegexMatch>,
                   o: Options, st: State, content: string, sels: seq<string>,
                   ms: seq<RegexMatch>, r: (State, seq<string>))
    requires ms == search(content, TagNames(sels), ClassNames(sels))
    requires r == Collect(lib, o, LegacyLevels(sels), content, st, ms)
    ensures Gathered(lib, search, o, st, content, sels) ==
      if |ms| == 0 || |ms| < o.minFound then Run(Instance(o, r.0, LegacyLevels(sels), content), None, content)
      else Run(Instance(o, r.0, LegacyLevels(sels), Splice(content, ms, r.1, 0)), Some(r.0.items), Splice(content, ms, r.1, 0))
  {
  }

  /**
   * After the selectors: one item per match, and a result exactly when there
   * is a match and at least min_found of them; no result leaves the content
   * alone, and a result is the item list.
   */
  lemma GatheredShape(lib: Library, search: (string, seq<string>, seq<string>) -> seq<RegexMatch>,
                      o: Options, st: State, content: string, sels: seq<string>)
    requires st.items == []
    ensures var g := Gathered(lib, search, o, st, content, sels);
      var ms := search(content, TagNames(sels), ClassNames(sels));
      && |g.inst.st.items| == |ms|
      && (g.toc.Some? <==> |ms| >= 1 && |ms| >= o.minFound)
      && (g.toc == None ==> g.content == content)
      && (g.toc.Some? ==> g.toc == Some(g.inst.st.items) && g.inst.content == g.content && |g.inst.st.items| >= 1)
  {
    CollectCounter(lib, o, LegacyLevels(sels), content, st, search(content, TagNames(sels), ClassNames(sels)));
  }

  /**
   * The three gates: text shorter than min_length (nothing changes at all),
   * no selector left, no match or fewer than min_found. In each the result is
   * empty and the content is left as it is. Past them the result is the
   * item list, one item per match.
   */
  lemma OutcomeGates(lib: Library, search: (string, seq<string>, seq<string>) -> seq<RegexMatch>,
                     s: Instance, content: string, tags: SelectorsOpt)
    ensures var r := Outcome(lib, search, s, content, tags);
      var sels := Filter(Kept(content), LegacyParams(if Falsy(tags) then s.opt.selectors else tags).tokens);
      && (|lib.stripTags(content)| < s.opt.minLength ==> r == Run(s, None, content))
      && (r.toc.Some? <==> |lib.stripTags(content)| >= s.opt.minLength && sels != [] &&
                           |r.inst.st.items| >= 1 && |r.inst.st.items| >= s.opt.minFound)
      && (r.toc == None ==> r.content == content)
      && (r.toc.Some? ==> r.toc == Some(r.inst.st.items) && r.inst.content == r.content && |r.inst.st.items| >= 1)
  {
    if |lib.stripTags(content)| >= s.opt.minLength {
      var p := LegacyParams(if Falsy(tags) then s.opt.selectors else tags);
      var sels := Filter(Kept(content), p.tokens);
      if sels != [] {
        GatheredShape(lib, search, SplitOptions(s.opt, p), s.st.(items := []), content, sels);
      }
    }
  }

  /** The fold after the selectors numbers its items after the counter and adds fresh, distinct anchors. */
  lemma GatheredPersists(lib: Library, search: (string, seq<string>, seq<string>) -> seq<RegexMatch>,
                         o: Options, st: State, content: string, sels: seq<string>)
    requires st.items == []
    ensures var r := Gathered(lib, search, o, st, content, sels).inst.st;
      && r.counter == st.counter + |r.items|
      && (forall i :: 0 <= i < |r.items| ==> r.items[i].position == st.counter + i + 1)
      && FreshAnchors(st.anchors, r.items, r.anchors)
  {
    var levels := LegacyLevels(sels);
    var ms := search(content, TagNames(sels), ClassNames(sels));
    CollectCounter(lib, o, levels, content, st, ms);
    CollectAnchors(lib, o, levels, content, st, ms);
    var r := Collect(lib, o, levels, content, st, ms).0;
    assert r.items[0..] == r.items;
    forall i | 0 <= i < |r.items| ensures r.items[i].position == st.counter + i + 1 {
      assert r.items[0 + i].position == st.counter + (0 + i) + 1;
    }
  }

  /**
   * What survives a call that passes the length gate: the counter goes on,
   * the new items are numbered after it, the registry only grows and the
   * new anchors are distinct and avoid it.
   */
  lemma OutcomePersists(lib: Library, search: (string, seq<string>, seq<string>) -> seq<RegexMatch>,
                        s: Instance, content: string, tags: SelectorsOpt)
    requires |lib.stripTags(content)| >= s.opt.minLength
    ensures var r := Outcome(lib, search, s, content, tags).inst.st;
      && r.counter == s.st.counter + |r.items|
      && (forall i :: 0 <= i < |r.items| ==> r.items[i].position == s.st.counter + i + 1)
      && FreshAnchors(s.st.anchors, r.items, r.anchors)
  {
    var p := LegacyParams(if Falsy(tags) then s.opt.selectors else tags);
    var sels := Filter(Kept(content), p.tokens);
    if sels != [] {
      GatheredPersists(lib, search, SplitOptions(s.opt, p), s.st.(items := []), content, sels);
    }
  }

  /**
   * Two calls on one instance never hand out the same anchor: the second
   * call's items avoid every anchor the first call registered.
   */
  lemma TwoCallsDistinctAnchors(lib: Library, search: (string, seq<string>, seq<string>) -> seq<RegexMatch>,
                                s: Instance, c1: string, t1: SelectorsOpt, c2: string, t2: SelectorsOpt)
    requires |lib.stripTags(c1)| >= s.opt.minLength
    requires |lib.stripTags(c2)| >= Outcome(lib, search, s, c1, t1).inst.opt.minLength
    ensures var first := Outcome(lib, search, s, c1, t1).inst;
      var second := Outcome(lib, search, first, c2, t2).inst;
      forall i, j :: 0 <= i < |first.st.items| && 0 <= j < |second.st.items| ==>
        first.st.items[i].anchor != second.st.items[j].anchor
  {
    var first := Outcome(lib, search, s, c1, t1).inst;
    OutcomePersists(lib, search, s, c1, t1);
    OutcomePersists(lib, search, first, c2, t2);
  }

  /** The 3.17 object: its options, with temp's fields on the same object, and the collected items. */
  class KamaContents {
    var opt: Options
    var counter: nat
    var anchors: set<string>
    var elpos: seq<int>
    var levelTags: LevelMap
    var content: string
    var contents: seq<Item>

    /** __construct / set_opt: the given options (merged over the defaults by the caller). */
    constructor (opt: Options)
      ensures this.opt == opt && counter == 0 && anchors == {} && elpos == [] && contents == []
      ensures levelTags == LevelMap([], []) && content == ""
    {
      this.opt := opt;
      counter, anchors, elpos, contents := 0, {}, [], [];
      levelTags, content := LevelMap([], []), "";
    }

    /** What one callback changes, as a value. */
    function CallbackState(): State
      reads this
    {
      State(counter, anchors, elpos, contents)
    }

    /** The whole instance as a value. */
    function Snapshot(): Instance
      reads this
    {
      Instance(opt, CallbackState(), levelTags, content)
    }

    /**
     * _unique_anchor of 3.17: a registered anchor gets "-N" appended, N one
     * more than its last digit or 2; the result is registered.
     */
    method UniqueAnchor(a: string) returns (r: string)
      modifies this`anchors
      ensures r == LegacyUniquify(old(anchors), a) && r !in old(anchors)
      ensures anchors == old(anchors) + {r}
      decreases LegacyRank(anchors, a)
    {
      if anchors == {} {
        anchors := {a};
        r := a;
      } else if a in anchors {
        r := UniqueAnchor(LegacyNextCandidate(a));
      } else {
        anchors := anchors + {a};
        r := a;
      }
    }

    /** _sanitaze_anchor of 3.17 on the current registry. */
    method SanitizeAnchor(lib: Library, anch: string) returns (r: string)
      modifies this`anchors
      ensures r == LegacyUniquify(old(anchors), LegacyAnchorBase(lib, opt.spec, anch))
      ensures anchors == old(anchors) + {r}
    {
      r := UniqueAnchor(LegacyAnchorBase(lib, opt.spec, anch));
    }

    /**
     * The to_menu part of _make_contents_callback: with to_menu set, the
     * match's offset is recorded and the link kept only when far enough from
     * the offset recorded before it.
     */
    method ToMenuLink(m: RegexMatch) returns (link: string)
      modifies this`elpos
      ensures var pos := MatchPos(content, FullMatch(m));
        link == GotopLink(opt, old(elpos), pos) && elpos == Record(opt, old(elpos), pos)
    {
      link := "";
      if Truthy(opt.toMenu) {
        link := LegacyGotopHtml(opt.pageUrl, opt.toMenu);
        var pos := MatchPos(content, FullMatch(m));
        var prev := if elpos == [] then 0 else elpos[|elpos| - 1];
        elpos := elpos + [pos];
        if pos - prev < opt.tomenuSimcount {
          link := "";
        }
      }
    }

    /** The entry part of _make_contents_callback: the anchor is registered, the counter bumped and the entry pushed. */
    method PushItem(lib: Library, p: Parsed) returns (anchor: string)
      requires Valid(levelTags)
      modifies this`counter, this`anchors, this`contents
      ensures anchor == ItemAnchor(lib, opt, old(anchors), p)
      ensures anchors == old(anchors) + {anchor} && counter == old(counter) + 1
      ensures contents == old(contents) + [NewItem(lib, opt, levelTags, old(CallbackState()), p)]
    {
      ghost var st := CallbackState();
      anchor := SanitizeAnchor(lib, LegacyAnchorSource(opt.anchorAttrName, p.text, p.attrs));
      var level := Lookup(levelTags, p.levelTag);
      NewItemIs(lib, opt, levelTags, st, p, anchor, level);
      AppendItem(Item(anchor, ScrubLinks(p.text), level, LegacySubAttr(level, opt.margin), counter + 1));
    }

    /** The counter is bumped and the entry, numbered with the new count, pushed. */
    method AppendItem(item: Item)
      modifies this`counter, this`contents
      ensures counter == old(counter) + 1 && contents == old(contents) + [item]
    {
      counter := counter + 1;
      contents := contents + [item];
    }

    /** _make_contents_callback: one step of the fold, on the object. */
    method Callback(lib: Library, m: RegexMatch) returns (out: string)
      requires Valid(levelTags)
      modifies this`counter, this`anchors, this`elpos, this`contents
      ensures (CallbackState(), out) == CallbackStep(lib, opt, levelTags, content, old(CallbackState()), m)
    {
      ghost var st := CallbackState();
      var p := ParseMatch(m);
      var anchor := PushItem(lib, p);
      var attrs := LegacyAttrs(opt.anchorAttrName, p.attrs);
      var newEl := HeadingHtml(LegacyPrefix, opt.anchorType, opt.anchorLink, anchor, p.tag, attrs, p.text);
      var toMenu := ToMenuLink(m);
      out := toMenu + newEl;
      StepIs(lib, opt, levelTags, content, st, m, anchor, toMenu, elpos);
      ghost var next := State(st.counter + 1, st.anchors + {anchor}, elpos, st.items + [NewItem(lib, opt, levelTags, st, p)]);
      assert CallbackState() == next;
      assert out == toMenu + Rebuilt(opt, anchor, p);
      assert CallbackStep(lib, opt, levelTags, content, st, m) == (next, toMenu + Rebuilt(opt, anchor, p));
    }

    /** The callback of preg_replace_callback applied to the matches in order. */
    method ReplaceAll(lib: Library, ms: seq<RegexMatch>) returns (outs: seq<string>)
      requires Valid(levelTags)
      modifies this`counter, this`anchors, this`elpos, this`contents
      ensures (CallbackState(), outs) == Collect(lib, opt, levelTags, content, old(CallbackState()), ms)
    {
      ghost var st0 := CallbackState();
      outs := [];
      for i := 0 to |ms|
        invariant (CallbackState(), outs) == Collect(lib, opt, levelTags, content, st0, ms[..i])
      {
        PrefixDropLast(ms, i);
        var out := Callback(lib, ms[i]);
        outs := outs + [out];
      }
      assert ms[..|ms|] == ms;
    }

    /**
     * The check loop of make_contents: as_table and the markers set options,
     * markers and selectors that do not occur in the content are dropped.
     */
    method CheckTags(p: Params, text: string) returns (kept: seq<string>)
      modifies this`opt
      ensures opt == SplitOptions(old(opt), p)
      ensures kept == Filter(Kept(text), p.tokens)
    {
      kept := [];
      for i := 0 to |p.tokens|
        invariant opt == SplitOptions(old(opt), Params(p.tokens[..i], None))
        invariant kept == Filter(Kept(text), p.tokens[..i])
      {
        var t := p.tokens[i];
        SplitOptionsStep(old(opt), p.tokens, i);
        PrefixDropLast(p.tokens, i);
        if t == "embed" || t == "no_to_menu" {
          if t == "embed" {
            opt := opt.(embed := true);
          }
          if t == "no_to_menu" {
            opt := opt.(toMenu := "");
          }
        } else if SelectorOccurs(t, text) {
          kept := kept + [t];
        }
      }
      assert p.tokens[..|p.tokens|] == p.tokens;
      if p.asTable.Some? {
        opt := opt.(asTable := p.asTable);
      }
    }

    /** The pattern loop of make_contents: tag and class names, then level_tags by array_flip. */
    method Patterns(sels: seq<string>) returns (tagPatt: seq<string>, classPatt: seq<string>, levels: LevelMap)
      ensures tagPatt == TagNames(sels) && classPatt == ClassNames(sels) && levels == LegacyLevels(sels)
    {
      tagPatt, classPatt := [], [];
      var names: seq<string> := [];
      for i := 0 to |sels|
        invariant names == Names(sels)[..i]
        invariant tagPatt == TagNames(sels[..i]) && classPatt == ClassNames(sels[..i])
      {
        PrefixDropLast(sels, i);
        var name := SelectorName(sels[i]);
        if IsClassSelector(sels[i]) {
          classPatt := classPatt + [name];
        } else {
          tagPatt := tagPatt + [name];
        }
        names := names + [name];
      }
      assert sels[..|sels|] == sels;
      assert names == Names(sels);
      levels := Flip(names);
    }

    /** The second half of make_contents: patterns, level_tags, the callbacks and the min_found gate. */
    method Gather(lib: Library, search: (string, seq<string>, seq<string>) -> seq<RegexMatch>,
                  text: string, sels: seq<string>)
      returns (toc: Option<seq<Item>>, newContent: string)
      modifies this`counter, this`anchors, this`elpos, this`contents, this`levelTags, this`content
      ensures opt == old(opt)
      ensures Run(Snapshot(), toc, newContent) == Gathered(lib, search, opt, old(CallbackState()), text, sels)
    {
      var tagPatt, classPatt, levels := Patterns(sels);
      levelTags := levels;
      content := text;
      var ms := search(text, tagPatt, classPatt);
      var outs := ReplaceAll(lib, ms);
      GatheredIs(lib, search, opt, old(CallbackState()), text, sels, ms, (CallbackState(), outs));
      if |ms| == 0 || |ms| < opt.minFound {
        return None, text;
      }
      newContent := Splice(text, ms, outs, 0);
      content := newContent;
      toc := Some(contents);
    }

    /** make_contents of 3.17: the gates, the callbacks and the rewritten content. */
    method MakeContents(lib: Library, search: (string, seq<string>, seq<string>) -> seq<RegexMatch>,
                        text: string, tags: SelectorsOpt)
      returns (toc: Option<seq<Item>>, newContent: string)
      modifies this
      ensures Run(Snapshot(), toc, newContent) == Outcome(lib, search, old(Snapshot()), text, tags)
    {
      if |lib.stripTags(text)| < opt.minLength {
        return None, text;
      }
      contents := [];
      var given := if Falsy(tags) then opt.selectors else tags;
      var p := LegacyParams(given);
      var sels := CheckTags(p, text);
      if sels == [] {
        return None, text;
      }
      toc, newContent := Gather(lib, search, text, sels);
    }
  }
}
