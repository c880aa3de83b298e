// The objects of 4.3.13: the per-call temp object and Kama_Contents itself,
// with make_contents and the methods it calls (Kama_Contents.php:166-456,
// 612-632, 783-802). Each method is proved against the functions of the
// Selectors, Levels, Headings and Toc modules.

module Contents {
  import opened Php
  import opened Slug
  import opened Levels
  import opened Selectors
  import opened Headings
  import opened Toc

  /**
   * The heading search of collect_toc: the content, the tag names and the
   * class names give the ordered, non-overlapping matches of the heading regex.
   */
  type Search = (string, seq<string>, seq<string>) -> seq<RegexMatch>

  /** The options after split_params_and_tags: the markers and as_table set options. */
  function SplitOptions(opt: Options, p: Params): Options
  {
    var o := opt.(embed := opt.embed || "embed" in p.tokens,
                  toMenu := if "no_to_menu" in p.tokens then "" else opt.toMenu);
    if p.asTable.Some? then o.(asTable := p.asTable) else o
  }

  /** The tags split_params_and_tags returns: the words that are not markers, or the default selectors. */
  function SplitTags(selectors: SelectorsOpt, tokens: seq<string>): seq<string>
  {
    var words := SelectorWords(tokens);
    if words == [] then DefaultSelectors(selectors) else words
  }

  /** What split_params_and_tags does to the options: each marker sets its option and nothing else changes. */
  lemma SplitOptionsSpec(opt: Options, p: Params)
    ensures var o := SplitOptions(opt, p);
      && (o.embed <==> opt.embed || "embed" in p.tokens)
      && ("no_to_menu" in p.tokens ==> !Truthy(o.toMenu))
      && ("no_to_menu" !in p.tokens ==> o.toMenu == opt.toMenu)
      && o.asTable == (if p.asTable.Some? then p.asTable else opt.asTable)
      && o.(embed := opt.embed, toMenu := opt.toMenu, asTable := opt.asTable) == opt
  {
  }

  /** Once to_menu is off on an instance, no later call turns it back on. */
  lemma NoToMenuPersists(opt: Options, p: Params)
    requires !Truthy(opt.toMenu)
    ensures !Truthy(SplitOptions(opt, p).toMenu)
  {
  }

  /**
   * The explicit selectors keep the order of the words, each as often as it
   * was written, and never include a marker; without one, the default
   * selectors are used.
   */
  lemma {:induction false} SplitTagsSpec(selectors: SelectorsOpt, tokens: seq<string>)
    ensures SelectorWords(tokens) == [] ==> SplitTags(selectors, tokens) == DefaultSelectors(selectors)
    ensures SelectorWords(tokens) != [] ==> IsSubsequence(SplitTags(selectors, tokens), tokens)
    ensures SelectorWords(tokens) != [] ==>
      forall t :: t in SplitTags(selectors, tokens) <==> t in tokens && !IsMarker(t)
    ensures SelectorWords(tokens) != [] ==>
      forall t :: multiset(SplitTags(selectors, tokens))[t] == if IsMarker(t) then 0 else multiset(tokens)[t]
  {
    FilterSpec(t => !IsMarker(t), tokens);
  }

  /** The outcome of one make_contents call: the new options, toc_elems, the result and the content. */
  datatype Run = Run(opt: Options, elems: seq<TocElem>, toc: Option<seq<TocElem>>, content: string)

  /**
   * collect_toc from the registry, counter and offsets in `st`: the state the
   * callbacks leave and the content, rewritten only when at least min_found
   * elements were collected.
   */
  function Gathered(lib: Library, search: Search, opt: Options, st: TocState, content: string, tags: seq<string>, params: string): (TocState, string)
    requires |tags| > 0
  {
    ResolveShape(tags, params);
    var ms := search(content, TagNames(tags), ClassNames(tags));
    var r := Collect(lib, opt, Resolve(tags, params), content, st, ms);
    (r.0, if |r.0.elems| >= opt.minFound then Splice(content, ms, r.1, 0) else content)
  }

  /** Gathered, given the matches and the result of the fold. */
  lemma GatheredIs(lib: Library, search: Search, opt: Options, st: TocState, content: string, tags: seq<string>, params: string,
                   ms: seq<RegexMatch>, after: TocState, outs: seq<string>)
    requires |tags| > 0 && ms == search(content, TagNames(tags), ClassNames(tags))
    requires Valid(Resolve(tags, params)) && (after, outs) == Collect(lib, opt, Resolve(tags, params), content, st, ms)
    ensures Gathered(lib, search, opt, st, content, tags, params) ==
      (after, if |after.elems| >= opt.minFound then Splice(content, ms, outs, 0) else content)
  {
  }

  /**
   * make_contents on an instance with options `opt` and elements `elems`.
   * The table of contents is given as its elements; its HTML is not part of
   * this model.
   */
  function Outcome(lib: Library, search: Search, opt: Options, elems: seq<TocElem>, content: string, params: string): Run
  {
    if |lib.stripTags(content)| < opt.minLength then Run(opt, elems, None, content)
    else
      var p := Selectors.ParseStringParams(params);
      var o := SplitOptions(opt, p);
      var tags := Filter(OccursIn(content), SplitTags(opt.selectors, p.tokens));
      if tags == [] then Run(o, elems, None, content)
      else
        var g := Gathered(lib, search, o, Fresh, content, tags, params);
        if |g.0.elems| < o.minFound then Run(o, g.0.elems, None, content)
        else Run(o, g.0.elems, Some(g.0.elems), g.1)
  }

  /**
   * The three gates: text shorter than min_length (nothing changes at all),
   * no selector left after filtering, fewer than min_found matches. In each
   * the result is empty and the content is left as it is; otherwise the
   * content is the matches' replacements spliced into the gaps.
   */
  lemma OutcomeGates(lib: Library, search: Search, opt: Options, elems: seq<TocElem>, content: string, params: string)
    ensures var r := Outcome(lib, search, opt, elems, content, params);
      && (|lib.stripTags(content)| < opt.minLength ==> r == Run(opt, elems, None, content))
      && (r.toc == None ==> r.content == content)
      && (r.toc.Some? <==>
            var p := Selectors.ParseStringParams(params);
            var tags := Filter(OccursIn(content), SplitTags(opt.selectors, p.tokens));
            && |lib.stripTags(content)| >= opt.minLength
            && tags != []
            && |r.elems| >= SplitOptions(opt, p).minFound)
      && (r.toc.Some? ==> r.toc == Some(r.elems))
  {
  }

  /**
   * Collected from a fresh temp object, the elements are numbered 1, 2, 3, …
   * and their anchors are pairwise distinct.
   */
  lemma FreshElems(lib: Library, search: Search, opt: Options, content: string, tags: seq<string>, params: string)
    requires |tags| > 0
    ensures var e := Gathered(lib, search, opt, Fresh, content, tags, params).0.elems;
      && (forall i :: 0 <= i < |e| ==> e[i].position == i + 1)
      && (forall i, j :: 0 <= i < j < |e| ==> e[i].anchor != e[j].anchor)
  {
    ResolveShape(tags, params);
    var levels := Resolve(tags, params);
    var ms := search(content, TagNames(tags), ClassNames(tags));
    CollectPositions(lib, opt, levels, content, Fresh, ms);
    CollectAnchors(lib, opt, levels, content, Fresh, ms);
    var r := Collect(lib, opt, levels, content, Fresh, ms).0;
    assert r == Gathered(lib, search, opt, Fresh, content, tags, params).0;
    assert NumberedFrom(r.elems, 0, 0);
    assert FreshAnchors({}, r.elems, r.anchors);
    forall i | 0 <= i < |r.elems| ensures r.elems[i].position == i + 1 {
      assert r.elems[0 + i].position == 0 + i + 1;
    }
  }

  /**
   * In a call that yields a table of contents, the elements are numbered 1, 2,
   * 3, … (the counter lives in the fresh temp object) and their anchors are
   * pairwise distinct.
   */
  lemma OutcomeElems(lib: Library, search: Search, opt: Options, elems: seq<TocElem>, content: string, params: string)
    requires Outcome(lib, search, opt, elems, content, params).toc.Some?
    ensures var r := Outcome(lib, search, opt, elems, content, params);
      && (forall i :: 0 <= i < |r.elems| ==> r.elems[i].position == i + 1)
      && (forall i, j :: 0 <= i < j < |r.elems| ==> r.elems[i].anchor != r.elems[j].anchor)
  {
    var p := Selectors.ParseStringParams(params);
    var tags := Filter(OccursIn(content), SplitTags(opt.selectors, p.tokens));
    FreshElems(lib, search, SplitOptions(opt, p), content, tags, params);
  }

  /** The per-call object $this->temp. */
  class Temp {
    var originalParams: string
    var counter: nat
    var anchors: set<string>
    var elStrpos: seq<int>
    var origContent: string
    var levels: LevelMap
    var tagPatt: seq<string>
    var classPatt: seq<string>

    /** `new \stdClass()`: nothing recorded yet. */
    constructor ()
      ensures originalParams == "" && counter == 0 && anchors == {} && elStrpos == [] && origContent == ""
      ensures levels == LevelMap([], []) && tagPatt == [] && classPatt == []
    {
      originalParams, counter, anchors, elStrpos, origContent := "", 0, {}, [], "";
      levels, tagPatt, classPatt := LevelMap([], []), [], [];
    }

    /**
     * _unique_anchor: the first candidate, in the order of Uniquify, that is
     * not registered; it is registered before it is returned.
     */
    method UniqueAnchor(a: string) returns (r: string)
      modifies this`anchors
      ensures r == Uniquify(old(anchors), a) && r !in old(anchors)
      ensures anchors == old(anchors) + {r}
      decreases Rank(anchors, a)
    {
      if a in anchors {
        NextCandidateGrows(a);
        r := UniqueAnchor(NextCandidate(a));
      } else {
        anchors := anchors + {a};
        r := a;
      }
    }
  }

  /** Kama_Contents: the options and the collected elements. */
  class KamaContents {
    var opt: Options
    var tocElems: seq<TocElem>

    /** __construct / set_opt: the given options (merged over the defaults by the caller). */
    constructor (opt: Options)
      ensures this.opt == opt && tocElems == []
    {
      this.opt := opt;
      tocElems := [];
    }

    /** What one callback changes, as a value. */
    function State(temp: Temp): TocState
      reads this, temp
    {
      TocState(temp.counter, temp.anchors, temp.elStrpos, tocElems)
    }

    /** parse_string_params: the original string is kept on temp. */
    method ParseStringParams(temp: Temp, params: string) returns (p: Params)
      modifies temp`originalParams
      ensures temp.originalParams == params && p == Selectors.ParseStringParams(params)
    {
      temp.originalParams := params;
      p := Selectors.ParseStringParams(params);
    }

    /** split_params_and_tags: the loop over the parameters, then the defaults. */
    method SplitParamsAndTags(p: Params) returns (tags: seq<string>)
      modifies this`opt
      ensures opt == SplitOptions(old(opt), p)
      ensures tags == SplitTags(old(opt).selectors, p.tokens)
    {
      tags := [];
      for i := 0 to |p.tokens|
        invariant opt == SplitOptions(old(opt), Params(p.tokens[..i], None))
        invariant tags == SelectorWords(p.tokens[..i])
      {
        var t := p.tokens[i];
        assert p.tokens[..i + 1] == p.tokens[..i] + [t];
        assert p.tokens[..i + 1][..i] == p.tokens[..i];
        if t == "embed" {
          opt := opt.(embed := true);
        } else if t == "no_to_menu" {
          opt := opt.(toMenu := "");
        } else {
          tags := tags + [t];
        }
      }
      assert p.tokens[..|p.tokens|] == p.tokens;
      if p.asTable.Some? {
        opt := opt.(asTable := p.asTable);
      }
      if tags == [] {
        tags := DefaultSelectors(opt.selectors);
      }
    }

    /** _sanitaze_anchor on the current registry. */
    method SanitizeAnchor(lib: Library, temp: Temp, anch: string) returns (r: string)
      modifies temp`anchors
      ensures r == Uniquify(old(temp.anchors), AnchorBase(lib, opt.spec, anch))
      ensures temp.anchors == old(temp.anchors) + {r}
    {
      r := temp.UniqueAnchor(AnchorBase(lib, opt.spec, anch));
    }

    /** _toc_element_anchor: the attribute's value when the attribute is there, else the heading text. */
    method TocElementAnchor(lib: Library, temp: Temp, tagText: string, attrs: string) returns (anchor: string)
      modifies temp`anchors
      ensures anchor == Uniquify(old(temp.anchors), AnchorBase(lib, opt.spec, AnchorSource(opt.anchorAttrName, tagText, attrs)))
      ensures temp.anchors == old(temp.anchors) + {anchor}
    {
      var source := tagText;
      if Truthy(opt.anchorAttrName) {
        var found := FindAttr(attrs, opt.anchorAttrName, 0);
        if found.Some? {
          source := found.value.value;
        }
      }
      assert source == AnchorSource(opt.anchorAttrName, tagText, attrs);
      anchor := SanitizeAnchor(lib, temp, source);
    }

    /** _to_menu_link_html: records the element's offset and returns the link, when to_menu is set. */
    method ToMenuLinkHtml(temp: Temp, elem: TocElem) returns (link: string)
      modifies temp`elStrpos
      ensures var pos := MatchPos(temp.origContent, elem.fullMatch);
        link == GotopLink(opt, old(temp.elStrpos), pos) && temp.elStrpos == Record(opt, old(temp.elStrpos), pos)
    {
      if !Truthy(opt.toMenu) {
        return "";
      }
      var pos := MatchPos(temp.origContent, elem.fullMatch);
      var prev := if temp.elStrpos == [] then 0 else temp.elStrpos[|temp.elStrpos| - 1];
      temp.elStrpos := temp.elStrpos + [pos];
      if pos - prev < opt.tomenuSimcount {
        return "";
      }
      link := GotopHtml(opt.pageUrl, opt.toMenu);
    }

    /** collect_toc_replace_callback: one step of the fold, on the objects. */
    method Callback(lib: Library, temp: Temp, m: RegexMatch) returns (out: string)
      requires Valid(temp.levels)
      modifies this`tocElems, temp`counter, temp`anchors, temp`elStrpos
      ensures (State(temp), out) == Toc.Step(lib, opt, temp.levels, temp.origContent, old(State(temp)), m)
    {
      var p := ParseMatch(m);
      ghost var st := State(temp);
      temp.counter := temp.counter + 1;
      var anchor := TocElementAnchor(lib, temp, p.text, p.attrs);
      var elem := TocElem(p.fullMatch, p.tag, anchor, ElemText(lib, opt.leaveTags, p.text),
        Lookup(temp.levels, p.levelTag), temp.counter);
      assert elem == NewElem(lib, opt, temp.levels, st, m);
      tocElems := tocElems + [elem];
      var newEl := Rebuilt(opt, anchor, p);
      var link := ToMenuLinkHtml(temp, elem);
      out := link + newEl;
    }

    /**
     * The callback of preg_replace_callback applied to the matches in order,
     * with the replacements it returns.
     */
    method ReplaceAll(lib: Library, temp: Temp, ms: seq<RegexMatch>) returns (outs: seq<string>)
      requires Valid(temp.levels)
      modifies this`tocElems, temp`counter, temp`anchors, temp`elStrpos
      ensures (State(temp), outs) == Collect(lib, opt, temp.levels, temp.origContent, old(State(temp)), ms)
    {
      ghost var st0 := State(temp);
      outs := [];
      for i := 0 to |ms|
        invariant (State(temp), outs) == Collect(lib, opt, temp.levels, temp.origContent, st0, ms[..i])
      {
        PrefixDropLast(ms, i);
        var out := Callback(lib, temp, ms[i]);
        outs := outs + [out];
      }
      assert ms[..|ms|] == ms;
    }

    /** _set_tags_levels_and_regex_patt, keeping the level table and the patterns on temp. */
    method StoreTagsLevels(temp: Temp, tags: seq<string>)
      requires |tags| > 0
      modifies temp`levels, temp`tagPatt, temp`classPatt
      ensures temp.levels == Resolve(tags, temp.originalParams) && Valid(temp.levels)
      ensures temp.tagPatt == TagNames(tags) && temp.classPatt == ClassNames(tags)
    {
      temp.levels, temp.tagPatt, temp.classPatt := SetTagsLevelsAndRegexPatt(tags, temp.originalParams);
      ResolveShape(tags, temp.originalParams);
    }

    /**
     * collect_toc: the level table and patterns, the callbacks over the
     * matches, and the rewritten content, kept only when at least min_found
     * elements were collected.
     */
    method CollectToc(lib: Library, search: Search, temp: Temp, content: string, tags: seq<string>)
      returns (newContent: string)
      requires |tags| > 0
      modifies this`tocElems, temp`counter, temp`anchors, temp`elStrpos
      modifies temp`levels, temp`tagPatt, temp`classPatt, temp`origContent
      ensures (State(temp), newContent) ==
        Gathered(lib, search, opt, TocState(old(temp.counter), old(temp.anchors), old(temp.elStrpos), []), content, tags, temp.originalParams)
      ensures temp.origContent == content
      ensures temp.levels == Resolve(tags, temp.originalParams) && Valid(temp.levels)
      ensures temp.tagPatt == TagNames(tags) && temp.classPatt == ClassNames(tags)
    {
      tocElems := [];
      ghost var st := State(temp);
      StoreTagsLevels(temp, tags);
      temp.origContent := content;
      var ms := search(content, temp.tagPatt, temp.classPatt);
      var outs := ReplaceAll(lib, temp, ms);
      var spliced := Splice(content, ms, outs, 0);
      newContent := if |tocElems| >= opt.minFound then spliced else content;
      GatheredIs(lib, search, opt, st, content, tags, temp.originalParams, ms, State(temp), outs);
    }

    /**
     * make_contents: the three gates and the rewritten content. The result is
     * the collected elements; toc_elems is not reset when a gate before
     * collect_toc closes.
     */
    method MakeContents(lib: Library, search: Search, content: string, params: string)
      returns (toc: Option<seq<TocElem>>, newContent: string)
      modifies this
      ensures Run(opt, tocElems, toc, newContent) == Outcome(lib, search, old(opt), old(tocElems), content, params)
    {
      if |lib.stripTags(content)| < opt.minLength {
        return None, content;
      }
      var temp := new Temp();
      var p := ParseStringParams(temp, params);
      var tags := SplitParamsAndTags(p);
      tags := GetActualTags(tags, content);
      if tags == [] {
        return None, content;
      }
      newContent := CollectToc(lib, search, temp, content, tags);
      if |tocElems| < opt.minFound {
        return None, newContent;
      }
      toc := Some(tocElems);
    }
  }
}
