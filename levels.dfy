// Selector levels: how the ordered selector list becomes a nesting level per
// tag or class name (Kama_Contents.php:332-392; class-Kama_Contents.php:172-187).

module Levels {
  import opened Php

  /** A selector names a CSS class when it starts with '.'. */
  predicate IsClassSelector(sel: string)
  {
    |sel| > 0 && sel[0] == '.'
  }

  /** The name a selector contributes to the patterns and to the level table. */
  function SelectorName(sel: string): string
  {
    if IsClassSelector(sel) then sel[1..] else sel
  }

  function Names(sels: seq<string>): (r: seq<string>)
    ensures |r| == |sels|
    ensures forall i :: 0 <= i < |sels| ==> r[i] == SelectorName(sels[i])
  {
    seq(|sels|, i requires 0 <= i < |sels| => SelectorName(sels[i]))
  }

  /** `$tag_regex_patt`: the tag selectors, in order. */
  function TagNames(sels: seq<string>): seq<string>
  {
    if sels == [] then []
    else
      var last := sels[|sels| - 1];
      TagNames(sels[..|sels| - 1]) + (if IsClassSelector(last) then [] else [last])
  }

  /** `$class_regex_patt`: the class selectors without their '.', in order. */
  function ClassNames(sels: seq<string>): seq<string>
  {
    if sels == [] then []
    else
      var last := sels[|sels| - 1];
      ClassNames(sels[..|sels| - 1]) + (if IsClassSelector(last) then [SelectorName(last)] else [])
  }

  /** Every selector lands in exactly one of the two pattern lists, under its name. */
  lemma {:induction false} PatternsPartitionNames(sels: seq<string>)
    ensures multiset(TagNames(sels)) + multiset(ClassNames(sels)) == multiset(Names(sels))
    decreases |sels|
  {
    if sels != [] {
      var init := sels[..|sels| - 1];
      var last := sels[|sels| - 1];
      PatternsPartitionNames(init);
      assert Names(sels) == Names(init) + [SelectorName(last)];
      assert multiset(Names(sels)) == multiset(Names(init)) + multiset{SelectorName(last)};
      if IsClassSelector(last) {
        assert ClassNames(sels) == ClassNames(init) + [SelectorName(last)];
        assert TagNames(sels) == TagNames(init) + [];
      } else {
        assert TagNames(sels) == TagNames(init) + [SelectorName(last)];
        assert ClassNames(sels) == ClassNames(init) + [];
      }
    }
  }

  // ---------------------------------------------------------------------
  // The level table

  /** A PHP array from names to levels, in insertion order. */
  datatype LevelMap = LevelMap(keys: seq<string>, vals: seq<int>)

  predicate Valid(m: LevelMap)
  {
    |m.keys| == |m.vals| &&
    forall i, j :: 0 <= i < j < |m.keys| ==> m.keys[i] != m.keys[j]
  }

  function IndexOf(keys: seq<string>, k: string): (i: nat)
    requires k in keys
    ensures i < |keys| && keys[i] == k
    ensures forall j :: 0 <= j < i ==> keys[j] != k
  {
    if keys[0] == k then 0 else 1 + IndexOf(keys[1..], k)
  }

  /** `$tags_levels[$key] ?? 0`: the stored level of a listed key, 0 for any other key. */
  function Lookup(m: LevelMap, k: string): int
    requires Valid(m)
  {
    if k in m.keys then m.vals[IndexOf(m.keys, k)] else 0
  }

  /** A key that is not in the map reads as level 0; a key at index i reads its level vals[i]. */
  lemma LookupSpec(m: LevelMap, k: string)
    requires Valid(m)
    ensures k !in m.keys ==> Lookup(m, k) == 0
    ensures forall i :: 0 <= i < |m.keys| && m.keys[i] == k ==> Lookup(m, k) == m.vals[i]
  {
  }

  /**
   * array_flip on a list of names: each distinct name keeps the place of its
   * first occurrence and gets the index of its last occurrence.
   */
  function Flip(names: seq<string>): (m: LevelMap)
    ensures |m.keys| == |m.vals|
    ensures names != [] <==> m.keys != []
  {
    if names == [] then LevelMap([], [])
    else
      var m := Flip(names[..|names| - 1]);
      var x := names[|names| - 1];
      if x in m.keys then LevelMap(m.keys, m.vals[IndexOf(m.keys, x) := |names| - 1])
      else LevelMap(m.keys + [x], m.vals + [|names| - 1])
  }

  /** The keys of the flipped array are the distinct names, the first name first. */
  lemma {:induction false} FlipKeys(names: seq<string>)
    ensures Valid(Flip(names))
    ensures forall i :: 0 <= i < |names| ==> names[i] in Flip(names).keys
    ensures forall i :: 0 <= i < |Flip(names).keys| ==> Flip(names).keys[i] in names
    ensures names != [] ==> Flip(names).keys[0] == names[0]
    decreases |names|
  {
    if names != [] {
      var init := names[..|names| - 1];
      var x := names[|names| - 1];
      FlipKeys(init);
      var m := Flip(init);
      var r := Flip(names);
      forall i | 0 <= i < |names| ensures names[i] in r.keys {
        if i < |init| {
          assert names[i] == init[i];
        }
      }
      if x !in m.keys {
        assert r.keys == m.keys + [x];
      }
    }
  }

  /** `p` is the index of the last occurrence of `k` in `names`. */
  predicate LastAt(names: seq<string>, k: string, p: int)
  {
    0 <= p < |names| && names[p] == k && forall j :: p < j < |names| ==> names[j] != k
  }

  lemma LastAtExtend(names: seq<string>, k: string, p: int, x: string)
    requires LastAt(names, k, p) && x != k
    ensures LastAt(names + [x], k, p)
  {
    forall j | p < j < |names| + 1 ensures (names + [x])[j] != k {
      if j < |names| {
        assert (names + [x])[j] == names[j];
      }
    }
  }

  /** Each key's value in the flipped array is the index of its last occurrence. */
  lemma {:induction false} FlipVals(names: seq<string>)
    ensures forall i :: 0 <= i < |Flip(names).keys| ==> LastAt(names, Flip(names).keys[i], Flip(names).vals[i])
    decreases |names|
  {
    if names != [] {
      var init := names[..|names| - 1];
      var x := names[|names| - 1];
      assert names == init + [x];
      FlipVals(init);
      FlipKeys(init);
      var m := Flip(init);
      var r := Flip(names);
      if x in m.keys {
        var k := IndexOf(m.keys, x);
        assert r == LevelMap(m.keys, m.vals[k := |names| - 1]);
        forall i | 0 <= i < |r.keys| ensures LastAt(names, r.keys[i], r.vals[i]) {
          if i != k {
            LastAtExtend(init, m.keys[i], m.vals[i], x);
          }
        }
      } else {
        assert r == LevelMap(m.keys + [x], m.vals + [|names| - 1]);
        forall i | 0 <= i < |r.keys| ensures LastAt(names, r.keys[i], r.vals[i]) {
          if i < |m.keys| {
            assert r.keys[i] == m.keys[i] && r.vals[i] == m.vals[i];
            LastAtExtend(init, m.keys[i], m.vals[i], x);
          }
        }
      }
    }
  }

  lemma FlipSpec(names: seq<string>)
    ensures Valid(Flip(names))
    ensures names != [] ==> Flip(names).keys[0] == names[0]
    ensures forall i :: 0 <= i < |Flip(names).keys| ==> LastAt(names, Flip(names).keys[i], Flip(names).vals[i])
  {
    FlipKeys(names);
    FlipVals(names);
  }

  /** Without repeated names, array_flip gives every name its own position. */
  lemma {:induction false} FlipDistinct(names: seq<string>)
    requires forall i, j :: 0 <= i < j < |names| ==> names[i] != names[j]
    ensures Flip(names).keys == names
    ensures forall i :: 0 <= i < |names| ==> Flip(names).vals[i] == i
    decreases |names|
  {
    if names != [] {
      var init := names[..|names| - 1];
      var x := names[|names| - 1];
      FlipDistinct(init);
      assert x !in init;
      assert Flip(names) == LevelMap(init + [x], Flip(init).vals + [|names| - 1]);
      assert init + [x] == names;
    }
  }

  /** The while loop of the fix-up: every level is lowered until the first one is 0. */
  function Shift(vals: seq<int>): (r: seq<int>)
    requires |vals| > 0
  {
    seq(|vals|, i requires 0 <= i < |vals| => vals[i] - vals[0])
  }

  /** The key at `i` follows a truthy key and "prev|key" occurs in the original parameter string. */
  predicate GroupedWithPrevious(keys: seq<string>, params: string, i: int)
    requires 0 < i < |keys|
  {
    Truthy(keys[i - 1]) && Contains(params, keys[i - 1] + "|" + keys[i])
  }

  /** The `tag1|tag2` pass: a grouped key takes its predecessor's level from before the pass. */
  function Group(keys: seq<string>, vals: seq<int>, params: string): (r: seq<int>)
    requires |keys| == |vals|
  {
    seq(|vals|, i requires 0 <= i < |vals| =>
      if i > 0 && GroupedWithPrevious(keys, params, i) then vals[i - 1] else vals[i])
  }

  /** One step of the clamping pass: a level is kept when it equals `prev` or `prev + 1`. */
  function Step(prev: int, v: int): (r: int)
    ensures r == prev || r == prev + 1
    ensures (v == prev || v == prev + 1) <==> r == v
  {
    if v == prev || v == prev + 1 then v else prev + 1
  }

  function Last0(c: seq<int>): int
  {
    if c == [] then 0 else c[|c| - 1]
  }

  /** The level the clamping pass compares entry `i` with: the clamped level before it, 0 for the first. */
  function PrevLevel(c: seq<int>, i: nat): int
    requires i <= |c|
  {
    if i == 0 then 0 else c[i - 1]
  }

  /** The clamping pass, with the previous level starting at 0. */
  function Clamp(vals: seq<int>): (r: seq<int>)
    ensures |r| == |vals|
  {
    if vals == [] then []
    else
      var c := Clamp(vals[..|vals| - 1]);
      c + [Step(Last0(c), vals[|vals| - 1])]
  }

  /** Every clamped level is one step from the clamped level before it (from 0 for the first). */
  lemma {:induction false} ClampSteps(vals: seq<int>)
    ensures forall i :: 0 <= i < |vals| ==> Clamp(vals)[i] == Step(PrevLevel(Clamp(vals), i), vals[i])
    decreases |vals|
  {
    if vals != [] {
      var init := vals[..|vals| - 1];
      ClampSteps(init);
      var c := Clamp(init);
      var r := Clamp(vals);
      assert r == c + [Step(Last0(c), vals[|vals| - 1])];
      forall i | 0 <= i < |vals|
        ensures r[i] == Step(PrevLevel(r, i), vals[i])
      {
        if i < |init| {
          assert r[i] == c[i];
          assert vals[i] == init[i];
          assert PrevLevel(r, i) == PrevLevel(c, i);
        } else {
          assert Last0(c) == PrevLevel(r, i);
        }
      }
    }
  }

  /** A list whose levels already start at 0 or 1 and climb by at most one is left as it is. */
  lemma {:induction false} ClampKeepsSteps(vals: seq<int>)
    requires forall i :: 0 <= i < |vals| ==> vals[i] == PrevLevel(vals, i) || vals[i] == PrevLevel(vals, i) + 1
    ensures Clamp(vals) == vals
    decreases |vals|
  {
    if vals != [] {
      var init := vals[..|vals| - 1];
      StepsInit(vals);
      ClampKeepsSteps(init);
      assert vals == init + [vals[|vals| - 1]];
    }
  }

  /** Dropping the last level keeps the one-step property, and the last level steps from the new end. */
  lemma StepsInit(vals: seq<int>)
    requires vals != []
    requires forall i :: 0 <= i < |vals| ==> vals[i] == PrevLevel(vals, i) || vals[i] == PrevLevel(vals, i) + 1
    ensures var init := vals[..|vals| - 1];
      (forall i :: 0 <= i < |init| ==> init[i] == PrevLevel(init, i) || init[i] == PrevLevel(init, i) + 1) &&
      Step(Last0(init), vals[|vals| - 1]) == vals[|vals| - 1]
  {
    var init := vals[..|vals| - 1];
    forall i | 0 <= i < |init|
      ensures init[i] == PrevLevel(init, i) || init[i] == PrevLevel(init, i) + 1
    {
      assert init[i] == vals[i];
      assert PrevLevel(init, i) == PrevLevel(vals, i);
    }
    assert Last0(init) == PrevLevel(vals, |vals| - 1);
  }

  /** Clamping twice is clamping once. */
  lemma ClampIdempotent(vals: seq<int>)
    ensures Clamp(Clamp(vals)) == Clamp(vals)
  {
    ClampSteps(vals);
    var c := Clamp(vals);
    forall i | 0 <= i < |c|
      ensures c[i] == PrevLevel(c, i) || c[i] == PrevLevel(c, i) + 1
    {
      assert c[i] == Step(PrevLevel(c, i), vals[i]);
    }
    ClampKeepsSteps(c);
  }

  /** The level table of 4.3.13: flip, shift to 0, group, clamp. */
  function Resolve(sels: seq<string>, params: string): (m: LevelMap)
    requires |sels| > 0
  {
    var f := Flip(Names(sels));
    LevelMap(f.keys, Clamp(Group(f.keys, Shift(f.vals), params)))
  }

  /**
   * The levels start at 0, are never negative, and each next key is at the
   * level of the one before it or one deeper.
   */
  lemma ResolveShape(sels: seq<string>, params: string)
    requires |sels| > 0
    ensures Valid(Resolve(sels, params))
    ensures Resolve(sels, params).keys == Flip(Names(sels)).keys
    ensures Resolve(sels, params).vals[0] == 0
    ensures forall i :: 0 <= i < |Resolve(sels, params).vals| ==> Resolve(sels, params).vals[i] >= 0
    ensures forall i :: 0 < i < |Resolve(sels, params).vals| ==>
      var v := Resolve(sels, params).vals;
      v[i] == v[i - 1] || v[i] == v[i - 1] + 1
  {
    FlipSpec(Names(sels));
    var f := Flip(Names(sels));
    var g := Group(f.keys, Shift(f.vals), params);
    ClampSteps(g);
    var c := Clamp(g);
    assert g[0] == 0;
    assert c[0] == Step(PrevLevel(c, 0), g[0]);
    forall i | 0 < i < |c| ensures c[i] == c[i - 1] || c[i] == c[i - 1] + 1 {
      assert c[i] == Step(PrevLevel(c, i), g[i]);
    }
    forall i | 0 <= i < |c| ensures c[i] >= 0 {
      NonNegative(c, i);
    }
  }

  lemma {:induction false} NonNegative(c: seq<int>, i: nat)
    requires i < |c| && c[0] >= 0
    requires forall j :: 0 < j < |c| ==> c[j] == c[j - 1] || c[j] == c[j - 1] + 1
    ensures c[i] >= 0
  {
    if i > 0 {
      NonNegative(c, i - 1);
    }
  }

  /**
   * A grouped key is clamped from its predecessor's level before grouping,
   * not after: its final level is one step from the predecessor's final level
   * towards the predecessor's shifted level.
   */
  lemma ResolveGrouped(sels: seq<string>, params: string, i: nat)
    requires |sels| > 0
    requires 0 < i < |Flip(Names(sels)).keys|
    requires GroupedWithPrevious(Flip(Names(sels)).keys, params, i)
    ensures var f := Flip(Names(sels)); var v := Resolve(sels, params).vals;
      v[i] == Step(v[i - 1], Shift(f.vals)[i - 1])
  {
    var f := Flip(Names(sels));
    GroupedStep(f.keys, Shift(f.vals), params, i);
  }

  lemma GroupedStep(keys: seq<string>, vals: seq<int>, params: string, i: nat)
    requires |keys| == |vals| && 0 < i < |keys|
    requires GroupedWithPrevious(keys, params, i)
    ensures Clamp(Group(keys, vals, params))[i] == Step(Clamp(Group(keys, vals, params))[i - 1], vals[i - 1])
  {
    var g := Group(keys, vals, params);
    assert g[i] == vals[i - 1];
    ClampSteps(g);
    var c := Clamp(g);
    assert c[i] == Step(PrevLevel(c, i), g[i]);
  }

  /** When a group's first key keeps its shifted level, the next key of the group ends on the same level. */
  lemma ResolveGroupedSameLevel(sels: seq<string>, params: string, i: nat)
    requires |sels| > 0
    requires 0 < i < |Flip(Names(sels)).keys|
    requires GroupedWithPrevious(Flip(Names(sels)).keys, params, i)
    requires Resolve(sels, params).vals[i - 1] == Shift(Flip(Names(sels)).vals)[i - 1]
    ensures Resolve(sels, params).vals[i] == Resolve(sels, params).vals[i - 1]
  {
    ResolveGrouped(sels, params, i);
  }

  lemma PlainNames(sels: seq<string>)
    requires forall i :: 0 <= i < |sels| ==> !IsClassSelector(sels[i])
    ensures Names(sels) == sels
  {
  }

  /**
   * A chain "a|b|c" of three tags: b joins a, but c joins b's level from
   * before grouping, so the levels are 0, 0, 1 rather than 0, 0, 0.
   */
  lemma ChainedGroup(a: string, b: string, c: string, params: string)
    requires a != b && b != c && a != c
    requires !IsClassSelector(a) && !IsClassSelector(b) && !IsClassSelector(c)
    requires Truthy(a) && Truthy(b)
    requires Contains(params, a + "|" + b) && Contains(params, b + "|" + c)
    ensures Resolve([a, b, c], params).vals == [0, 0, 1]
  {
    PlainNames([a, b, c]);
    FlipThree(a, b, c);
    assert Shift([0, 1, 2]) == [0, 1, 2];
    assert Group([a, b, c], [0, 1, 2], params) == [0, 0, 1];
    ClampKeepsSteps([0, 0, 1]);
  }

  lemma FlipThree(a: string, b: string, c: string)
    requires a != b && b != c && a != c
    ensures Flip([a, b, c]) == LevelMap([a, b, c], [0, 1, 2])
  {
    FlipDistinct([a, b, c]);
  }

  lemma FlipFour(a: string, b: string, c: string, d: string)
    requires a != b && a != c && a != d && b != c && b != d && c != d
    ensures Flip([a, b, c, d]) == LevelMap([a, b, c, d], [0, 1, 2, 3])
  {
    FlipDistinct([a, b, c, d]);
  }

  /**
   * "a b|c d": c joins b, and d, three places after a, is clamped to one
   * below them, giving 0, 1, 1, 2.
   */
  lemma SplitGroup(a: string, b: string, c: string, d: string, params: string)
    requires a != b && a != c && a != d && b != c && b != d && c != d
    requires !IsClassSelector(a) && !IsClassSelector(b) && !IsClassSelector(c) && !IsClassSelector(d)
    requires Truthy(b)
    requires !Contains(params, a + "|" + b) && Contains(params, b + "|" + c) && !Contains(params, c + "|" + d)
    ensures Resolve([a, b, c, d], params).vals == [0, 1, 1, 2]
  {
    PlainNames([a, b, c, d]);
    FlipFour(a, b, c, d);
    assert Shift([0, 1, 2, 3]) == [0, 1, 2, 3];
    assert Group([a, b, c, d], [0, 1, 2, 3], params) == [0, 1, 1, 3];
    ClampKeepsSteps([0, 1, 1]);
    assert [0, 1, 1, 3][..3] == [0, 1, 1];
  }

  lemma ChainedParams()
    ensures Contains("h2|h3|h4", "h2|h3") && Contains("h2|h3|h4", "h3|h4")
  {
    OccursAtContains("h2|h3|h4", "h2|h3", 0);
    OccursAtContains("h2|h3|h4", "h3|h4", 3);
  }

  /** "h2|h3|h4" gives 0, 0, 1. */
  lemma ChainedGroupExample()
    ensures Resolve(["h2", "h3", "h4"], "h2|h3|h4").vals == [0, 0, 1]
  {
    ChainedParams();
    ChainedGroup("h2", "h3", "h4", "h2|h3|h4");
  }

  lemma SplitParams()
    ensures Contains("h2 h3|h4 h5", "h3|h4")
    ensures !Contains("h2 h3|h4 h5", "h2|h3") && !Contains("h2 h3|h4 h5", "h4|h5")
  {
    OccursAtContains("h2 h3|h4 h5", "h3|h4", 3);
    SplitNoFirstPair();
    SplitNoLastPair();
  }

  lemma SplitNoFirstPair()
    ensures !Contains("h2 h3|h4 h5", "h2|h3")
  {
    NotContains("h2 h3|h4 h5", "h2|h3", '|');
  }

  lemma SplitNoLastPair()
    ensures !Contains("h2 h3|h4 h5", "h4|h5")
  {
    NotContains("h2 h3|h4 h5", "h4|h5", '|');
  }

  /** "h2 h3|h4 h5" gives 0, 1, 1, 2. */
  lemma SplitGroupExample()
    ensures Resolve(["h2", "h3", "h4", "h5"], "h2 h3|h4 h5").vals == [0, 1, 1, 2]
  {
    SplitParams();
    assert "h2" + "|" + "h3" == "h2|h3";
    assert "h3" + "|" + "h4" == "h3|h4";
    assert "h4" + "|" + "h5" == "h4|h5";
    SplitGroup("h2", "h3", "h4", "h5", "h2 h3|h4 h5");
  }

  /** A needle whose third character is `c` cannot occur where `c` never follows the needle's first two characters. */
  lemma NotContains(hay: string, needle: string, c: char)
    requires |needle| >= 3 && needle[2] == c
    requires forall i :: 0 <= i < |hay| - 2 && hay[i] == needle[0] && hay[i + 1] == needle[1] ==> hay[i + 2] != c
    ensures !Contains(hay, needle)
  {
    forall j: nat ensures !OccursAt(hay, needle, j) {
      if j + |needle| <= |hay| {
        var w := hay[j..j + |needle|];
        assert w[0] == hay[j] && w[1] == hay[j + 1] && w[2] == hay[j + 2];
      }
    }
  }

  // ---------------------------------------------------------------------
  // The imperative resolver

  /**
   * _set_tags_levels_and_regex_patt: the name loop, array_flip, the shift
   * loop, the grouping loop over a snapshot and the clamping loop with its
   * by-reference update.
   */
  method SetTagsLevelsAndRegexPatt(sels: seq<string>, params: string)
    returns (levels: LevelMap, tagPatt: seq<string>, classPatt: seq<string>)
    requires |sels| > 0
    ensures levels == Resolve(sels, params)
    ensures tagPatt == TagNames(sels) && classPatt == ClassNames(sels)
  {
    tagPatt, classPatt := [], [];
    var names: seq<string> := [];
    for i := 0 to |sels|
      invariant names == Names(sels)[..i]
      invariant tagPatt == TagNames(sels[..i]) && classPatt == ClassNames(sels[..i])
    {
      assert sels[..i + 1][..i] == sels[..i];
      var name := SelectorName(sels[i]);
      if IsClassSelector(sels[i]) {
        classPatt := classPatt + [name];
      } else {
        tagPatt := tagPatt + [name];
      }
      names := names + [name];
    }
    assert sels[..|sels|] == sels;
    assert names == Names(sels);

    var flipped := Flip(names);
    var keys := flipped.keys;
    FlipSpec(names);

    var vals := ShiftLevels(flipped.vals);
    vals := GroupLevels(keys, vals, params);
    vals := ClampLevels(vals);
    levels := LevelMap(keys, vals);
  }

  /** The shift loop: lower every level by one while the first is not 0. */
  method ShiftLevels(flipped: seq<int>) returns (vals: seq<int>)
    requires |flipped| > 0 && flipped[0] >= 0
    ensures vals == Shift(flipped)
  {
    vals := flipped;
    while vals[0] != 0
      invariant |vals| == |flipped| && vals[0] >= 0
      invariant forall j :: 0 <= j < |vals| ==> vals[j] == flipped[j] - (flipped[0] - vals[0])
      decreases vals[0]
    {
      vals := seq(|vals|, j requires 0 <= j < |vals| => vals[j] - 1);
    }
  }

  /** The grouping loop: it reads the levels from a snapshot and writes the table. */
  method GroupLevels(keys: seq<string>, snap: seq<int>, params: string) returns (vals: seq<int>)
    requires |keys| == |snap|
    ensures vals == Group(keys, snap, params)
  {
    vals := snap;
    var prevTag := "";
    var prevLvl := 0;
    for i := 0 to |keys|
      invariant |vals| == |snap|
      invariant i == 0 ==> prevTag == ""
      invariant i > 0 ==> prevTag == keys[i - 1] && prevLvl == snap[i - 1]
      invariant forall j :: 0 <= j < i ==> vals[j] == Group(keys, snap, params)[j]
      invariant forall j :: i <= j < |snap| ==> vals[j] == snap[j]
    {
      if Truthy(prevTag) && Contains(params, prevTag + "|" + keys[i]) {
        vals := vals[i := prevLvl];
      }
      prevTag := keys[i];
      prevLvl := snap[i];
    }
  }

  /** The clamping loop with its by-reference update of each level. */
  method ClampLevels(grouped: seq<int>) returns (vals: seq<int>)
    ensures vals == Clamp(grouped)
  {
    vals := grouped;
    var prev := 0;
    for i := 0 to |grouped|
      invariant |vals| == |grouped|
      invariant vals[..i] == Clamp(grouped[..i]) && vals[i..] == grouped[i..]
      invariant prev == Last0(vals[..i])
    {
      assert grouped[..i + 1][..i] == grouped[..i];
      assert vals[i] == grouped[i];
      if vals[i] != prev && vals[i] != prev + 1 {
        vals := vals[i := prev + 1];
      }
      prev := vals[i];
      assert vals[..i + 1] == vals[..i] + [vals[i]];
    }
    assert vals == vals[..|grouped|];
    assert grouped == grouped[..|grouped|];
  }

  // ---------------------------------------------------------------------
  // 3.17

  /** The level table of 3.17: array_flip only, so a name's level is the index of its last occurrence. */
  function LegacyLevels(sels: seq<string>): (m: LevelMap)
    ensures Valid(m)
    ensures forall k :: k in m.keys <==> k in Names(sels)
    ensures forall i :: 0 <= i < |m.keys| ==> LastAt(Names(sels), m.keys[i], m.vals[i])
  {
    FlipKeys(Names(sels));
    FlipSpec(Names(sels));
    Flip(Names(sels))
  }

  lemma LegacyNamesExample()
    ensures Names(["h3", "h2", ".foo"]) == ["h3", "h2", "foo"]
  {
    assert SelectorName(".foo") == "foo";
  }

  /** In 3.17 the levels are plain positions: "h2|h3 h4"-style grouping and the clamp do not exist. */
  lemma LegacyLevelsExample()
    ensures LegacyLevels(["h3", "h2", ".foo"]).keys == ["h3", "h2", "foo"]
    ensures LegacyLevels(["h3", "h2", ".foo"]).vals == [0, 1, 2]
  {
    LegacyNamesExample();
    var names := ["h3", "h2", "foo"];
    FlipDistinct(names);
  }
}
