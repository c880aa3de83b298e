// Selector parameters: the parameter string of make_contents, the marker
// words in it, the default selectors and the filter that drops selectors absent
// from the content (Kama_Contents.php:204-268; class-Kama_Contents.php:120-166).

module Selectors {
  import opened Php
  import opened Levels

  // ---------------------------------------------------------------------
  // Filtering a list

  /** The elements of `s` that satisfy `p`, in order (array_filter, or a loop of unset). */
  function Filter<T>(p: T -> bool, s: seq<T>): seq<T>
  {
    if s == [] then [] else Filter(p, s[..|s| - 1]) + (if p(s[|s| - 1]) then [s[|s| - 1]] else [])
  }

  /** `a` is `b` with some elements taken out, the rest in the same order. */
  predicate IsSubsequence<T(==)>(a: seq<T>, b: seq<T>)
    decreases |b|
  {
    if a == [] then true
    else if b == [] then false
    else if a[|a| - 1] == b[|b| - 1] then IsSubsequence(a[..|a| - 1], b[..|b| - 1])
    else IsSubsequence(a, b[..|b| - 1])
  }

  lemma {:induction false} EmptySubsequence<T>(b: seq<T>)
    ensures IsSubsequence([], b)
  {
  }

  /** The elements the filter keeps are exactly those satisfying `p`. */
  lemma FilterMembers<T>(p: T -> bool, s: seq<T>)
    ensures forall x :: x in Filter(p, s) <==> x in s && p(x)
  {
    FilterSpec(p, s);
  }

  /**
   * The filter keeps the order of what it keeps, keeps exactly the elements
   * satisfying `p`, and keeps each of them as often as it occurs.
   */
  lemma {:induction false} FilterSpec<T>(p: T -> bool, s: seq<T>)
    ensures IsSubsequence(Filter(p, s), s)
    ensures forall x :: x in Filter(p, s) <==> x in s && p(x)
    ensures forall x :: multiset(Filter(p, s))[x] == if p(x) then multiset(s)[x] else 0
    decreases |s|
  {
    if s != [] {
      var init := s[..|s| - 1];
      var x := s[|s| - 1];
      FilterSpec(p, init);
      assert s == init + [x];
      assert multiset(s) == multiset(init) + multiset{x};
      if p(x) {
        assert Filter(p, s) == Filter(p, init) + [x];
        assert Filter(p, s)[..|Filter(p, s)| - 1] == Filter(p, init);
      } else {
        assert Filter(p, s) == Filter(p, init);
        KeepsSubsequence(Filter(p, init), init, x);
      }
    }
  }

  /** Appending to the longer sequence keeps a subsequence one. */
  lemma {:induction false} KeepsSubsequence<T>(a: seq<T>, b: seq<T>, x: T)
    requires IsSubsequence(a, b)
    ensures IsSubsequence(a, b + [x])
    decreases |b|, 1
  {
    var b' := b + [x];
    assert b'[..|b'| - 1] == b;
    if a != [] && a[|a| - 1] == x {
      SubsequenceDropLast(a, b);
    }
  }

  lemma {:induction false} SubsequenceDropLast<T>(a: seq<T>, b: seq<T>)
    requires a != [] && IsSubsequence(a, b)
    ensures IsSubsequence(a[..|a| - 1], b)
    decreases |b|, 0
  {
    var a' := a[..|a| - 1];
    var b' := b[..|b| - 1];
    assert b' + [b[|b| - 1]] == b;
    if a[|a| - 1] != b[|b| - 1] {
      SubsequenceDropLast(a, b');
    }
    KeepsSubsequence(a', b', b[|b| - 1]);
  }

  // ---------------------------------------------------------------------
  // as_table="…"

  const AsTableOpen: string := "as_table=\""

  /** A match of /(as_table)="([^"]+)"/: the whole match and the value between the quotes. */
  datatype AsTableMatch = AsTableMatch(whole: string, value: string)

  /**
   * The match attempt at position `p`: `as_table="`, then the longest run of
   * non-quote characters, which must be non-empty and followed by a quote.
   */
  function AsTableAt(s: string, p: nat): (r: Option<AsTableMatch>)
    ensures r.Some? ==>
      r.value.whole == AsTableOpen + r.value.value + "\"" && OccursAt(s, r.value.whole, p) &&
      r.value.value != [] && forall i :: 0 <= i < |r.value.value| ==> r.value.value[i] != '"'
  {
    if OccursAt(s, AsTableOpen, p) then
      match FindFrom(s, "\"", p + 10)
      case Some(q) =>
        if q > p + 10 then
          AsTableMatchShape(s, p, q);
          Some(AsTableMatch(s[p..q + 1], s[p + 10..q]))
        else None
      case None => None
    else None
  }

  /** The text from an `as_table="` at `p` to the first quote `q` after it is the opening, a quote-free value and the quote. */
  lemma AsTableMatchShape(s: string, p: nat, q: nat)
    requires OccursAt(s, AsTableOpen, p) && p + 10 < q && OccursAt(s, "\"", q)
    requires forall j: nat :: p + 10 <= j < q ==> !OccursAt(s, "\"", j)
    ensures s[p..q + 1] == AsTableOpen + s[p + 10..q] + "\"" && OccursAt(s, s[p..q + 1], p)
    ensures var v := s[p + 10..q]; forall i :: 0 <= i < |v| ==> v[i] != '"'
  {
    assert s[p..q + 1] == s[p..p + 10] + s[p + 10..q] + [s[q]];
    var v := s[p + 10..q];
    forall i | 0 <= i < |v| ensures v[i] != '"' {
      assert !OccursAt(s, "\"", p + 10 + i);
      assert v[i] == s[p + 10 + i];
    }
  }

  /** Any `as_table="v"` with a non-empty, quote-free `v` at `p` is what the attempt at `p` finds. */
  lemma AsTableAtFinds(s: string, p: nat, v: string)
    requires v != [] && forall i :: 0 <= i < |v| ==> v[i] != '"'
    requires OccursAt(s, AsTableOpen + v + "\"", p)
    ensures AsTableAt(s, p) == Some(AsTableMatch(AsTableOpen + v + "\"", v))
  {
    var q := p + 10 + |v|;
    AsTableLayout(s, p, v);
    OccursAtQuote(s, q);
    forall i | p + 10 <= i < q ensures !OccursAt(s, "\"", i) {
      assert s[i..i + 1][0] == s[i];
    }
    FindFirst(s, "\"", p + 10, q);
  }

  /** Where the opening, the value and the closing quote of `as_table="v"` at `p` sit. */
  lemma AsTableLayout(s: string, p: nat, v: string)
    requires v != [] && forall i :: 0 <= i < |v| ==> v[i] != '"'
    requires OccursAt(s, AsTableOpen + v + "\"", p)
    ensures var q := p + 10 + |v|;
      && q < |s| && s[p..p + 10] == AsTableOpen && s[q] == '"'
      && (forall i :: p + 10 <= i < q ==> s[i] != '"')
      && s[p + 10..q] == v && s[p..q + 1] == AsTableOpen + v + "\""
  {
    var w := AsTableOpen + v + "\"";
    var q := p + 10 + |v|;
    forall k | 0 <= k < |w| ensures s[p + k] == w[k] {
      assert s[p..p + |w|][k] == s[p + k];
    }
    assert s[p..p + 10] == AsTableOpen by {
      forall k | 0 <= k < 10 ensures s[p..p + 10][k] == AsTableOpen[k] {
        assert w[k] == AsTableOpen[k];
      }
    }
    assert s[p + 10..q] == v by {
      forall k | 0 <= k < |v| ensures s[p + 10..q][k] == v[k] {
        assert w[10 + k] == v[k];
      }
    }
    assert s[q] == w[|w| - 1];
  }

  lemma OccursAtQuote(s: string, q: nat)
    requires q < |s| && s[q] == '"'
    ensures OccursAt(s, "\"", q)
  {
    assert s[q..q + 1] == [s[q]];
  }

  /** preg_match: the leftmost position at or after `from` where the attempt succeeds. */
  function FindAsTable(s: string, from: nat): (r: Option<nat>)
    ensures r.Some? ==> from <= r.value && AsTableAt(s, r.value).Some?
    ensures r.Some? ==> forall p: nat :: from <= p < r.value ==> AsTableAt(s, p).None?
    ensures r.None? ==> forall p: nat :: from <= p ==> AsTableAt(s, p).None?
    decreases |s| - from
  {
    if from >= |s| then
      assert forall p: nat :: from <= p ==> !OccursAt(s, AsTableOpen, p);
      None
    else if AsTableAt(s, from).Some? then Some(from)
    else FindAsTable(s, from + 1)
  }

  // ---------------------------------------------------------------------
  // parse_string_params

  /** The parsed parameter string: the kept words in order, and the as_table columns when given. */
  datatype Params = Params(tokens: seq<string>, asTable: Option<seq<string>>)

  const ParamSeparators: set<char> := {' ', ',', '|'}

  function TrimAll(parts: seq<string>): (r: seq<string>)
    ensures |r| == |parts|
    ensures forall i :: 0 <= i < |parts| ==> r[i] == Trim(parts[i], TrimChars)
  {
    seq(|parts|, i requires 0 <= i < |parts| => Trim(parts[i], TrimChars))
  }

  /** Cuts the as_table match out of the parameters (str_replace of " " + match) and explodes its value on '|'. */
  function CutAsTable(params: string): (r: (string, Option<seq<string>>))
    ensures FindAsTable(params, 0).None? ==> r == (params, None)
    ensures FindAsTable(params, 0).Some? ==>
      var m := AsTableAt(params, FindAsTable(params, 0).value).value;
      r.1 == Some(Explode('|', m.value)) && Join('|', r.1.value) == m.value
    ensures FindAsTable(params, 0).Some? ==>
      r.0 == RemoveAll(params, " " + AsTableAt(params, FindAsTable(params, 0).value).value.whole)
  {
    match FindAsTable(params, 0)
    case None => (params, None)
    case Some(p) =>
      var m := AsTableAt(params, p).value;
      ExplodeJoin('|', m.value);
      (RemoveAll(params, " " + m.whole), Some(Explode('|', m.value)))
  }

  /** parse_string_params: cut as_table, split on runs of ' ', ',' and '|', trim, drop "" and "0". */
  function ParseStringParams(params: string): Params
  {
    var (rest, extra) := CutAsTable(params);
    Params(Filter(Truthy, TrimAll(SplitRuns(rest, ParamSeparators))), extra)
  }

  /** The words of one split: truthy, free of separators, and the truthy trimmed pieces in order. */
  lemma WordsShape(rest: string, seps: set<char>)
    ensures var r := Filter(Truthy, TrimAll(SplitRuns(rest, seps)));
      forall k :: 0 <= k < |r| ==> Truthy(r[k])
    ensures var r := Filter(Truthy, TrimAll(SplitRuns(rest, seps)));
      forall k, i :: 0 <= k < |r| && 0 <= i < |r[k]| ==> r[k][i] !in seps
    ensures var pieces := TrimAll(SplitRuns(rest, seps)); var r := Filter(Truthy, pieces);
      IsSubsequence(r, pieces) && forall x :: x in r <==> x in pieces && Truthy(x)
    ensures var pieces := TrimAll(SplitRuns(rest, seps)); var r := Filter(Truthy, pieces);
      forall x :: multiset(r)[x] == if Truthy(x) then multiset(pieces)[x] else 0
  {
    WordsClean(rest, seps);
    FilterSpec(Truthy, TrimAll(SplitRuns(rest, seps)));
  }

  /** The words of a split are truthy and hold no separator. */
  lemma WordsClean(rest: string, seps: set<char>)
    ensures var r := Filter(Truthy, TrimAll(SplitRuns(rest, seps)));
      forall k :: 0 <= k < |r| ==> Truthy(r[k]) && forall i :: 0 <= i < |r[k]| ==> r[k][i] !in seps
  {
    var pieces := TrimAll(SplitRuns(rest, seps));
    var tokens := Filter(Truthy, pieces);
    FilterMembers(Truthy, pieces);
    PiecesFree(rest, seps);
    forall k | 0 <= k < |tokens| ensures Truthy(tokens[k]) && forall i :: 0 <= i < |tokens[k]| ==> tokens[k][i] !in seps {
      assert tokens[k] in tokens;
    }
  }

  /** No trimmed piece of a split holds a separator. */
  lemma PiecesFree(rest: string, seps: set<char>)
    ensures forall x, i :: x in TrimAll(SplitRuns(rest, seps)) && 0 <= i < |x| ==> x[i] !in seps
  {
    var split := SplitRuns(rest, seps);
    var pieces := TrimAll(split);
    SplitRunsShape(rest, seps);
    forall x, i | x in pieces && 0 <= i < |x| ensures x[i] !in seps {
      var j :| 0 <= j < |pieces| && pieces[j] == x;
      TrimSpec(split[j], TrimChars);
      assert x[i] in split[j];
    }
  }

  /**
   * parse_string_params: every kept word is truthy and holds no ' ', ',' or
   * '|'; the kept words are the truthy trimmed pieces, in order, each as
   * often as it was written.
   */
  lemma ParseStringParamsTokens(params: string)
    ensures var r := ParseStringParams(params);
      forall k :: 0 <= k < |r.tokens| ==> Truthy(r.tokens[k])
    ensures var r := ParseStringParams(params);
      forall k, i :: 0 <= k < |r.tokens| && 0 <= i < |r.tokens[k]| ==> r.tokens[k][i] !in ParamSeparators
    ensures var r := ParseStringParams(params); var pieces := TrimAll(SplitRuns(CutAsTable(params).0, ParamSeparators));
      IsSubsequence(r.tokens, pieces) && forall x :: x in r.tokens <==> x in pieces && Truthy(x)
    ensures var r := ParseStringParams(params); var pieces := TrimAll(SplitRuns(CutAsTable(params).0, ParamSeparators));
      forall x :: multiset(r.tokens)[x] == if Truthy(x) then multiset(pieces)[x] else 0
  {
    WordsShape(CutAsTable(params).0, ParamSeparators);
  }

  // ---------------------------------------------------------------------
  // Markers and defaults

  /** The default selectors are either a list or a space-separated string. */
  datatype SelectorsOpt = SelectorList(list: seq<string>) | SelectorText(text: string)

  /** 4.3.13: the default `selectors` as a list; a string is exploded on single spaces. */
  function DefaultSelectors(sel: SelectorsOpt): seq<string>
  {
    match sel
    case SelectorList(list) => list
    case SelectorText(text) => Explode(' ', text)
  }

  predicate IsMarker(t: string)
  {
    t == "embed" || t == "no_to_menu"
  }

  /** The selector words of the parameters: everything but the marker words. */
  function SelectorWords(tokens: seq<string>): seq<string>
  {
    Filter(t => !IsMarker(t), tokens)
  }

  // ---------------------------------------------------------------------
  // The occurrence test of get_actual_tags

  const ClassAttr: string := "class="

  /** class=['"][^'"]*<name> matches at `p`, with `name` starting at `q`. */
  predicate ClassAttrAt(lc: string, name: string, p: int, q: int)
  {
    0 <= p && p + 7 <= q <= |lc| && OccursAt(lc, ClassAttr, p) && (lc[p + 6] == '\'' || lc[p + 6] == '"') &&
    (forall j :: p + 7 <= j < q ==> lc[j] != '\'' && lc[j] != '"') && OccursAt(lc, name, q)
  }

  /**
   * preg_match("/$patt/i", $content) for one selector. The pattern is
   * "<tag", or the class-attribute prefix before a class name; '|' in the
   * selector splits the pattern into alternatives at the top level, so only
   * the first alternative carries the prefix. Matching ignores ASCII case.
   * A '/' in the selector ends the pattern early: preg_match fails, returns
   * false, and the selector counts as absent.
   */
  predicate SelectorOccurs(sel: string, content: string)
  {
    '/' !in sel &&
    var alts := Explode('|', SelectorName(sel));
    var lc := Lower(content);
    (if IsClassSelector(sel)
     then exists p, q :: 0 <= p < q <= |lc| && ClassAttrAt(lc, Lower(alts[0]), p, q)
     else Contains(lc, "<" + Lower(alts[0]))) ||
    exists k :: 1 <= k < |alts| && Contains(lc, Lower(alts[k]))
  }

  function OccursIn(content: string): string -> bool
  {
    sel => SelectorOccurs(sel, content)
  }

  /** A plain tag occurs exactly when "<tag" occurs in the content, ignoring ASCII case. */
  lemma TagOccurs(sel: string, content: string)
    requires !IsClassSelector(sel) && forall i :: 0 <= i < |sel| ==> sel[i] != '|'
    ensures SelectorOccurs(sel, content) <==> '/' !in sel && Contains(Lower(content), "<" + Lower(sel))
  {
    ExplodeNoSeparator('|', sel);
  }

  lemma ExplodeNoSeparator(sep: char, s: string)
    requires forall i :: 0 <= i < |s| ==> s[i] != sep
    ensures Explode(sep, s) == [s]
  {
    ExplodeJoin(sep, s);
    var r := Explode(sep, s);
    if |r| > 1 {
      JoinHasSeparator(sep, r);
      assert false;
    }
  }

  lemma {:induction false} JoinHasSeparator(sep: char, parts: seq<string>)
    requires |parts| > 1
    ensures sep in Join(sep, parts)
    decreases |parts|
  {
    var init := parts[..|parts| - 1];
    JoinSnoc(sep, init, parts[|parts| - 1]);
    assert Join(sep, parts) == Join(sep, init) + [sep] + parts[|parts| - 1];
    assert Join(sep, parts)[|Join(sep, init)|] == sep;
  }

  /**
   * get_actual_tags: the loop that drops every selector whose pattern does
   * not occur in the content.
   */
  method GetActualTags(tags: seq<string>, content: string) returns (kept: seq<string>)
    ensures kept == Filter(OccursIn(content), tags)
  {
    kept := [];
    for i := 0 to |tags|
      invariant kept == Filter(OccursIn(content), tags[..i])
    {
      assert tags[..i + 1][..i] == tags[..i];
      if SelectorOccurs(tags[i], content) {
        kept := kept + [tags[i]];
      }
    }
    assert tags[..|tags|] == tags;
  }

  /**
   * get_actual_tags only removes entries: the rest keep their order, exactly
   * the occurring ones stay, and a repeated one stays as often as it is listed.
   */
  lemma ActualTagsSpec(tags: seq<string>, content: string)
    ensures IsSubsequence(Filter(OccursIn(content), tags), tags)
    ensures forall t :: t in Filter(OccursIn(content), tags) <==> t in tags && SelectorOccurs(t, content)
    ensures forall t :: multiset(Filter(OccursIn(content), tags))[t] ==
              if SelectorOccurs(t, content) then multiset(tags)[t] else 0
  {
    FilterSpec(OccursIn(content), tags);
  }

  // ---------------------------------------------------------------------
  // 3.17

  const LegacySeparators: set<char> := {' ', ','}

  /**
   * The string branch of the 3.17 argument handling: cut as_table, split
   * on runs of ' ' and ',' only (so "h2|h3" stays one word), trim, and the
   * array_filter that follows.
   */
  function LegacyParseText(text: string): Params
  {
    var (rest, extra) := CutAsTable(text);
    Params(Filter(Truthy, TrimAll(SplitRuns(rest, LegacySeparators))), extra)
  }

  /** The arguments of the 3.17 make_contents: an array is only filtered. */
  function LegacyParams(tags: SelectorsOpt): Params
  {
    match tags
    case SelectorList(list) => Params(Filter(Truthy, list), None)
    case SelectorText(text) => LegacyParseText(text)
  }

  /** `! $tags`: an empty array, an empty string or "0". */
  predicate Falsy(tags: SelectorsOpt)
  {
    match tags
    case SelectorList(list) => list == []
    case SelectorText(text) => !Truthy(text)
  }

  /** The 3.17 split: truthy words free of ' ' and ',' (a '|' stays inside its word). */
  lemma LegacyKeepsPipes(text: string)
    ensures forall k, i :: 0 <= k < |LegacyParseText(text).tokens| && 0 <= i < |LegacyParseText(text).tokens[k]| ==>
      LegacyParseText(text).tokens[k][i] !in LegacySeparators
    ensures forall x :: x in LegacyParseText(text).tokens ==> Truthy(x)
  {
    WordsShape(CutAsTable(text).0, LegacySeparators);
  }
}
