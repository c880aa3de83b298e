// One heading match and its rewrite: the capture groups of a match, the
// splice of replacements into the content, the anchor attribute regex, the
// tag scrubbing of the heading text, the rebuilt heading element and the
// "back to top" link gate (Kama_Contents.php:317-460, 610-660;
// class-Kama_Contents.php:250-364).

module Headings {
  import opened Php

  // ---------------------------------------------------------------------
  // Matches of the heading regex

  /**
   * One match of the heading regex as preg_replace_callback hands it over:
   * where it starts and its capture groups, group 0 being the whole match.
   * PCRE drops unset trailing groups, so a tag match has 4 groups, a match of
   * a class-only pattern 5, and a class match of the combined pattern 8.
   */
  datatype RegexMatch = RegexMatch(start: nat, groups: seq<string>)

  /** A capture group; a missing one reads as null, which is "" in string context. */
  function Capture(m: RegexMatch, i: nat): string
  {
    if i < |m.groups| then m.groups[i] else ""
  }

  function FullMatch(m: RegexMatch): string
  {
    Capture(m, 0)
  }

  function End(m: RegexMatch): nat
  {
    m.start + |FullMatch(m)|
  }

  /** The five parts _replace_parse_match takes out of a match. */
  datatype Parsed = Parsed(fullMatch: string, tag: string, attrs: string, levelTag: string, text: string)

  /** _replace_parse_match: 5 groups are a class-only match, 4 a tag match, otherwise groups 4..7. */
  function ParseMatch(m: RegexMatch): (p: Parsed)
    ensures p.fullMatch == FullMatch(m)
  {
    if |m.groups| == 5 then Parsed(Capture(m, 0), Capture(m, 1), Capture(m, 2), Capture(m, 3), Capture(m, 4))
    else if |m.groups| == 4 then Parsed(Capture(m, 0), Capture(m, 1), Capture(m, 2), Capture(m, 1), Capture(m, 3))
    else Parsed(Capture(m, 0), Capture(m, 4), Capture(m, 5), Capture(m, 6), Capture(m, 7))
  }

  /** Which alternative of the heading regex matched. */
  datatype MatchKind = TagMatch | ClassOnlyMatch | ClassAfterTags

  /** The capture groups the heading regex produces for a heading of each kind. */
  function GroupsOf(kind: MatchKind, p: Parsed): seq<string>
  {
    match kind
    case TagMatch => [p.fullMatch, p.tag, p.attrs, p.text]
    case ClassOnlyMatch => [p.fullMatch, p.tag, p.attrs, p.levelTag, p.text]
    case ClassAfterTags => [p.fullMatch, "", "", "", p.tag, p.attrs, p.levelTag, p.text]
  }

  /** Parsing undoes the grouping of every kind of match; a tag match is its own level key. */
  lemma ParseMatchRoundTrip(kind: MatchKind, p: Parsed, start: nat)
    requires kind == TagMatch ==> p.levelTag == p.tag
    ensures ParseMatch(RegexMatch(start, GroupsOf(kind, p))) == p
  {
  }

  /** A tag match is keyed by its tag name, a class match by the class name it matched. */
  lemma ParseMatchKey(m: RegexMatch)
    ensures |m.groups| == 4 ==> ParseMatch(m).levelTag == ParseMatch(m).tag == m.groups[1]
    ensures |m.groups| == 5 ==> ParseMatch(m).levelTag == m.groups[3] && ParseMatch(m).text == m.groups[4]
    ensures |m.groups| == 8 ==> ParseMatch(m).levelTag == m.groups[6] && ParseMatch(m).text == m.groups[7]
  {
  }

  // ---------------------------------------------------------------------
  // preg_replace_callback: the content with every match replaced

  /** s[i..j] when that is a slice, "" otherwise. */
  function Slice(s: string, i: nat, j: nat): string
  {
    if i <= j <= |s| then s[i..j] else ""
  }

  /** The matches occur in order, without overlap, from `cur` on. */
  predicate Ordered(content: string, ms: seq<RegexMatch>, cur: nat)
    decreases |ms|
  {
    ms == [] ||
    (cur <= ms[0].start && OccursAt(content, FullMatch(ms[0]), ms[0].start) && Ordered(content, ms[1..], End(ms[0])))
  }

  /** The text from `cur` on, each match replaced by its output and the gaps kept. */
  function Splice(content: string, ms: seq<RegexMatch>, outs: seq<string>, cur: nat): string
    requires |outs| == |ms|
    decreases |ms|
  {
    if ms == [] then Slice(content, cur, |content|)
    else Slice(content, cur, ms[0].start) + outs[0] + Splice(content, ms[1..], outs[1..], End(ms[0]))
  }

  function FullMatches(ms: seq<RegexMatch>): (r: seq<string>)
    ensures |r| == |ms| && forall i :: 0 <= i < |ms| ==> r[i] == FullMatch(ms[i])
  {
    seq(|ms|, i requires 0 <= i < |ms| => FullMatch(ms[i]))
  }

  /** Replacing every match by itself gives back the text: the splice keeps all the gaps. */
  lemma {:induction false} SpliceIdentity(content: string, ms: seq<RegexMatch>, cur: nat)
    requires cur <= |content| && Ordered(content, ms, cur)
    ensures Splice(content, ms, FullMatches(ms), cur) == content[cur..]
    decreases |ms|
  {
    if ms != [] {
      var m := ms[0];
      assert content[m.start..End(m)] == FullMatch(m);
      assert FullMatches(ms)[1..] == FullMatches(ms[1..]);
      SpliceIdentity(content, ms[1..], End(m));
      SliceSplit(content, cur, m.start);
      SliceSplit(content, m.start, End(m));
      AppendAssoc(content[cur..m.start], content[m.start..End(m)], content[End(m)..]);
    }
  }

  /** With no match, the content is left as it is. */
  lemma SpliceNoMatch(content: string)
    ensures Splice(content, [], [], 0) == content
  {
  }

  // ---------------------------------------------------------------------
  // The anchor attribute: / *(NAME)=(['"])(.+?)\2 */i on the attributes

  /** `name` at `i`, ignoring ASCII case (the /i flag). */
  predicate OccursAtNoCase(s: string, name: string, i: nat)
  {
    i + |name| <= |s| && Lower(s[i..i + |name|]) == Lower(name)
  }

  /** The whole match, the attribute name as written, and the value. */
  datatype AttrMatch = AttrMatch(whole: string, name: string, value: string)

  /** The length of the run of spaces at `i`. */
  function Spaces(s: string, i: nat): (n: nat)
    ensures i + n <= |s| || n == 0
    ensures forall j :: i <= j < i + n ==> s[j] == ' '
    ensures i + n < |s| ==> s[i + n] != ' '
    decreases |s| - i
  {
    if i < |s| && s[i] == ' ' then 1 + Spaces(s, i + 1) else 0
  }

  /**
   * The lazy `.+?` followed by the opening quote again: the first `j > v`
   * with s[j] == q, provided no newline comes before it (`.` stops at "\n").
   */
  function CloseQuote(s: string, v: nat, j: nat, q: char): (r: Option<nat>)
    requires v < j
    ensures r.Some? ==> j <= r.value < |s| && s[r.value] == q
    ensures r.Some? ==> forall k :: j <= k < r.value ==> s[k] != q
    ensures r.Some? ==> forall k :: j - 1 <= k < r.value ==> s[k] != '\n'
    decreases |s| - j
  {
    if j >= |s| || s[j - 1] == '\n' then None
    else if s[j] == q then Some(j)
    else CloseQuote(s, v, j + 1, q)
  }

  /** NAME=, a quote, the value and the same quote, the name starting at `c0`; then any spaces. */
  function AttrCore(s: string, name: string, p: nat, c0: nat): (r: Option<AttrMatch>)
    requires p <= c0
    ensures r.Some? ==> r.value.whole != []
  {
    var e := c0 + |name|;
    if OccursAtNoCase(s, name, c0) && e + 1 < |s| && s[e] == '=' && (s[e + 1] == '\'' || s[e + 1] == '"') then
      match CloseQuote(s, e + 2, e + 3, s[e + 1])
      case Some(j) => Some(AttrMatch(s[p..j + 1 + Spaces(s, j + 1)], s[c0..e], s[e + 2..j]))
      case None => None
    else None
  }

  /** The greedy leading ` *` gives back one space at a time until the rest matches. */
  function AttrBacktrack(s: string, name: string, p: nat, k: nat): (r: Option<AttrMatch>)
    ensures r.Some? ==> r.value.whole != []
  {
    match AttrCore(s, name, p, p + k)
    case Some(a) => Some(a)
    case None => if k == 0 then None else AttrBacktrack(s, name, p, k - 1)
  }

  /** preg_match: the leftmost start position where the pattern matches. */
  function FindAttr(s: string, name: string, p: nat): (r: Option<AttrMatch>)
    ensures r.Some? ==> r.value.whole != []
    decreases |s| - p
  {
    if p >= |s| then None
    else match AttrBacktrack(s, name, p, Spaces(s, p))
      case Some(a) => Some(a)
      case None => FindAttr(s, name, p + 1)
  }

  /** What the attribute match captures: the name up to ASCII case, and a value without a newline. */
  lemma {:induction false} FindAttrShape(s: string, name: string, p: nat)
    ensures FindAttr(s, name, p).Some? ==>
      var a := FindAttr(s, name, p).value;
      Lower(a.name) == Lower(name) && a.value != [] && forall k :: 0 <= k < |a.value| ==> a.value[k] != '\n'
    decreases |s| - p
  {
    if p < |s| {
      var b := AttrBacktrack(s, name, p, Spaces(s, p));
      if b.Some? {
        BacktrackShape(s, name, p, Spaces(s, p));
      } else {
        FindAttrShape(s, name, p + 1);
      }
    }
  }

  lemma {:induction false} BacktrackShape(s: string, name: string, p: nat, k: nat)
    ensures AttrBacktrack(s, name, p, k).Some? ==>
      var a := AttrBacktrack(s, name, p, k).value;
      Lower(a.name) == Lower(name) && a.value != [] && forall i :: 0 <= i < |a.value| ==> a.value[i] != '\n'
    decreases k
  {
    CoreShape(s, name, p, p + k);
    if AttrCore(s, name, p, p + k).None? && k > 0 {
      BacktrackShape(s, name, p, k - 1);
    }
  }

  lemma CoreShape(s: string, name: string, p: nat, c0: nat)
    requires p <= c0
    ensures AttrCore(s, name, p, c0).Some? ==>
      var a := AttrCore(s, name, p, c0).value;
      Lower(a.name) == Lower(name) && a.value != [] && forall i :: 0 <= i < |a.value| ==> a.value[i] != '\n'
  {
    var e := c0 + |name|;
    if AttrCore(s, name, p, c0).Some? {
      var a := AttrCore(s, name, p, c0).value;
      var j := CloseQuote(s, e + 2, e + 3, s[e + 1]).value;
      assert a.value == s[e + 2..j];
      assert forall i :: 0 <= i < |a.value| ==> a.value[i] == s[e + 2 + i];
    }
  }

  /** A run of spaces, as the leading ` *` of the pattern consumes it. */
  predicate Blank(pad: string)
  {
    forall i :: 0 <= i < |pad| ==> pad[i] == ' '
  }

  /**
   * An attribute written NAME="value" with a plain value, after nothing but
   * spaces, is the one found: the match runs from the start of the
   * attributes and holds those spaces. A tag-selector match captures the
   * space after the tag name, so this covers ` id="x"` as well as `id="x"`.
   */
  lemma AttrAtStart(pad: string, name: string, v: string, rest: string)
    requires Blank(pad)
    requires name != [] && name[0] != ' '
    requires v != [] && forall i :: 0 <= i < |v| ==> v[i] != '"' && v[i] != '\n'
    requires rest == [] || rest[0] != ' '
    ensures FindAttr(pad + name + "=\"" + v + "\"" + rest, name, 0) ==
      Some(AttrMatch(pad + name + "=\"" + v + "\"", name, v))
  {
    var s := pad + name + "=\"" + v + "\"" + rest;
    assert s[|pad|] == name[0];
    SpacesRun(s, 0, |pad|);
    CoreAtStart(pad, name, v, rest);
  }

  /**
   * The attributes of `<h2 id="...">` under a tag selector start with the
   * space after the tag name; the id is found with that space.
   */
  lemma TagSelectorId(v: string, rest: string)
    requires v != [] && forall i :: 0 <= i < |v| ==> v[i] != '"' && v[i] != '\n'
    requires rest == [] || rest[0] != ' '
    ensures FindAttr(" id=\"" + v + "\"" + rest, "id", 0) == Some(AttrMatch(" id=\"" + v + "\"", "id", v))
  {
    AttrAtStart(" ", "id", v, rest);
    assert " " + "id" + "=\"" == " id=\"";
  }

  /** Spaces counts a run of `n` spaces that something other than a space ends. */
  lemma {:induction false} SpacesRun(s: string, i: nat, n: nat)
    requires i + n <= |s| && forall j :: i <= j < i + n ==> s[j] == ' '
    requires i + n < |s| ==> s[i + n] != ' '
    ensures Spaces(s, i) == n
    decreases n
  {
    if n > 0 {
      SpacesRun(s, i + 1, n - 1);
    }
  }

  lemma CoreAtStart(pad: string, name: string, v: string, rest: string)
    requires Blank(pad)
    requires name != [] && v != [] && forall i :: 0 <= i < |v| ==> v[i] != '"' && v[i] != '\n'
    requires rest == [] || rest[0] != ' '
    ensures AttrCore(pad + name + "=\"" + v + "\"" + rest, name, 0, |pad|) ==
      Some(AttrMatch(pad + name + "=\"" + v + "\"", name, v))
  {
    var s := pad + name + "=\"" + v + "\"" + rest;
    var e := |pad| + |name|;
    var j := e + 2 + |v|;
    AtStartLayout(pad, name, v, rest);
    CloseQuoteFinds(s, e + 2, e + 3, j, '"');
  }

  /** Where the pieces of PAD NAME="value"rest sit. */
  lemma AtStartLayout(pad: string, name: string, v: string, rest: string)
    requires Blank(pad)
    requires forall i :: 0 <= i < |v| ==> v[i] != '"' && v[i] != '\n'
    requires rest == [] || rest[0] != ' '
    ensures var s := pad + name + "=\"" + v + "\"" + rest;
      var e := |pad| + |name|;
      var j := e + 2 + |v|;
      && j < |s| && s[|pad|..e] == name && s[e] == '=' && s[e + 1] == '"' && s[j] == '"'
      && (forall k :: e + 2 <= k < j ==> s[k] != '"' && s[k] != '\n')
      && s[e + 1] != '\n'
      && Spaces(s, j + 1) == 0
      && s[..j + 1] == pad + name + "=\"" + v + "\"" && s[e + 2..j] == v
  {
    var s := pad + name + "=\"" + v + "\"" + rest;
    var e := |pad| + |name|;
    var j := e + 2 + |v|;
    assert forall k :: e + 2 <= k < j ==> s[k] == v[k - e - 2];
    assert j + 1 == |s| || s[j + 1] == rest[0];
    assert s[..j + 1] == pad + name + "=\"" + v + "\"";
    assert s[|pad|..e] == name;
  }

  lemma {:induction false} CloseQuoteFinds(s: string, v: nat, j: nat, q: nat, c: char)
    requires v < j <= q < |s| && s[q] == c
    requires forall k :: j <= k < q ==> s[k] != c
    requires forall k :: j - 1 <= k < q ==> s[k] != '\n'
    ensures CloseQuote(s, v, j, c) == Some(q)
    decreases q - j
  {
    if j < q {
      CloseQuoteFinds(s, v, j + 1, q, c);
    }
  }

  /**
   * The text the anchor is made from (_toc_element_anchor): the value of
   * the anchor attribute when its name is set and the attributes carry it,
   * the heading text otherwise.
   */
  function AnchorSource(attrName: string, text: string, attrs: string): (r: string)
    ensures !Truthy(attrName) ==> r == text
    ensures Truthy(attrName) && FindAttr(attrs, attrName, 0).Some? ==> r == FindAttr(attrs, attrName, 0).value.value
    ensures FindAttr(attrs, attrName, 0).None? ==> r == text
  {
    if Truthy(attrName) && FindAttr(attrs, attrName, 0).Some? then FindAttr(attrs, attrName, 0).value.value else text
  }

  /**
   * 3.17 builds the same pattern with preg_quote and no delimiter argument,
   * so a '/' in the name ends the pattern early and preg_match fails.
   */
  function LegacyAnchorSource(attrName: string, text: string, attrs: string): (r: string)
    ensures '/' in attrName ==> r == text
    ensures '/' !in attrName ==> r == AnchorSource(attrName, text, attrs)
  {
    if '/' in attrName then text else AnchorSource(attrName, text, attrs)
  }

  /** 3.17 cuts an `id` or `name` attribute it took the anchor from out of the attributes it writes back. */
  function LegacyAttrs(attrName: string, attrs: string): (r: string)
    ensures !Truthy(attrName) || '/' in attrName || FindAttr(attrs, attrName, 0).None? ==> r == attrs
    ensures Truthy(attrName) && '/' !in attrName && FindAttr(attrs, attrName, 0).Some? ==>
      var a := FindAttr(attrs, attrName, 0).value;
      r == if a.name == "id" || a.name == "name" then RemoveAll(attrs, a.whole) else attrs
  {
    if Truthy(attrName) && '/' !in attrName && FindAttr(attrs, attrName, 0).Some? then
      var a := FindAttr(attrs, attrName, 0).value;
      if a.name == "id" || a.name == "name" then RemoveAll(attrs, a.whole) else attrs
    else attrs
  }

  // ---------------------------------------------------------------------
  // Links and images in the heading text

  /** The length of `<name[^>]+>` at `i`, or 0. */
  function OpenTagLen(s: string, i: nat, name: string): (n: nat)
    ensures n > 0 ==> i + n <= |s| && s[i + n - 1] == '>' && OccursAt(s, "<" + name, i)
  {
    var b := i + 1 + |name|;
    if OccursAt(s, "<" + name, i) then
      match FindFrom(s, ">", b)
      case Some(j) => if j > b then j + 1 - i else 0
      case None => 0
    else 0
  }

  /** One match of `<a[^>]+>|</a>` at `i`, or 0. */
  function LinkTagLen(s: string, i: nat): (n: nat)
    ensures n > 0 ==> i + n <= |s| && s[i] == '<'
  {
    var a := OpenTagLen(s, i, "a");
    if a > 0 then a else if OccursAt(s, "</a>", i) then 4 else 0
  }

  /** One match of `<img[^>]+>` at `i`, or 0. */
  function ImgTagLen(s: string, i: nat): (n: nat)
    ensures n > 0 ==> i + n <= |s| && s[i] == '<'
  {
    OpenTagLen(s, i, "img")
  }

  /** The two removal patterns. */
  datatype Pattern = LinkPattern | ImgPattern

  function MatchLen(pat: Pattern, s: string, i: nat): (n: nat)
    ensures n > 0 ==> i + n <= |s|
  {
    match pat
    case LinkPattern => LinkTagLen(s, i)
    case ImgPattern => ImgTagLen(s, i)
  }

  /** preg_replace of a pattern by '': each match from left to right is dropped, other characters kept. */
  function Delete(s: string, pat: Pattern, i: nat): string
    decreases |s| - i
  {
    if i >= |s| then []
    else if MatchLen(pat, s, i) > 0 then Delete(s, pat, i + MatchLen(pat, s, i))
    else [s[i]] + Delete(s, pat, i + 1)
  }

  /** Text where no '<' comes on passes unchanged. */
  lemma {:induction false} DeleteNoTag(s: string, pat: Pattern, i: nat)
    requires i <= |s| && forall j :: i <= j < |s| ==> s[j] != '<'
    ensures Delete(s, pat, i) == s[i..]
    decreases |s| - i
  {
    if i < |s| {
      DeleteNoTag(s, pat, i + 1);
    }
  }

  /**
   * The link and image removal of the heading text: each runs only when
   * strpos finds "</a>" or "<img" first.
   */
  function ScrubLinks(t: string): (r: string)
    ensures !Contains(t, "</a>") && !Contains(t, "<img") ==> r == t
  {
    var t' := if Contains(t, "</a>") then Delete(t, LinkPattern, 0) else t;
    if Contains(t', "<img") then Delete(t', ImgPattern, 0) else t'
  }

  /** A link around plain text is taken off, leaving the text. */
  lemma ScrubLink(href: string, t: string)
    requires href != [] && '>' !in href && '<' !in t
    ensures ScrubLinks("<a" + href + ">" + t + "</a>") == t
  {
    var s := "<a" + href + ">" + t + "</a>";
    var c := 3 + |href| + |t|;
    assert s[c..c + 4] == "</a>";
    OccursAtContains(s, "</a>", c);
    LinkDeleted(href, t);
    NoLessThan(t, "<img");
  }

  lemma LinkDeleted(href: string, t: string)
    requires href != [] && '>' !in href && '<' !in t
    ensures Delete("<a" + href + ">" + t + "</a>", LinkPattern, 0) == t
  {
    var s := "<a" + href + ">" + t + "</a>";
    var b := 2 + |href|;
    var c := b + 1 + |t|;
    OpenLinkLen(href, t + "</a>");
    assert s == "<a" + href + ">" + (t + "</a>");
    forall j | b + 1 <= j < c ensures s[j] != '<' {
      assert s[j] == t[j - b - 1];
    }
    DeleteText(s, LinkPattern, b + 1, c);
    CloseLinkLen(s, c);
    assert Delete(s, LinkPattern, c) == Delete(s, LinkPattern, c + 4) == [];
    assert s[b + 1..c] == t;
  }

  lemma OpenLinkLen(href: string, rest: string)
    requires href != [] && '>' !in href
    ensures LinkTagLen("<a" + href + ">" + rest, 0) == 3 + |href|
  {
    var s := "<a" + href + ">" + rest;
    var b := 2 + |href|;
    assert s[..2] == "<" + "a";
    forall j: nat | 2 <= j < b ensures !OccursAt(s, ">", j) {
      assert s[j] == href[j - 2];
    }
    assert s[b..b + 1] == ">";
    FindFirst(s, ">", 2, b);
  }

  lemma CloseLinkLen(s: string, c: nat)
    requires c + 4 == |s| && s[c..] == "</a>"
    ensures MatchLen(LinkPattern, s, c) == 4
  {
    assert s[c + 1] == '/';
    assert !OccursAt(s, "<" + "a", c);
    assert OccursAt(s, "</a>", c);
  }

  /** A stretch without '<' before `c` is kept as it is. */
  lemma {:induction false} DeleteText(s: string, pat: Pattern, i: nat, c: nat)
    requires i <= c <= |s| && forall j :: i <= j < c ==> s[j] != '<'
    ensures Delete(s, pat, i) == s[i..c] + Delete(s, pat, c)
    decreases c - i
  {
    if i < c {
      DeleteText(s, pat, i + 1, c);
      DeleteTextStep(s, pat, i, c);
    }
  }

  /** One step of DeleteText: the character at `i` is kept in front of the rest. */
  lemma DeleteTextStep(s: string, pat: Pattern, i: nat, c: nat)
    requires i < c <= |s| && s[i] != '<'
    requires Delete(s, pat, i + 1) == s[i + 1..c] + Delete(s, pat, c)
    ensures Delete(s, pat, i) == s[i..c] + Delete(s, pat, c)
  {
    DeleteKeep(s, pat, i);
    assert s[i..c] == [s[i]] + s[i + 1..c];
    AppendAssoc([s[i]], s[i + 1..c], Delete(s, pat, c));
  }

  /** A character other than '<' is kept. */
  lemma DeleteKeep(s: string, pat: Pattern, i: nat)
    requires i < |s| && s[i] != '<'
    ensures Delete(s, pat, i) == [s[i]] + Delete(s, pat, i + 1)
  {
    assert MatchLen(pat, s, i) == 0 by {
      match pat
      case LinkPattern =>
      case ImgPattern =>
    }
  }

  lemma NoLessThan(t: string, needle: string)
    requires '<' !in t && needle != [] && needle[0] == '<'
    ensures !Contains(t, needle)
  {
    if Contains(t, needle) {
      assert false;
    }
  }

  /** leave_tags: false or a falsy string, an allow-list string, or true. */
  datatype LeaveTags = LeaveFlag(flag: bool) | LeaveOnly(allowed: string)

  /**
   * _strip_tags_in_elem_txt: strip all tags when leave_tags is falsy, keep
   * the listed ones when it is a string, otherwise only drop links and images.
   */
  function ElemText(lib: Library, leave: LeaveTags, t: string): (r: string)
    ensures leave == LeaveFlag(false) ==> r == lib.stripTags(t)
    ensures leave.LeaveOnly? && !Truthy(leave.allowed) ==> r == lib.stripTags(t)
    ensures leave.LeaveOnly? && Truthy(leave.allowed) ==> r == lib.stripTagsExcept(t, leave.allowed)
    ensures leave == LeaveFlag(true) ==> r == ScrubLinks(t)
  {
    match leave
    case LeaveFlag(b) => if b then ScrubLinks(t) else lib.stripTags(t)
    case LeaveOnly(allowed) => if Truthy(allowed) then lib.stripTagsExcept(t, allowed) else lib.stripTags(t)
  }

  // ---------------------------------------------------------------------
  // The rebuilt heading and the link back to the contents

  /** The class prefixes of the two versions: "kamatoc-" in 4.3.13 and "kc__" in 3.17. */
  const CurrentPrefix: string := "kamatoc-"
  const LegacyPrefix: string := "kc__"

  /**
   * The heading written back: an optional self-link before the text, then
   * either an empty named `<a>` and the original opening tag (anchor_type
   * 'a'), or the opening tag with an `id` in front of the attributes.
   * The attributes are written back as given.
   */
  function HeadingHtml(prefix: string, anchorType: string, anchorLink: string, anchor: string,
                       tag: string, attrs: string, text: string): string
  {
    var t := if Truthy(anchorLink) then SelfLink(prefix, anchorLink, anchor) + text else text;
    if anchorType == "a" then
      "<a class=\"" + prefix + "anchor\" name=\"" + anchor + "\"></a>" + "\n<" + tag + " " + attrs + ">" + t + "</" + tag + ">"
    else
      "\n<" + tag + " id=\"" + anchor + "\" " + attrs + ">" + t + "</" + tag + ">"
  }

  function SelfLink(prefix: string, anchorLink: string, anchor: string): string
  {
    "<a rel=\"nofollow\" class=\"" + prefix + "anchlink\" href=\"#" + anchor + "\">" + anchorLink + "</a> "
  }

  /**
   * With an id anchor the heading opens with its tag and the anchor as its
   * id, writes the attributes back unchanged and ends in its text and
   * closing tag.
   */
  lemma HeadingCarriesAnchor(prefix: string, anchorLink: string, anchor: string, tag: string, attrs: string, text: string)
    ensures var r := HeadingHtml(prefix, "id", anchorLink, anchor, tag, attrs, text);
      var open := "\n<" + tag + " id=\"" + anchor + "\" " + attrs + ">";
      OccursAt(r, open, 0) && EndsWith(r, text + "</" + tag + ">")
  {
    var r := HeadingHtml(prefix, "id", anchorLink, anchor, tag, attrs, text);
    var open := "\n<" + tag + " id=\"" + anchor + "\" " + attrs + ">";
    var t := if Truthy(anchorLink) then SelfLink(prefix, anchorLink, anchor) + text else text;
    var close := text + "</" + tag + ">";
    assert r == open + t + "</" + tag + ">";
    assert r[..|open|] == open;
    if Truthy(anchorLink) {
      assert r == (open + SelfLink(prefix, anchorLink, anchor)) + close;
    } else {
      assert r == open + close;
    }
  }

  /** The "back to top" link of 4.3.13. Both versions use the page_url option, not the resolved page URL. */
  function GotopHtml(pageUrl: string, toMenu: string): string
  {
    "<a rel=\"nofollow\" class=\"kamatoc-gotop\" href=\"" + pageUrl + "#tocmenu\">" + toMenu + "</a>"
  }

  /** The "back to top" link of 3.17. */
  function LegacyGotopHtml(pageUrl: string, toMenu: string): string
  {
    "<a rel=\"nofollow\" class=\"kc-gotop kc__gotop\" href=\"" + pageUrl + "#kcmenu\">" + toMenu + "</a>"
  }

  /** strpos of the match in the content; `false` counts as 0 in the subtraction that uses it. */
  function MatchPos(content: string, full: string): int
  {
    if Contains(content, full) then StrPos(content, full) else 0
  }

  /** The offsets of the matches' full texts in the content, as strpos finds them. */
  function Positions(content: string, ms: seq<RegexMatch>): (r: seq<int>)
    ensures |r| == |ms| && forall i :: 0 <= i < |ms| ==> r[i] == MatchPos(content, FullMatch(ms[i]))
  {
    seq(|ms|, i requires 0 <= i < |ms| => MatchPos(content, FullMatch(ms[i])))
  }

  /**
   * For matches the regex found in order, strpos always finds the full text,
   * and at the match itself or at an earlier copy of the same text: the
   * offset is at most the number of bytes before the match.
   */
  lemma PositionsAtOrBefore(content: string, ms: seq<RegexMatch>, cur: nat)
    requires Ordered(content, ms, cur)
    ensures forall i :: 0 <= i < |ms| ==>
      ms[i].start <= |content| && Contains(content, FullMatch(ms[i])) &&
      Positions(content, ms)[i] == StrPos(content, FullMatch(ms[i])) &&
      Positions(content, ms)[i] <= ByteLen(content[..ms[i].start])
  {
    OrderedOccurs(content, ms, cur);
    forall i | 0 <= i < |ms|
      ensures ms[i].start <= |content| && Contains(content, FullMatch(ms[i])) &&
        Positions(content, ms)[i] == StrPos(content, FullMatch(ms[i])) &&
        Positions(content, ms)[i] <= ByteLen(content[..ms[i].start])
    {
      var full := FullMatch(ms[i]);
      OccursAtContains(content, full, ms[i].start);
      ByteLenPrefix(content, StrIndex(content, full), ms[i].start);
    }
  }

  /** Every match of an ordered run occurs where it says it starts. */
  lemma {:induction false} OrderedOccurs(content: string, ms: seq<RegexMatch>, cur: nat)
    requires Ordered(content, ms, cur)
    ensures forall i :: 0 <= i < |ms| ==> OccursAt(content, FullMatch(ms[i]), ms[i].start)
    decreases |ms|
  {
    if ms != [] {
      OrderedOccurs(content, ms[1..], End(ms[0]));
      forall i | 0 < i < |ms| ensures OccursAt(content, FullMatch(ms[i]), ms[i].start) {
        assert ms[i] == ms[1..][i - 1];
      }
    }
  }

  /** The position recorded before this one: the last of the list, 0 when the list is empty. */
  function PrevPos(recorded: seq<int>): int
  {
    if recorded == [] then 0 else recorded[|recorded| - 1]
  }

  /** The link is kept only when this position lies at least `simcount` after the previous one. */
  predicate ShowGotop(pos: int, recorded: seq<int>, simcount: int)
  {
    pos - PrevPos(recorded) >= simcount
  }

  /** 3.17: the `$sub` attribute of a list item; a level that is not above 0 is a top item. */
  function LegacySubAttr(level: int, margin: int): (r: string)
    ensures level <= 0 ==> r == " class=\"top\""
    ensures level > 0 ==> EndsWith(r, " class=\"sub sub_" + DecimalString(level) + "\"")
  {
    if level > 0 then
      var style := if margin != 0 then " style=\"margin-left:" + IntString(level * margin) + "px;\"" else "";
      var classes := " class=\"sub sub_" + DecimalString(level) + "\"";
      EndsWithAppend(style, classes);
      style + classes
    else " class=\"top\""
  }

  predicate EndsWith(s: string, suffix: string)
  {
    |suffix| <= |s| && s[|s| - |suffix|..] == suffix
  }

  lemma EndsWithAppend(s: string, suffix: string)
    ensures EndsWith(s + suffix, suffix)
  {
    assert (s + suffix)[|s|..] == suffix;
  }

  /** The decimal form of an integer, with a minus sign when negative. */
  function IntString(n: int): string
  {
    if n < 0 then "-" + DecimalString(-n) else DecimalString(n)
  }
}
