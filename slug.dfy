/**
 * The Anchor Slugger: the steps of _sanitaze_anchor that turn heading text into
 * a URL-safe anchor, and the uniqueness step of _unique_anchor, in the 4.3.13
 * and the 3.17 variants.
 */
module Slug {
  import opened Php

  /**
   * The transliteration table that strtr receives, the same in both versions:
   * Russian, Ukrainian, Belarusian and Serbian/Macedonian Cyrillic letters to Latin.
   */
  function Iso9(c: char): (r: Option<string>)
    ensures r.Some? ==> |r.value| <= 3
    ensures r.Some? ==> forall i :: 0 <= i < |r.value| ==> IsUpper(r.value[i]) || IsLower(r.value[i])
    ensures r.Some? ==> 0x400 <= c as int < 0x500
  {
    match c
    case 'А' => Some("A")
    case 'Б' => Some("B")
    case 'В' => Some("V")
    case 'Г' => Some("G")
    case 'Д' => Some("D")
    case 'Е' => Some("E")
    case 'Ё' => Some("YO")
    case 'Ж' => Some("ZH")
    case 'З' => Some("Z")
    case 'И' => Some("I")
    case 'Й' => Some("J")
    case 'К' => Some("K")
    case 'Л' => Some("L")
    case 'М' => Some("M")
    case 'Н' => Some("N")
    case 'О' => Some("O")
    case 'П' => Some("P")
    case 'Р' => Some("R")
    case 'С' => Some("S")
    case 'Т' => Some("T")
    case 'У' => Some("U")
    case 'Ф' => Some("F")
    case 'Х' => Some("H")
    case 'Ц' => Some("TS")
    case 'Ч' => Some("CH")
    case 'Ш' => Some("SH")
    case 'Щ' => Some("SHH")
    case 'Ъ' => Some("")
    case 'Ы' => Some("Y")
    case 'Ь' => Some("")
    case 'Э' => Some("E")
    case 'Ю' => Some("YU")
    case 'Я' => Some("YA")
    case 'а' => Some("a")
    case 'б' => Some("b")
    case 'в' => Some("v")
    case 'г' => Some("g")
    case 'д' => Some("d")
    case 'е' => Some("e")
    case 'ё' => Some("yo")
    case 'ж' => Some("zh")
    case 'з' => Some("z")
    case 'и' => Some("i")
    case 'й' => Some("j")
    case 'к' => Some("k")
    case 'л' => Some("l")
    case 'м' => Some("m")
    case 'н' => Some("n")
    case 'о' => Some("o")
    case 'п' => Some("p")
    case 'р' => Some("r")
    case 'с' => Some("s")
    case 'т' => Some("t")
    case 'у' => Some("u")
    case 'ф' => Some("f")
    case 'х' => Some("h")
    case 'ц' => Some("ts")
    case 'ч' => Some("ch")
    case 'ш' => Some("sh")
    case 'щ' => Some("shh")
    case 'ъ' => Some("")
    case 'ы' => Some("y")
    case 'ь' => Some("")
    case 'э' => Some("e")
    case 'ю' => Some("yu")
    case 'я' => Some("ya")
    case 'Ѓ' => Some("G")
    case 'Ґ' => Some("G")
    case 'Є' => Some("YE")
    case 'Ѕ' => Some("Z")
    case 'Ј' => Some("J")
    case 'І' => Some("I")
    case 'Ї' => Some("YI")
    case 'Ќ' => Some("K")
    case 'Љ' => Some("L")
    case 'Њ' => Some("N")
    case 'Ў' => Some("U")
    case 'Џ' => Some("DH")
    case 'ѓ' => Some("g")
    case 'ґ' => Some("g")
    case 'є' => Some("ye")
    case 'ѕ' => Some("z")
    case 'ј' => Some("j")
    case 'і' => Some("i")
    case 'ї' => Some("yi")
    case 'ќ' => Some("k")
    case 'љ' => Some("l")
    case 'њ' => Some("n")
    case 'ў' => Some("u")
    case 'џ' => Some("dh")
    case _ => None
  }

  /** strtr with the table on one character: a table letter becomes its Latin spelling, any other character stays. */
  function TranslitChar(c: char): string
  {
    match Iso9(c)
    case Some(t) => t
    case None => [c]
  }

  /** Replaces every character of `s` by its image under `f`, left to right. */
  function MapChars(f: char -> string, s: string): string
  {
    if s == [] then [] else MapChars(f, s[..|s| - 1]) + f(s[|s| - 1])
  }

  lemma {:induction false} MapCharsAppend(f: char -> string, a: string, b: string)
    ensures MapChars(f, a + b) == MapChars(f, a) + MapChars(f, b)
    decreases |b|
  {
    if b != [] {
      var b' := b[..|b| - 1];
      assert (a + b)[..|a + b| - 1] == a + b';
      assert (a + b)[|a + b| - 1] == b[|b| - 1];
      MapCharsAppend(f, a, b');
      assert MapChars(f, a + b) == MapChars(f, a + b') + f(b[|b| - 1]);
      assert MapChars(f, b) == MapChars(f, b') + f(b[|b| - 1]);
    } else {
      assert a + b == a;
    }
  }

  /** strtr($anch, $iso9): every character is replaced independently. */
  function Transliterate(s: string): string
  {
    MapChars(TranslitChar, s)
  }

  lemma TransliterateAppend(a: string, b: string)
    ensures Transliterate(a + b) == Transliterate(a) + Transliterate(b)
  {
    MapCharsAppend(TranslitChar, a, b);
  }

  lemma TransliterateSnoc(s: string, c: char)
    ensures Transliterate(s + [c]) == Transliterate(s) + TranslitChar(c)
  {
    assert (s + [c])[..|s|] == s;
  }

  /** Transliteration leaves no letter of the table behind: all of them, the signs included, are replaced. */
  lemma {:induction false} TransliterateRemovesTableLetters(s: string)
    ensures forall i :: 0 <= i < |Transliterate(s)| ==> Iso9(Transliterate(s)[i]).None?
    decreases |s|
  {
    if s != [] {
      TransliterateRemovesTableLetters(s[..|s| - 1]);
      assert Transliterate(s) == Transliterate(s[..|s| - 1]) + TranslitChar(s[|s| - 1]);
      var c := s[|s| - 1];
      match Iso9(c)
      case Some(t) =>
        forall i | 0 <= i < |t| ensures Iso9(t[i]).None? {
          assert t[i] as int < 0x80;
        }
      case None =>
    }
  }

  /** A character the slug may keep: [a-zA-Z0-9_-] and the configured extra characters. */
  predicate Allowed(c: char, spec: string)
  {
    IsAlnum(c) || c == '_' || c == '-' || c in spec
  }

  /**
   * preg_replace("/[^a-zA-Z0-9_$spec\-]+/", '-', $anch): each maximal run of
   * characters that are not allowed becomes a single '-'.
   */
  function CollapseRuns(s: string, spec: string): string
  {
    if s == [] then []
    else
      var t := CollapseRuns(s[..|s| - 1], spec);
      var c := s[|s| - 1];
      if Allowed(c, spec) then t + [c]
      else if |s| >= 2 && !Allowed(s[|s| - 2], spec) then t
      else t + "-"
  }

  /** Collapsing leaves allowed characters only. */
  lemma {:induction false} CollapseAllowed(s: string, spec: string)
    ensures forall i :: 0 <= i < |CollapseRuns(s, spec)| ==> Allowed(CollapseRuns(s, spec)[i], spec)
    decreases |s|
  {
    if s != [] {
      CollapseAllowed(s[..|s| - 1], spec);
    }
  }

  /** Text made only of allowed characters is left as it is. */
  lemma {:induction false} CollapseKeepsAllowed(s: string, spec: string)
    requires forall i :: 0 <= i < |s| ==> Allowed(s[i], spec)
    ensures CollapseRuns(s, spec) == s
    decreases |s|
  {
    if s != [] {
      CollapseKeepsAllowed(s[..|s| - 1], spec);
    }
  }

  /** A run of characters none of which is allowed becomes exactly one '-'. */
  lemma {:induction false} CollapseRunToDash(s: string, spec: string)
    requires s != []
    requires forall i :: 0 <= i < |s| ==> !Allowed(s[i], spec)
    ensures CollapseRuns(s, spec) == "-"
    decreases |s|
  {
    if |s| > 1 {
      CollapseRunToDash(s[..|s| - 1], spec);
    }
  }

  /** What the last character adds to the collapsed text. */
  function CollapseTail(s: string, spec: string): string
    requires s != []
  {
    var c := s[|s| - 1];
    if Allowed(c, spec) then [c]
    else if |s| >= 2 && !Allowed(s[|s| - 2], spec) then []
    else "-"
  }

  lemma CollapseSnoc(s: string, spec: string)
    requires s != []
    ensures CollapseRuns(s, spec) == CollapseRuns(s[..|s| - 1], spec) + CollapseTail(s, spec)
  {
    assert CollapseRuns(s[..|s| - 1], spec) + [] == CollapseRuns(s[..|s| - 1], spec);
  }

  /** Collapsing works piece by piece when the pieces do not split a run. */
  lemma {:induction false} CollapseAppend(a: string, b: string, spec: string)
    requires a == [] || b == [] || Allowed(a[|a| - 1], spec) || Allowed(b[0], spec)
    ensures CollapseRuns(a + b, spec) == CollapseRuns(a, spec) + CollapseRuns(b, spec)
    decreases |b|
  {
    if b == [] {
      assert a + b == a;
    } else {
      var s := a + b;
      var b' := b[..|b| - 1];
      CollapseSnoc(s, spec);
      CollapseSnoc(b, spec);
      assert s[..|s| - 1] == a + b';
      assert s[|s| - 1] == b[|b| - 1];
      if |b| == 1 {
        assert CollapseRuns(b', spec) == [];
        assert CollapseTail(s, spec) == CollapseTail(b, spec);
      } else {
        assert s[|s| - 2] == b[|b| - 2];
        assert CollapseTail(s, spec) == CollapseTail(b, spec);
        CollapseAppend(a, b', spec);
        AppendAssoc(CollapseRuns(a, spec), CollapseRuns(b', spec), CollapseTail(b, spec));
      }
    }
  }

  /**
   * The statements of _sanitaze_anchor after the library calls, the same in
   * both versions: transliterate, collapse disallowed runs to '-', trim '-',
   * lower-case, keep the first 70 characters.
   */
  function Slugify(s: string, spec: string): string
  {
    Take(Lower(Trim(CollapseRuns(Transliterate(s), spec), {'-'})), 70)
  }

  /** A character of a finished slug: lower-case letters, digits, '_', '-' and the lowered extra characters. */
  predicate SlugChar(c: char, spec: string)
  {
    IsLower(c) || IsDigit(c) || c == '_' || c == '-' || c in Lower(spec)
  }

  /** Every slug is at most 70 characters of slug characters, has no upper-case letter and does not start with '-'. */
  lemma SlugShape(s: string, spec: string)
    ensures |Slugify(s, spec)| <= 70
    ensures forall i :: 0 <= i < |Slugify(s, spec)| ==> SlugChar(Slugify(s, spec)[i], spec) && !IsUpper(Slugify(s, spec)[i])
    ensures Slugify(s, spec) != [] ==> Slugify(s, spec)[0] != '-'
  {
    var c := CollapseRuns(Transliterate(s), spec);
    CollapseAllowed(Transliterate(s), spec);
    var t := Trim(c, {'-'});
    var l := Lower(t);
    var r := Take(l, 70);
    TrimSpec(c, {'-'});
    forall i | 0 <= i < |r| ensures SlugChar(r[i], spec) && !IsUpper(r[i]) {
      assert r[i] == LowerChar(t[i]);
      assert Allowed(t[i], spec);
      if t[i] in spec {
        var j :| 0 <= j < |spec| && spec[j] == t[i];
        assert Lower(spec)[j] == LowerChar(t[i]);
      }
    }
  }

  /** _sanitaze_anchor of 4.3.13 up to the uniqueness step; both filters are taken as the identity. */
  function AnchorBase(lib: Library, spec: string, anch: string): string
  {
    Slugify(lib.entityDecode(lib.stripTags(anch)), spec)
  }

  /**
   * _sanitaze_anchor of 3.17 up to the uniqueness step: it does not decode
   * entities, and it quotes spec without naming '/' as the delimiter. A '/'
   * in spec then ends the pattern early, preg_replace returns null, and trim,
   * strtolower and substr turn that null into ''.
   */
  function LegacyAnchorBase(lib: Library, spec: string, anch: string): string
  {
    if '/' in spec then "" else Slugify(lib.stripTags(anch), spec)
  }

  /** With a '/' in spec, every 3.17 heading gets the empty base, whatever its text. */
  lemma LegacySlashSpec(lib: Library, spec: string, a: string, b: string)
    requires '/' in spec
    ensures LegacyAnchorBase(lib, spec, a) == LegacyAnchorBase(lib, spec, b) == ""
  {
  }

  lemma PrivetLetters()
    ensures TranslitChar('П') == "P" && TranslitChar('р') == "r" && TranslitChar('и') == "i"
    ensures TranslitChar('в') == "v" && TranslitChar('е') == "e" && TranslitChar('т') == "t"
    ensures TranslitChar('м') == "m"
  {
  }

  lemma TranslitPrivet()
    ensures Transliterate("Привет") == "Privet"
  {
    PrivetLetters();
    assert "Привет" == [] + ['П'] + ['р'] + ['и'] + ['в'] + ['е'] + ['т'];
    TransliterateSnoc([], 'П');
    TransliterateSnoc([] + ['П'], 'р');
    TransliterateSnoc([] + ['П'] + ['р'], 'и');
    TransliterateSnoc([] + ['П'] + ['р'] + ['и'], 'в');
    TransliterateSnoc([] + ['П'] + ['р'] + ['и'] + ['в'], 'е');
    TransliterateSnoc([] + ['П'] + ['р'] + ['и'] + ['в'] + ['е'], 'т');
  }

  lemma TranslitMir()
    ensures Transliterate("мир") == "mir"
  {
    PrivetLetters();
    assert "мир" == [] + ['м'] + ['и'] + ['р'];
    TransliterateSnoc([], 'м');
    TransliterateSnoc([] + ['м'], 'и');
    TransliterateSnoc([] + ['м'] + ['и'], 'р');
  }

  lemma TranslitAscii(s: string)
    requires forall i :: 0 <= i < |s| ==> s[i] as int < 0x80
    ensures Transliterate(s) == s
  {
    if s != [] {
      TranslitAscii(s[..|s| - 1]);
    }
  }

  lemma TranslitExample()
    ensures Transliterate("Привет, мир!") == "Privet, mir!"
  {
    assert "Привет, мир!" == "Привет" + ", " + "мир" + "!";
    TransliterateAppend("Привет" + ", " + "мир", "!");
    TransliterateAppend("Привет" + ", ", "мир");
    TransliterateAppend("Привет", ", ");
    TranslitPrivet();
    TranslitMir();
    TranslitAscii(", ");
    TranslitAscii("!");
    assert "Privet, mir!" == "Privet" + ", " + "mir" + "!";
  }

  lemma CollapseWords()
    ensures CollapseRuns("Privet", "") == "Privet" && CollapseRuns("mir", "") == "mir"
    ensures CollapseRuns(", ", "") == "-" && CollapseRuns("!", "") == "-"
  {
    CollapseKeepsAllowed("Privet", "");
    CollapseKeepsAllowed("mir", "");
    CollapseRunToDash(", ", "");
    CollapseRunToDash("!", "");
  }

  lemma CollapseExample()
    ensures CollapseRuns("Privet, mir!", "") == "Privet-mir-"
  {
    CollapseWords();
    assert "Privet, " == "Privet" + ", ";
    CollapseAppend("Privet", ", ", "");
    assert "Privet, mir" == "Privet, " + "mir";
    CollapseAppend("Privet, ", "mir", "");
    assert "Privet, mir!" == "Privet, mir" + "!";
    CollapseAppend("Privet, mir", "!", "");
  }

  /** The worked example: Cyrillic is transliterated, punctuation collapses to '-', the trailing '-' is trimmed. */
  lemma SlugExample()
    ensures Slugify("Привет, мир!", "") == "privet-mir"
  {
    TranslitExample();
    CollapseExample();
    var c := "Privet-mir-";
    assert TrimLeft(c, {'-'}) == c;
    assert c[..|c| - 1] == "Privet-mir";
    assert TrimRight(c, {'-'}) == "Privet-mir";
    assert Lower("Privet-mir") == "privet-mir";
  }

  // ---------------------------------------------------------------------
  // Uniqueness: _unique_anchor

  /**
   * preg_replace('/-\d$/', '', $anch): drops '-' and a digit at the end, or
   * just before a final line feed, where PCRE's `$` also matches.
   */
  function StripDigitSuffix(a: string): string
  {
    if |a| >= 2 && a[|a| - 2] == '-' && IsDigit(a[|a| - 1]) then a[..|a| - 2]
    else if |a| >= 3 && a[|a| - 1] == '\n' && a[|a| - 3] == '-' && IsDigit(a[|a| - 2]) then a[..|a| - 3] + "\n"
    else a
  }

  /** $lastnum: one more than a final digit, otherwise 2. */
  function NextNumber(a: string): (n: nat)
    ensures 1 <= n <= 10
  {
    if a != [] && IsDigit(a[|a| - 1]) then DigitValue(a[|a| - 1]) + 1 else 2
  }

  /** The next candidate of 4.3.13: the old "-<digit>" suffix is dropped first. */
  function NextCandidate(a: string): string
  {
    StripDigitSuffix(a) + "-" + DecimalString(NextNumber(a))
  }

  /** The next candidate of 3.17: the suffix is appended to the whole candidate. */
  function LegacyNextCandidate(a: string): string
  {
    a + "-" + DecimalString(NextNumber(a))
  }

  function SuffixValue(a: string): (v: nat)
    ensures v <= 9
  {
    if |a| >= 2 && a[|a| - 2] == '-' && IsDigit(a[|a| - 1]) then DigitValue(a[|a| - 1]) else 0
  }

  lemma DecimalTen()
    ensures DecimalString(10) == "10"
  {
  }

  /** Each retry either lengthens the candidate or raises its final digit. */
  lemma NextCandidateGrows(a: string)
    ensures var b := NextCandidate(a);
      |b| > |a| || (|b| == |a| && SuffixValue(b) > SuffixValue(a))
  {
    DecimalTen();
  }

  ghost function MaxLen(reg: set<string>): (m: nat)
    ensures forall x :: x in reg ==> |x| <= m
  {
    if reg == {} then 0
    else
      var x :| x in reg;
      var m := MaxLen(reg - {x});
      if |x| > m then |x| else m
  }

  ghost function Rank(reg: set<string>, a: string): nat
  {
    if a in reg then (MaxLen(reg) + 1 - |a|) * 10 + 9 - SuffixValue(a) else 0
  }

  /**
   * _unique_anchor of 4.3.13 as a function of the registry: retry with the next
   * candidate until one is not registered. The result is never registered, and
   * it is the input exactly when the input is not registered.
   */
  function Uniquify(reg: set<string>, a: string): (r: string)
    ensures r !in reg
    ensures r == a <==> a !in reg
    decreases Rank(reg, a)
  {
    if a !in reg then a
    else
      NextCandidateGrows(a);
      Uniquify(reg, NextCandidate(a))
  }

  ghost function LegacyRank(reg: set<string>, a: string): nat
  {
    if a in reg then MaxLen(reg) + 1 - |a| else 0
  }

  /** _unique_anchor of 3.17 as a function of the registry. */
  function LegacyUniquify(reg: set<string>, a: string): (r: string)
    ensures r !in reg
    ensures r == a <==> a !in reg
    decreases LegacyRank(reg, a)
  {
    if a !in reg then a else LegacyUniquify(reg, LegacyNextCandidate(a))
  }

  /** `b` with the numeric suffix "-k". */
  function Suffixed(b: string, k: nat): string
  {
    b + "-" + DecimalString(k)
  }

  /** A base the suffix step does not shorten: it ends neither in a digit nor in "-<digit>\n". */
  predicate PlainBase(b: string)
  {
    (b == [] || !IsDigit(b[|b| - 1])) && StripDigitSuffix(b) == b
  }

  lemma SuffixedInjective(b: string, j: nat, k: nat)
    requires 2 <= j <= 10 && 2 <= k <= 10
    requires Suffixed(b, j) == Suffixed(b, k)
    ensures j == k
  {
    DecimalTen();
    if j <= 9 && k <= 9 {
      assert Suffixed(b, j)[|b| + 1] == DigitChar(j);
      assert Suffixed(b, k)[|b| + 1] == DigitChar(k);
    }
  }

  lemma {:induction false} UniquifyClimbs(reg: set<string>, b: string, j: nat, n: nat)
    requires 2 <= j <= n + 1 <= 10
    requires forall k: nat :: j <= k <= n ==> Suffixed(b, k) in reg
    requires Suffixed(b, n + 1) !in reg
    ensures Uniquify(reg, Suffixed(b, j)) == Suffixed(b, n + 1)
    decreases n + 1 - j
  {
    if j <= n {
      var s := Suffixed(b, j);
      assert s[..|s| - 2] == b;
      assert NextCandidate(s) == Suffixed(b, j + 1);
      UniquifyClimbs(reg, b, j + 1, n);
    }
  }

  /** The registry after issuing base `b` n times: b, b-2, ..., b-n. */
  function Copies(b: string, n: nat): set<string>
  {
    {b} + set k: nat | 2 <= k <= n :: Suffixed(b, k)
  }

  /**
   * Issuing the same base once more after n copies gives the suffix n + 1:
   * x, x-2, x-3, ... up to x-10.
   */
  lemma RepeatedBase(b: string, n: nat)
    requires PlainBase(b) && 1 <= n <= 9
    ensures Uniquify(Copies(b, n), b) == Suffixed(b, n + 1)
  {
    var reg := Copies(b, n);
    DecimalTen();
    forall k: nat | 2 <= k <= n ensures Suffixed(b, n + 1) != Suffixed(b, k) {
      if Suffixed(b, n + 1) == Suffixed(b, k) {
        SuffixedInjective(b, n + 1, k);
      }
    }
    assert |Suffixed(b, n + 1)| > |b|;
    assert Suffixed(b, n + 1) !in reg;
    assert NextCandidate(b) == Suffixed(b, 2);
    UniquifyClimbs(reg, b, 2, n);
  }

  /** Three headings with the same base "x" get x, x-2 and x-3 in 4.3.13. */
  lemma ThreeCopies(x: string)
    requires PlainBase(x)
    ensures Uniquify({}, x) == x
    ensures Uniquify({x}, x) == x + "-2"
    ensures Uniquify({x, x + "-2"}, x) == x + "-3"
  {
    assert Copies(x, 1) == {x};
    RepeatedBase(x, 1);
    assert Suffixed(x, 2) == x + "-2";
    assert Copies(x, 2) == {x, x + "-2"};
    RepeatedBase(x, 2);
  }

  lemma LegacySteps(x: string)
    requires x == [] || !IsDigit(x[|x| - 1])
    ensures LegacyNextCandidate(x) == x + "-2"
    ensures LegacyNextCandidate(x + "-2") == x + "-2-3"
  {
    var y := x + "-2";
    assert y[|y| - 1] == '2';
    assert NextNumber(y) == 3;
  }

  lemma LegacyRetry(reg: set<string>, a: string)
    requires a in reg
    ensures LegacyUniquify(reg, a) == LegacyUniquify(reg, LegacyNextCandidate(a))
  {
  }

  /** Three headings with the same base "x" get x, x-2 and x-2-3 in 3.17. */
  lemma LegacyThreeCopies(x: string)
    requires x == [] || !IsDigit(x[|x| - 1])
    ensures LegacyUniquify({}, x) == x
    ensures LegacyUniquify({x}, x) == x + "-2"
    ensures LegacyUniquify({x, x + "-2"}, x) == x + "-2-3"
  {
    LegacySteps(x);
    var y := x + "-2";
    var z := x + "-2-3";
    assert |z| > |y| > |x|;
    LegacyRetry({x}, x);
    LegacyRetry({x, y}, x);
    LegacyRetry({x, y}, y);
  }

  /** A base that already ends in a digit is not stripped: "h2" is followed by "h2-3" in 4.3.13. */
  lemma DigitEndingBase()
    ensures Uniquify({"h2"}, "h2") == "h2-3"
  {
    assert NextCandidate("h2") == "h2-3";
  }
}
