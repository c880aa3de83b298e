/**
 * Models of the PHP built-ins that the table-of-contents pipeline calls.
 * A PHP string is modelled as the sequence of characters of its UTF-8 text;
 * where PHP counts bytes (strpos offsets), ByteLen gives the byte count.
 */
module Php {

  datatype Option<T> = None | Some(value: T)

  /**
   * The library calls the model does not interpret, supplied by the caller:
   * strip_tags, strip_tags with an allow-list of tags, and html_entity_decode.
   */
  datatype Library = Library(
    stripTags: string -> string,
    stripTagsExcept: (string, string) -> string,
    entityDecode: string -> string)

  /** PHP's truthiness of a string: "" and "0" are false, every other string is true. */
  predicate Truthy(s: string)
  {
    s != "" && s != "0"
  }

  predicate IsDigit(c: char) { '0' <= c <= '9' }
  predicate IsUpper(c: char) { 'A' <= c <= 'Z' }
  predicate IsLower(c: char) { 'a' <= c <= 'z' }
  predicate IsAlnum(c: char) { IsDigit(c) || IsUpper(c) || IsLower(c) }

  function DigitValue(c: char): (v: nat)
    requires IsDigit(c)
    ensures v <= 9
  {
    c as int - '0' as int
  }

  function DigitChar(v: nat): (c: char)
    requires v <= 9
    ensures IsDigit(c) && DigitValue(c) == v
  {
    ('0' as int + v) as char
  }

  /** The decimal notation PHP prints for a non-negative integer. */
  function DecimalString(n: nat): (r: string)
    ensures |r| >= 1
    ensures forall i :: 0 <= i < |r| ==> IsDigit(r[i])
    ensures n <= 9 ==> r == [DigitChar(n)]
  {
    if n <= 9 then [DigitChar(n)] else DecimalString(n / 10) + [DigitChar(n % 10)]
  }

  /** strtolower on one character: only ASCII letters change. */
  function LowerChar(c: char): (r: char)
    ensures IsUpper(c) ==> IsLower(r) && r as int == c as int + 32
    ensures !IsUpper(c) ==> r == c
  {
    if IsUpper(c) then (c as int + 32) as char else c
  }

  /** strtolower. */
  function Lower(s: string): (r: string)
    ensures |r| == |s|
    ensures forall i :: 0 <= i < |s| ==> r[i] == LowerChar(s[i])
  {
    seq(|s|, i requires 0 <= i < |s| => LowerChar(s[i]))
  }

  /** The bytes UTF-8 uses for one character. */
  function Utf8Width(c: char): (w: nat)
    ensures 1 <= w <= 4
    ensures (c as int < 0x80) <==> w == 1
  {
    if c as int < 0x80 then 1
    else if c as int < 0x800 then 2
    else if c as int < 0x1_0000 then 3
    else 4
  }

  /** strlen: the number of bytes of the UTF-8 text. */
  function ByteLen(s: string): (n: nat)
    ensures n >= |s|
    ensures (forall i :: 0 <= i < |s| ==> s[i] as int < 0x80) ==> n == |s|
  {
    if s == [] then 0 else ByteLen(s[..|s| - 1]) + Utf8Width(s[|s| - 1])
  }

  predicate OccursAt(hay: string, needle: string, i: nat)
  {
    i + |needle| <= |hay| && hay[i..i + |needle|] == needle
  }

  /** A longer prefix has at least as many bytes. */
  lemma {:induction false} ByteLenPrefix(s: string, a: nat, b: nat)
    requires a <= b <= |s|
    ensures ByteLen(s[..a]) <= ByteLen(s[..b])
    decreases b - a
  {
    if a < b {
      ByteLenPrefix(s, a, b - 1);
      assert s[..b][..b - 1] == s[..b - 1];
    }
  }

  /** The first index at or after `from` where `needle` occurs in `hay`. */
  function FindFrom(hay: string, needle: string, from: nat): (r: Option<nat>)
    ensures r.Some? ==> from <= r.value && OccursAt(hay, needle, r.value)
    ensures r.Some? ==> forall j: nat :: from <= j < r.value ==> !OccursAt(hay, needle, j)
    ensures r.None? ==> forall j: nat :: from <= j ==> !OccursAt(hay, needle, j)
    decreases |hay| - from
  {
    if from + |needle| > |hay| then None
    else if OccursAt(hay, needle, from) then Some(from)
    else FindFrom(hay, needle, from + 1)
  }

  /** FindFrom finds an occurrence when nothing occurs between the start and it. */
  lemma {:induction false} FindFirst(hay: string, needle: string, from: nat, q: nat)
    requires from <= q && OccursAt(hay, needle, q)
    requires forall i: nat :: from <= i < q ==> !OccursAt(hay, needle, i)
    ensures FindFrom(hay, needle, from) == Some(q)
    decreases q - from
  {
    if from < q {
      FindFirst(hay, needle, from + 1, q);
    }
  }

  /** strpos(...) !== false */
  predicate Contains(hay: string, needle: string)
  {
    FindFrom(hay, needle, 0).Some?
  }

  lemma OccursAtContains(hay: string, needle: string, i: nat)
    requires OccursAt(hay, needle, i)
    ensures Contains(hay, needle)
  {
  }

  /** strpos as a character index: the first occurrence of `needle`. */
  function StrIndex(hay: string, needle: string): (k: nat)
    requires Contains(hay, needle)
    ensures OccursAt(hay, needle, k)
    ensures forall j: nat :: j < k ==> !OccursAt(hay, needle, j)
  {
    FindFrom(hay, needle, 0).value
  }

  /** strpos: the byte offset of the first occurrence of `needle`. */
  function StrPos(hay: string, needle: string): (p: nat)
    requires Contains(hay, needle)
  {
    ByteLen(hay[..StrIndex(hay, needle)])
  }

  /** The characters trim() removes by default. */
  const TrimChars: set<char> := {' ', '\t', '\n', '\r', '\0', '\U{000B}'}

  /** ltrim($s, $cs). */
  function TrimLeft(s: string, cs: set<char>): string
  {
    if s != [] && s[0] in cs then TrimLeft(s[1..], cs) else s
  }

  /** ltrim keeps a suffix that does not start with a character of `cs`, and drops only such characters. */
  lemma {:induction false} TrimLeftSpec(s: string, cs: set<char>)
    ensures var r := TrimLeft(s, cs);
      |r| <= |s| && r == s[|s| - |r|..] && (r != [] ==> r[0] !in cs) &&
      forall i :: 0 <= i < |s| - |r| ==> s[i] in cs
  {
    if s != [] && s[0] in cs {
      TrimLeftSpec(s[1..], cs);
      var r := TrimLeft(s[1..], cs);
      assert s[1..][|s| - 1 - |r|..] == s[|s| - |r|..];
      forall i | 0 <= i < |s| - |r| ensures s[i] in cs {
        if i > 0 {
          assert s[i] == s[1..][i - 1];
        }
      }
    }
  }

  /** rtrim($s, $cs). */
  function TrimRight(s: string, cs: set<char>): string
  {
    if s != [] && s[|s| - 1] in cs then TrimRight(s[..|s| - 1], cs) else s
  }

  /** rtrim keeps a prefix that does not end with a character of `cs`, and drops only such characters. */
  lemma {:induction false} TrimRightSpec(s: string, cs: set<char>)
    ensures var r := TrimRight(s, cs);
      |r| <= |s| && r == s[..|r|] && (r != [] ==> r[|r| - 1] !in cs) &&
      forall i :: |r| <= i < |s| ==> s[i] in cs
  {
    if s != [] && s[|s| - 1] in cs {
      TrimRightSpec(s[..|s| - 1], cs);
      var r := TrimRight(s[..|s| - 1], cs);
      assert s[..|s| - 1][..|r|] == s[..|r|];
      forall i | |r| <= i < |s| ensures s[i] in cs {
        if i < |s| - 1 {
          assert s[i] == s[..|s| - 1][i];
        }
      }
    }
  }

  /** trim($s, $cs): drop the characters of `cs` from both ends. */
  function Trim(s: string, cs: set<char>): string
  {
    TrimRight(TrimLeft(s, cs), cs)
  }

  /** trim() only removes characters of `cs`: what it keeps is a slice of the input with neither end in `cs`. */
  lemma TrimSpec(s: string, cs: set<char>)
    ensures var r := Trim(s, cs);
      |r| <= |s| && (r != [] ==> r[0] !in cs && r[|r| - 1] !in cs) &&
      forall i :: 0 <= i < |r| ==> r[i] in s
  {
    var l := TrimLeft(s, cs);
    var r := TrimRight(l, cs);
    TrimLeftSpec(s, cs);
    TrimRightSpec(l, cs);
    if r != [] {
      assert r[0] == l[0];
    }
    forall i | 0 <= i < |r| ensures r[i] in s {
      assert r[i] == l[i];
      assert l[i] == s[|s| - |l| + i];
    }
  }

  /** substr($s, 0, $n). */
  function Take(s: string, n: nat): (r: string)
    ensures |r| <= n && |r| <= |s| && r == s[..|r|]
    ensures |s| <= n ==> r == s
    ensures |s| > n ==> |r| == n
  {
    if |s| <= n then s else s[..n]
  }

  /** Concatenation regroups. */
  lemma AppendAssoc<T>(a: seq<T>, b: seq<T>, c: seq<T>)
    ensures a + (b + c) == (a + b) + c
  {
  }

  /** A suffix splits at any later index. */
  lemma SliceSplit<T>(s: seq<T>, a: nat, b: nat)
    requires a <= b <= |s|
    ensures s[a..] == s[a..b] + s[b..]
  {
  }

  /** A prefix one longer, with its last element dropped, is the prefix. */
  lemma PrefixDropLast<T>(s: seq<T>, i: nat)
    requires i < |s|
    ensures s[..i + 1][..i] == s[..i]
  {
  }

  /** The concatenation of a list of strings. */
  function Concat(parts: seq<string>): string
  {
    if parts == [] then [] else Concat(parts[..|parts| - 1]) + parts[|parts| - 1]
  }

  lemma ConcatSnoc(init: seq<string>, last: string)
    ensures Concat(init + [last]) == Concat(init) + last
  {
    assert (init + [last])[..|init|] == init;
  }

  lemma {:induction false} ConcatAppend(a: seq<string>, b: seq<string>)
    ensures Concat(a + b) == Concat(a) + Concat(b)
    decreases |b|
  {
    if b == [] {
      assert a + b == a;
    } else {
      var b' := b[..|b| - 1];
      var x := b[|b| - 1];
      assert b == b' + [x];
      assert a + b == (a + b') + [x];
      ConcatAppend(a, b');
      ConcatSnoc(a + b', x);
      ConcatSnoc(b', x);
    }
  }

  /** The characters of `s` that are not in `cs`, in order. */
  function Without(s: string, cs: set<char>): string
  {
    if s == [] then [] else Without(s[..|s| - 1], cs) + (if s[|s| - 1] in cs then [] else [s[|s| - 1]])
  }

  /**
   * preg_split('/[<seps>]+/', $s): the pieces between maximal runs of separator
   * characters, with an empty piece at either end that starts or ends with a run.
   */
  function SplitRuns(s: string, seps: set<char>): (r: seq<string>)
    ensures |r| >= 1
  {
    if s == [] then [""]
    else
      var t := SplitRuns(s[..|s| - 1], seps);
      var c := s[|s| - 1];
      if c in seps then
        (if |s| >= 2 && s[|s| - 2] in seps then t else t + [""])
      else
        t[..|t| - 1] + [t[|t| - 1] + [c]]
  }

  /** No piece holds a separator, and only the first and the last piece can be empty. */
  lemma {:induction false} SplitRunsShape(s: string, seps: set<char>)
    ensures forall k, i :: 0 <= k < |SplitRuns(s, seps)| && 0 <= i < |SplitRuns(s, seps)[k]| ==> SplitRuns(s, seps)[k][i] !in seps
    ensures forall k :: 0 < k < |SplitRuns(s, seps)| - 1 ==> SplitRuns(s, seps)[k] != []
    ensures s != [] && s[|s| - 1] !in seps ==> SplitRuns(s, seps)[|SplitRuns(s, seps)| - 1] != []
    decreases |s|
  {
    if s != [] {
      var s' := s[..|s| - 1];
      SplitRunsShape(s', seps);
    }
  }

  /** Splitting loses exactly the separators: the pieces put together are the other characters. */
  lemma {:induction false} SplitRunsKeepsText(s: string, seps: set<char>)
    ensures Concat(SplitRuns(s, seps)) == Without(s, seps)
    decreases |s|
  {
    if s != [] {
      SplitRunsKeepsText(s[..|s| - 1], seps);
      if s[|s| - 1] in seps {
        SplitAtSeparator(s, seps);
      } else {
        SplitAtOther(s, seps);
      }
    }
  }

  lemma SplitAtSeparator(s: string, seps: set<char>)
    requires s != [] && s[|s| - 1] in seps
    requires Concat(SplitRuns(s[..|s| - 1], seps)) == Without(s[..|s| - 1], seps)
    ensures Concat(SplitRuns(s, seps)) == Without(s, seps)
  {
    var s' := s[..|s| - 1];
    assert Without(s, seps) == Without(s', seps);
    if !(|s| >= 2 && s[|s| - 2] in seps) {
      ConcatSnoc(SplitRuns(s', seps), "");
    }
  }

  lemma SplitAtOther(s: string, seps: set<char>)
    requires s != [] && s[|s| - 1] !in seps
    requires Concat(SplitRuns(s[..|s| - 1], seps)) == Without(s[..|s| - 1], seps)
    ensures Concat(SplitRuns(s, seps)) == Without(s, seps)
  {
    var s' := s[..|s| - 1];
    var t := SplitRuns(s', seps);
    var c := s[|s| - 1];
    assert Without(s, seps) == Without(s', seps) + [c];
    var init := t[..|t| - 1];
    var last := t[|t| - 1];
    assert t == init + [last];
    assert SplitRuns(s, seps) == init + [last + [c]];
    ConcatSnoc(init, last);
    ConcatSnoc(init, last + [c]);
  }

  /** explode($sep, $s): the pieces between single separator characters. */
  function Explode(sep: char, s: string): (r: seq<string>)
    ensures |r| >= 1
    ensures forall k, i :: 0 <= k < |r| && 0 <= i < |r[k]| ==> r[k][i] != sep
  {
    if s == [] then [""]
    else
      var t := Explode(sep, s[..|s| - 1]);
      if s[|s| - 1] == sep then t + [""] else t[..|t| - 1] + [t[|t| - 1] + [s[|s| - 1]]]
  }

  /** implode($sep, $parts). */
  function Join(sep: char, parts: seq<string>): string
  {
    if parts == [] then []
    else if |parts| == 1 then parts[0]
    else Join(sep, parts[..|parts| - 1]) + [sep] + parts[|parts| - 1]
  }

  lemma JoinSnoc(sep: char, init: seq<string>, x: string)
    requires |init| >= 1
    ensures Join(sep, init + [x]) == Join(sep, init) + [sep] + x
  {
    assert (init + [x])[..|init|] == init;
  }

  lemma JoinExtendLast(sep: char, t: seq<string>, c: char)
    requires |t| >= 1
    ensures Join(sep, t[..|t| - 1] + [t[|t| - 1] + [c]]) == Join(sep, t) + [c]
  {
    if |t| > 1 {
      var init := t[..|t| - 1];
      JoinSnoc(sep, init, t[|t| - 1] + [c]);
      JoinSnoc(sep, init, t[|t| - 1]);
      assert t == init + [t[|t| - 1]];
    }
  }

  /** explode is undone by implode with the same separator. */
  lemma {:induction false} ExplodeJoin(sep: char, s: string)
    ensures Join(sep, Explode(sep, s)) == s
    decreases |s|
  {
    if s != [] {
      var s' := s[..|s| - 1];
      var t := Explode(sep, s');
      ExplodeJoin(sep, s');
      assert s == s' + [s[|s| - 1]];
      if s[|s| - 1] == sep {
        assert Explode(sep, s) == t + [""];
        JoinSnoc(sep, t, "");
      } else {
        assert Explode(sep, s) == t[..|t| - 1] + [t[|t| - 1] + [s[|s| - 1]]];
        JoinExtendLast(sep, t, s[|s| - 1]);
      }
    }
  }

  /** str_replace($needle, '', $s): every occurrence, scanning left to right, is removed. */
  function RemoveAll(s: string, needle: string): (r: string)
    requires needle != []
    ensures |r| <= |s|
    decreases |s|
  {
    if |s| < |needle| then s
    else if s[..|needle|] == needle then RemoveAll(s[|needle|..], needle)
    else [s[0]] + RemoveAll(s[1..], needle)
  }

  /** str_replace leaves its subject unchanged exactly when the needle does not occur in it. */
  lemma {:induction false} RemoveAllUnchanged(s: string, needle: string)
    requires needle != []
    ensures RemoveAll(s, needle) == s <==> forall j: nat :: !OccursAt(s, needle, j)
    decreases |s|
  {
    if |s| < |needle| {
    } else if s[..|needle|] == needle {
      assert OccursAt(s, needle, 0);
      assert |RemoveAll(s[|needle|..], needle)| < |s|;
    } else {
      assert !OccursAt(s, needle, 0);
      RemoveAllUnchanged(s[1..], needle);
      RemoveAllSkip(s, needle);
      NoneAfterHead(s, needle);
      ConsCancel(s[0], RemoveAll(s[1..], needle), s[1..]);
      assert s == [s[0]] + s[1..];
    }
  }

  /** Without an occurrence at 0, `s` has no occurrence exactly when `s[1..]` has none. */
  lemma NoneAfterHead(s: string, needle: string)
    requires s != [] && !OccursAt(s, needle, 0)
    ensures (forall j: nat :: !OccursAt(s, needle, j)) <==> (forall j: nat :: !OccursAt(s[1..], needle, j))
  {
    forall j: nat ensures OccursAt(s[1..], needle, j) <==> OccursAt(s, needle, j + 1) {
      OccursShift(s, needle, j);
    }
    assert forall j: nat :: OccursAt(s, needle, j) ==> j == 0 || OccursAt(s[1..], needle, j - 1);
  }

  /** A common first element cancels. */
  lemma ConsCancel<T>(c: T, a: seq<T>, b: seq<T>)
    ensures [c] + a == [c] + b <==> a == b
  {
    if [c] + a == [c] + b {
      assert a == ([c] + a)[1..] && b == ([c] + b)[1..];
    }
  }

  /**
   * What str_replace leaves: the text before the first occurrence strpos
   * finds, then the rest after that occurrence with its own occurrences removed.
   */
  lemma RemoveAllFound(s: string, needle: string, k: nat)
    requires needle != [] && FindFrom(s, needle, 0) == Some(k)
    ensures RemoveAll(s, needle) == s[..k] + RemoveAll(s[k + |needle|..], needle)
  {
    RemoveAllAt(s, needle, k);
  }

  /** The decomposition at an occurrence `k` with none before it. */
  lemma {:induction false} RemoveAllAt(s: string, needle: string, k: nat)
    requires needle != [] && OccursAt(s, needle, k)
    requires forall j: nat :: j < k ==> !OccursAt(s, needle, j)
    ensures RemoveAll(s, needle) == s[..k] + RemoveAll(s[k + |needle|..], needle)
    decreases k, 1
  {
    if k == 0 {
      RemoveAllFirst(s, needle, k);
    } else {
      RemoveAllPast(s, needle, k);
    }
  }

  /** The base of the decomposition: an occurrence at the very start is dropped. */
  lemma RemoveAllFirst(s: string, needle: string, k: nat)
    requires needle != [] && k == 0 && OccursAt(s, needle, k)
    ensures RemoveAll(s, needle) == s[..k] + RemoveAll(s[k + |needle|..], needle)
  {
    assert s[..|needle|] == needle;
    assert s[..k] == [];
  }

  /** One step of the decomposition: `s[0]` is kept and the rest decomposes at `k - 1`. */
  lemma {:induction false} RemoveAllPast(s: string, needle: string, k: nat)
    requires needle != [] && 0 < k && OccursAt(s, needle, k)
    requires forall j: nat :: j < k ==> !OccursAt(s, needle, j)
    ensures RemoveAll(s, needle) == s[..k] + RemoveAll(s[k + |needle|..], needle)
    decreases k, 0
  {
    NoneBeforeShift(s, needle, k);
    RemoveAllAt(s[1..], needle, k - 1);
    var t, rest := s[1..], RemoveAll(s[k + |needle|..], needle);
    assert !OccursAt(s, needle, 0);
    RemoveAllSkip(s, needle);
    DropShift(s, k + |needle|);
    TakeShift(s, k);
    AppendAssoc([s[0]], t[..k - 1], rest);
  }

  /** Occurrences of `needle` before `k` in `s` shift one place left in `s[1..]`. */
  lemma NoneBeforeShift(s: string, needle: string, k: nat)
    requires 0 < k && OccursAt(s, needle, k)
    requires forall j: nat :: j < k ==> !OccursAt(s, needle, j)
    ensures OccursAt(s[1..], needle, k - 1)
    ensures forall j: nat :: j < k - 1 ==> !OccursAt(s[1..], needle, j)
  {
    OccursShift(s, needle, k - 1);
    forall j: nat | j < k - 1 ensures !OccursAt(s[1..], needle, j) {
      OccursShift(s, needle, j);
    }
  }

  /** Dropping the first element, then `m - 1` more, drops `m`. */
  lemma DropShift<T>(s: seq<T>, m: nat)
    requires 0 < m <= |s|
    ensures s[1..][m - 1..] == s[m..]
  {
  }

  /** The first `k` elements are the head followed by `k - 1` of the tail. */
  lemma TakeShift<T>(s: seq<T>, k: nat)
    requires 0 < k <= |s|
    ensures s[..k] == [s[0]] + s[1..][..k - 1]
  {
  }

  /** A first character that starts no occurrence is kept. */
  lemma RemoveAllSkip(s: string, needle: string)
    requires needle != [] && |needle| <= |s| && !OccursAt(s, needle, 0)
    ensures RemoveAll(s, needle) == [s[0]] + RemoveAll(s[1..], needle)
  {
    assert s[..|needle|] != needle;
  }

  /** An occurrence one place further in `s` is an occurrence in `s` without its first character. */
  lemma OccursShift(s: string, needle: string, j: nat)
    requires s != []
    ensures OccursAt(s[1..], needle, j) <==> OccursAt(s, needle, j + 1)
  {
    if j + 1 + |needle| <= |s| {
      assert s[1..][j..j + |needle|] == s[j + 1..j + 1 + |needle|];
    }
  }
}
