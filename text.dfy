/**
 * String primitives of the Python runtime that the report engine relies on:
 * `str.lower`, the `in` substring test, `str.replace`, `str.split`, `str(n)`,
 * `%d`-style zero padding and the ordering of `str` values.
 */
module Text {
  import opened Seqs

  predicate IsUpperLatin(c: char) { 'A' <= c <= 'Z' }

  predicate IsLowerLatin(c: char) { 'a' <= c <= 'z' }

  predicate IsDigit(c: char) { '0' <= c <= '9' }

  /** A capital of the Cyrillic block: Ѐ..Џ and А..Я. */
  predicate IsUpperCyrillic(c: char) { 'Ѐ' <= c <= 'Я' }

  /**
   * `str.lower` on one character, for the Latin and the Cyrillic alphabets:
   * a capital becomes the small letter at the same place in its alphabet,
   * and every other character is left alone.
   */
  function LowerChar(c: char): (r: char)
    ensures IsUpperLatin(c) ==> IsLowerLatin(r) && r as int - 'a' as int == c as int - 'A' as int
    ensures 'А' <= c <= 'Я' ==> 'а' <= r <= 'я' && r as int - 'а' as int == c as int - 'А' as int
    ensures 'Ѐ' <= c <= 'Џ' ==> 'ѐ' <= r <= 'џ' && r as int - 'ѐ' as int == c as int - 'Ѐ' as int
    ensures !IsUpperLatin(c) && !IsUpperCyrillic(c) ==> r == c
    ensures !IsUpperLatin(r) && !IsUpperCyrillic(r)
  {
    if IsUpperLatin(c) then (c as int + 32) as char
    else if 'А' <= c <= 'Я' then (c as int + 32) as char  // А..Я
    else if 'Ѐ' <= c <= 'Џ' then (c as int + 80) as char  // Ѐ..Џ
    else c
  }

  /** No Latin or Cyrillic capital occurs in `s`. */
  predicate IsLowered(s: string) {
    forall i :: 0 <= i < |s| ==> !IsUpperLatin(s[i]) && !IsUpperCyrillic(s[i])
  }

  /** `str.lower`: the text with every capital lowered in place and no capital left. */
  function Lower(s: string): (r: string)
    ensures |r| == |s|
    ensures forall i :: 0 <= i < |s| ==> r[i] == LowerChar(s[i])
    ensures IsLowered(r)
  {
    seq(|s|, i requires 0 <= i < |s| => LowerChar(s[i]))
  }

  /** Lowering changes nothing in a text without capitals, so lowering twice is lowering once. */
  lemma LowerKeepsLowered(s: string)
    ensures IsLowered(s) <==> Lower(s) == s
    ensures Lower(Lower(s)) == Lower(s)
  {
    if Lower(s) == s {
      assert IsLowered(Lower(s));
    }
  }

  predicate OccursAt(s: string, k: string, i: nat)
    requires i + |k| <= |s|
  {
    s[i..i + |k|] == k
  }

  /** Python's `k in s` for two strings. */
  predicate Contains(s: string, k: string) {
    exists i: nat :: i + |k| <= |s| && OccursAt(s, k, i)
  }

  /**
   * Python's `s.replace(w, r)`: scans from the left and replaces every
   * non-overlapping occurrence of `w`.
   */
  function Replace(s: string, w: string, r: string): (out: string)
    requires w != []
    ensures w == r ==> out == s
    ensures |s| < |w| ==> out == s
    decreases |s|
  {
    if |s| < |w| then s
    else if s[..|w|] == w then r + Replace(s[|w|..], w, r)
    else [s[0]] + Replace(s[1..], w, r)
  }

  /** With no capital Latin letter in `s`, a `w` that starts with one never occurs. */
  lemma {:induction false} ReplaceWithoutCapital(s: string, w: string, r: string)
    requires w != [] && IsUpperLatin(w[0])
    requires forall j :: 0 <= j < |s| ==> !IsUpperLatin(s[j])
    ensures Replace(s, w, r) == s
    decreases |s|
  {
    if |w| <= |s| {
      assert s[..|w|][0] == s[0];
      ReplaceWithoutCapital(s[1..], w, r);
      assert [s[0]] + s[1..] == s;
    }
  }

  /** A prefix without capital Latin letters is copied as it is. */
  lemma {:induction false} ReplaceSkipsPrefix(s: string, w: string, r: string, p: nat)
    requires w != [] && IsUpperLatin(w[0])
    requires p <= |s|
    requires forall j :: 0 <= j < p ==> !IsUpperLatin(s[j])
    ensures Replace(s, w, r) == s[..p] + Replace(s[p..], w, r)
    decreases p
  {
    if p > 0 {
      if |w| <= |s| {
        assert s[..|w|][0] == s[0];
      }
      ReplaceSkipsPrefix(s[1..], w, r, p - 1);
      assert s[1..][p - 1..] == s[p..];
      assert [s[0]] + s[1..][..p - 1] == s[..p];
      AppendAssociates([s[0]], s[1..][..p - 1], Replace(s[p..], w, r));
    }
  }

  /**
   * When `w` starts with a capital Latin letter and `s` has such a letter at
   * most at position `p`, replacing `w` in `s` changes at most the occurrence
   * that starts at `p`.
   */
  lemma ReplaceAtOnlyCapital(s: string, w: string, r: string, p: nat)
    requires w != [] && IsUpperLatin(w[0])
    requires p <= |s|
    requires forall j :: 0 <= j < |s| && j != p ==> !IsUpperLatin(s[j])
    ensures Replace(s, w, r) ==
      if p + |w| <= |s| && s[p..p + |w|] == w then s[..p] + r + s[p + |w|..] else s
  {
    ReplaceSkipsPrefix(s, w, r, p);
    var tail := s[p..];
    if p + |w| <= |s| && s[p..p + |w|] == w {
      assert tail[..|w|] == w;
      ReplaceWithoutCapital(tail[|w|..], w, r);
      assert tail[|w|..] == s[p + |w|..];
      AppendAssociates(s[..p], r, s[p + |w|..]);
    } else if |tail| < |w| {
      assert s[..p] + tail == s;
    } else {
      assert tail[..|w|] != w;
      ReplaceWithoutCapital(tail[1..], w, r);
      assert [tail[0]] + tail[1..] == tail;
      assert s[..p] + tail == s;
    }
  }

  /** Python's `s.split(sep)` for a one-character separator. */
  function Split(s: string, sep: char): (parts: seq<string>)
    ensures |parts| >= 1
  {
    if s == [] then [[]]
    else if s[0] == sep then [[]] + Split(s[1..], sep)
    else
      var rest := Split(s[1..], sep);
      [[s[0]] + rest[0]] + rest[1..]
  }

  lemma {:induction false} SplitNoSeparator(a: string, sep: char)
    requires sep !in a
    ensures Split(a, sep) == [a]
  {
    if a != [] {
      SplitNoSeparator(a[1..], sep);
      assert [a[0]] + a[1..] == a;
    }
  }

  lemma {:induction false} SplitAtSeparator(a: string, sep: char, b: string)
    requires sep !in a
    ensures Split(a + [sep] + b, sep) == [a] + Split(b, sep)
  {
    if a == [] {
      assert a + [sep] + b == [sep] + b;
      assert ([sep] + b)[1..] == b;
    } else {
      var s := a + [sep] + b;
      assert s[0] == a[0] && s[1..] == a[1..] + [sep] + b;
      SplitAtSeparator(a[1..], sep, b);
      assert [a[0]] + a[1..] == a;
    }
  }

  /** The value of one decimal digit. */
  function DigitValue(c: char): nat
    requires IsDigit(c)
  {
    c as int - '0' as int
  }

  function DigitChar(d: int): (c: char)
    requires 0 <= d <= 9
    ensures IsDigit(c) && DigitValue(c) == d
  {
    ('0' as int + d) as char
  }

  /** The number a string of decimal digits spells, most significant digit first. */
  function DecimalValue(s: string): nat
    requires forall i :: 0 <= i < |s| ==> IsDigit(s[i])
  {
    if s == [] then 0 else 10 * DecimalValue(s[..|s| - 1]) + DigitValue(s[|s| - 1])
  }

  /** Python's `str(n)` for a non-negative integer. */
  function NatToString(n: nat): (s: string)
    ensures |s| >= 1
    ensures forall i :: 0 <= i < |s| ==> IsDigit(s[i])
  {
    if n < 10 then [DigitChar(n)] else NatToString(n / 10) + [DigitChar(n % 10)]
  }

  /** `str(n)` spells the value `n` in decimal, with no leading zero. */
  lemma {:induction false} NatToStringValue(n: nat)
    ensures DecimalValue(NatToString(n)) == n
    ensures NatToString(n)[0] == '0' <==> n == 0
  {
    if n >= 10 {
      NatToStringValue(n / 10);
      var t := NatToString(n / 10);
      assert NatToString(n)[..|t|] == t;
    }
  }

  /** `%d`, `%H` and `%M` of `strftime`: `n` as exactly two digits, zero padded. */
  function TwoDigits(n: nat): (s: string)
    requires n < 100
    ensures |s| == 2 && IsDigit(s[0]) && IsDigit(s[1])
    ensures DecimalValue(s) == n
  {
    var tens, ones := DigitChar(n / 10), DigitChar(n % 10);
    assert [tens, ones][..1] == [tens];
    assert DecimalValue([tens]) == DigitValue(tens) by { assert [tens][..0] == []; }
    [tens, ones]
  }

  /** Python's `a <= b` on `str`: lexicographic by code point, a prefix first. */
  predicate StrLe(a: string, b: string) {
    if a == [] then true
    else if b == [] then false
    else if a[0] != b[0] then a[0] < b[0]
    else StrLe(a[1..], b[1..])
  }

  lemma {:induction false} StrLeTotal(a: string, b: string)
    ensures StrLe(a, b) || StrLe(b, a)
  {
    if a != [] && b != [] && a[0] == b[0] {
      StrLeTotal(a[1..], b[1..]);
    }
  }

  lemma {:induction false} StrLeTransitive(a: string, b: string, c: string)
    requires StrLe(a, b) && StrLe(b, c)
    ensures StrLe(a, c)
  {
    if a != [] && b != [] && c != [] && a[0] == b[0] && b[0] == c[0] {
      StrLeTransitive(a[1..], b[1..], c[1..]);
    }
  }

  lemma {:induction false} StrLeAntisymmetric(a: string, b: string)
    requires StrLe(a, b) && StrLe(b, a)
    ensures a == b
  {
    if a != [] && b != [] {
      StrLeAntisymmetric(a[1..], b[1..]);
      assert a == [a[0]] + a[1..] && b == [b[0]] + b[1..];
    }
  }
}
