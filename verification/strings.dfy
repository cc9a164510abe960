/** The .NET string operations the helpers rely on, on `string` = `seq<char>`:
    `String.Split` on one separator, `Trim`, ordinal case-insensitive
    equality, ordinal `Contains`, and the decimal form of an `Int32`. */
module Strings {
  import opened Wrappers

  /** `char.IsWhiteSpace`: the Unicode separators (Zs, Zl, Zp) and the control
      characters U+0009..U+000D and U+0085. */
  predicate IsWhiteSpace(c: char) {
    c == ' ' || '\t' <= c <= '\r' || c == '\U{85}' || c == '\U{A0}' || c == '\U{1680}'
    || '\U{2000}' <= c <= '\U{200A}' || c == '\U{2028}' || c == '\U{2029}'
    || c == '\U{202F}' || c == '\U{205F}' || c == '\U{3000}'
  }

  predicate AllWhiteSpace(s: string) {
    forall i :: 0 <= i < |s| ==> IsWhiteSpace(s[i])
  }

  /** `String.TrimStart()`: drops the longest all-white-space prefix. */
  function TrimStart(s: string): (r: string)
    ensures |r| <= |s| && r == s[|s| - |r|..]
    ensures forall k :: 0 <= k < |s| - |r| ==> IsWhiteSpace(s[k])
    ensures r == [] || !IsWhiteSpace(r[0])
  {
    if s != [] && IsWhiteSpace(s[0]) then TrimStart(s[1..]) else s
  }

  /** `String.TrimEnd()`: drops the longest all-white-space suffix. */
  function TrimEnd(s: string): (r: string)
    ensures |r| <= |s| && r == s[..|r|]
    ensures forall k :: |r| <= k < |s| ==> IsWhiteSpace(s[k])
    ensures r == [] || !IsWhiteSpace(r[|r| - 1])
  {
    if s != [] && IsWhiteSpace(s[|s| - 1]) then TrimEnd(s[..|s| - 1]) else s
  }

  /** `r` is `s` with white space cut away: `i` characters before it, the
      rest after it. */
  ghost predicate TrimmedAt(s: string, r: string, i: int) {
    && 0 <= i <= |s| - |r| && r == s[i..i + |r|]
    && (forall k :: 0 <= k < i ==> IsWhiteSpace(s[k]))
    && (forall k :: i + |r| <= k < |s| ==> IsWhiteSpace(s[k]))
  }

  /** Neither starts nor ends with white space. */
  predicate Trimmed(s: string) {
    s == [] || (!IsWhiteSpace(s[0]) && !IsWhiteSpace(s[|s| - 1]))
  }

  /** `String.Trim()`: the result is a slice of `s` with only white space cut
      away on either side, and it neither starts nor ends with white space. */
  function Trim(s: string): (r: string)
    ensures exists i :: TrimmedAt(s, r, i)
    ensures r == [] || (!IsWhiteSpace(r[0]) && !IsWhiteSpace(r[|r| - 1]))
  {
    var t := TrimStart(s);
    var r := TrimEnd(t);
    TrimBothEnds(s, t, r);
    r
  }

  /** Every string in a list of trimmed strings is `Trimmed`. */
  lemma TrimmedAll(parts: seq<string>, names: seq<string>)
    requires |names| == |parts| && forall k :: 0 <= k < |parts| ==> names[k] == Trim(parts[k])
    ensures forall k :: 0 <= k < |names| ==> Trimmed(names[k])
  {
    forall k | 0 <= k < |names| ensures Trimmed(names[k]) {
      var r := Trim(parts[k]);
      assert r == [] || (!IsWhiteSpace(r[0]) && !IsWhiteSpace(r[|r| - 1]));
    }
  }

  /** Trimming the end of the trimmed start cuts only white space from `s`. */
  lemma TrimBothEnds(s: string, t: string, r: string)
    requires |t| <= |s| && t == s[|s| - |t|..] && forall k :: 0 <= k < |s| - |t| ==> IsWhiteSpace(s[k])
    requires |r| <= |t| && r == t[..|r|] && forall k :: |r| <= k < |t| ==> IsWhiteSpace(t[k])
    ensures TrimmedAt(s, r, |s| - |t|)
  {
    var i := |s| - |t|;
    forall k | i + |r| <= k < |s| ensures IsWhiteSpace(s[k]) {
      assert s[k] == t[k - i];
    }
  }

  /** Trimming yields the empty string exactly when the input is all white space. */
  lemma TrimEmptyIffWhiteSpace(s: string)
    ensures Trim(s) == [] <==> AllWhiteSpace(s)
  {
    var r := Trim(s);
    var i :| TrimmedAt(s, r, i);
    if r != [] {
      assert r[0] == s[i] && !IsWhiteSpace(s[i]);
    }
  }

  /** A string with no white space at either end is its own trimmed form. */
  lemma TrimUnchanged(s: string)
    requires s == [] || (!IsWhiteSpace(s[0]) && !IsWhiteSpace(s[|s| - 1]))
    ensures Trim(s) == s
  {
  }

  /** Leading white space does not reach the trimmed form. */
  lemma TrimLeadingWhiteSpace(c: char, s: string)
    requires IsWhiteSpace(c)
    ensures Trim([c] + s) == Trim(s)
  {
    assert ([c] + s)[1..] == s;
  }

  /** The inverse of `Split`: the parts glued back with the separator. */
  function Join(parts: seq<string>, sep: char): string
    requires |parts| > 0
  {
    if |parts| == 1 then parts[0] else parts[0] + [sep] + Join(parts[1..], sep)
  }

  /** `String.Split(sep)`: one part per separator occurrence plus one; empty
      parts are kept, so `""` splits into `[""]`. */
  function Split(s: string, sep: char): (parts: seq<string>)
    ensures |parts| > 0
  {
    if s == [] then [[]]
    else
      var rest := Split(s[1..], sep);
      if s[0] == sep then [[]] + rest
      else [[s[0]] + rest[0]] + rest[1..]
  }

  /** No part of a split holds the separator. */
  lemma {:induction false} SplitPartsFree(s: string, sep: char)
    ensures forall k :: 0 <= k < |Split(s, sep)| ==> sep !in Split(s, sep)[k]
  {
    if s != [] {
      SplitPartsFree(s[1..], sep);
      var rest := Split(s[1..], sep);
      if s[0] != sep {
        assert sep !in rest[0];
        assert sep !in [s[0]] + rest[0];
      }
    }
  }

  /** Splitting loses nothing: joining the parts gives back the input. */
  lemma {:induction false} SplitJoin(s: string, sep: char)
    ensures Join(Split(s, sep), sep) == s
  {
    if s != [] {
      var rest := Split(s[1..], sep);
      SplitJoin(s[1..], sep);
      if s[0] == sep {
        assert ([[]] + rest)[1..] == rest;
      } else {
        var parts := [[s[0]] + rest[0]] + rest[1..];
        if |rest| > 1 {
          assert parts[1..] == rest[1..];
        }
        assert s == [s[0]] + s[1..];
      }
    }
  }

  /** Joining parts free of the separator and splitting again gives the parts back. */
  lemma {:induction false} JoinSplit(parts: seq<string>, sep: char)
    requires |parts| > 0
    requires forall k :: 0 <= k < |parts| ==> sep !in parts[k]
    ensures Split(Join(parts, sep), sep) == parts
  {
    if |parts| == 1 {
      SplitNoSeparator(parts[0], sep);
    } else {
      JoinSplit(parts[1..], sep);
      SplitPrefix(parts[0], Join(parts[1..], sep), sep);
      assert parts == [parts[0]] + parts[1..];
    }
  }

  /** A string without the separator is one part. */
  lemma {:induction false} SplitNoSeparator(s: string, sep: char)
    requires sep !in s
    ensures Split(s, sep) == [s]
  {
    if s != [] {
      SplitNoSeparator(s[1..], sep);
      assert s == [s[0]] + s[1..];
    }
  }

  /** A separator-free head followed by the separator becomes the first part. */
  lemma {:induction false} SplitPrefix(head: string, tail: string, sep: char)
    requires sep !in head
    ensures Split(head + [sep] + tail, sep) == [head] + Split(tail, sep)
  {
    if head == [] {
      assert ([sep] + tail)[1..] == tail;
    } else {
      SplitPrefix(head[1..], tail, sep);
      assert (head + [sep] + tail)[1..] == head[1..] + [sep] + tail;
      assert head == [head[0]] + head[1..];
    }
  }

  /** Splitting at one separator splits the two sides independently. */
  lemma {:induction false} SplitAround(a: string, b: string, sep: char)
    ensures Split(a + [sep] + b, sep) == Split(a, sep) + Split(b, sep)
  {
    if a == [] {
      assert a + [sep] + b == [sep] + b;
      SplitCons(sep, b, sep);
    } else {
      SplitAround(a[1..], b, sep);
      SplitAroundStep(a[0], a[1..], b, sep);
      assert [a[0]] + a[1..] == a;
    }
  }

  /** The inductive step of `SplitAround`: one more leading character. */
  lemma SplitAroundStep(c: char, a: string, b: string, sep: char)
    requires Split(a + [sep] + b, sep) == Split(a, sep) + Split(b, sep)
    ensures Split([c] + a + [sep] + b, sep) == Split([c] + a, sep) + Split(b, sep)
  {
    assert [c] + a + [sep] + b == [c] + (a + [sep] + b);
    SplitCons(c, a + [sep] + b, sep);
    SplitCons(c, a, sep);
    var rest, right := Split(a, sep), Split(b, sep);
    if c == sep {
      ConsAppend([], rest, right);
    } else {
      AppendHeadTail(rest, right);
      ConsAppend([c] + rest[0], rest[1..], right);
    }
  }

  lemma ConsAppend<T>(x: T, s: seq<T>, t: seq<T>)
    ensures [x] + (s + t) == ([x] + s) + t
  {
  }

  lemma AppendHeadTail<T>(s: seq<T>, t: seq<T>)
    requires |s| > 0
    ensures (s + t)[0] == s[0] && (s + t)[1..] == s[1..] + t
  {
  }

  /** `Split` of a string with a known first character. */
  lemma SplitCons(c: char, s: string, sep: char)
    ensures Split([c] + s, sep)
            == if c == sep then [[]] + Split(s, sep)
               else [[c] + Split(s, sep)[0]] + Split(s, sep)[1..]
  {
    assert ([c] + s)[1..] == s;
  }

  /** The upper-case mapping used by `StringComparer.OrdinalIgnoreCase`,
      restricted to the ASCII letters. */
  function ToUpperOrdinal(c: char): char {
    if 'a' <= c <= 'z' then (c as int - 32) as char else c
  }

  /** `String.Equals(a, b, StringComparison.OrdinalIgnoreCase)`. */
  predicate EqualsIgnoreCase(a: string, b: string) {
    |a| == |b| && forall i :: 0 <= i < |a| ==> ToUpperOrdinal(a[i]) == ToUpperOrdinal(b[i])
  }

  /** `names.Contains(name, StringComparer.OrdinalIgnoreCase)`: a linear scan. */
  function ContainsIgnoreCase(names: seq<string>, name: string): (b: bool)
    ensures b <==> exists k :: 0 <= k < |names| && EqualsIgnoreCase(names[k], name)
  {
    if names == [] then false
    else EqualsIgnoreCase(names[0], name) || ContainsIgnoreCase(names[1..], name)
  }

  /** `t` occurs in `s` starting at index `i`. */
  predicate OccursAt(s: string, t: string, i: int) {
    0 <= i && i + |t| <= |s| && s[i..i + |t|] == t
  }

  /** `String.Contains(t)`: an ordinal substring search. */
  function Contains(s: string, t: string): (b: bool)
    ensures b <==> exists i :: OccursAt(s, t, i)
    decreases |s|
  {
    if |t| > |s| then false
    else if s[..|t|] == t then assert OccursAt(s, t, 0); true
    else
      OccursShift(s, t);
      Contains(s[1..], t)
  }

  /** Away from index 0, an occurrence in `s` is an occurrence in `s[1..]`. */
  lemma OccursShift(s: string, t: string)
    requires |t| <= |s| && s[..|t|] != t
    ensures (exists i :: OccursAt(s, t, i)) <==> (exists i :: OccursAt(s[1..], t, i))
  {
    if i :| OccursAt(s, t, i) {
      assert i != 0;
      assert s[1..][i - 1..i - 1 + |t|] == s[i..i + |t|];
      assert OccursAt(s[1..], t, i - 1);
    }
    if i :| OccursAt(s[1..], t, i) {
      assert s[i + 1..i + 1 + |t|] == s[1..][i..i + |t|];
      assert OccursAt(s, t, i + 1);
    }
  }

  predicate IsDigit(c: char) {
    '0' <= c <= '9'
  }

  predicate AllDigits(s: string) {
    forall i :: 0 <= i < |s| ==> IsDigit(s[i])
  }

  function DigitChar(d: nat): (c: char)
    requires d < 10
    ensures IsDigit(c) && c as int - '0' as int == d
  {
    ('0' as int + d) as char
  }

  /** Decimal digits without a leading zero, except for "0" itself. */
  predicate CanonicalDigits(s: string) {
    |s| > 0 && AllDigits(s) && (s[0] == '0' ==> |s| == 1)
  }

  /** The canonical decimal form of an `Int32`'s `ToString()`: canonical
      digits, with a `-` in front for a negative number (so never "-0"). */
  predicate CanonicalDecimal(s: string) {
    || CanonicalDigits(s)
    || (|s| > 1 && s[0] == '-' && CanonicalDigits(s[1..]) && s[1] != '0')
  }

  /** The decimal digits of `n`, most significant first, with no leading zero. */
  function Digits(n: nat): (s: string)
    ensures CanonicalDigits(s)
    ensures s[0] == '0' ==> n == 0
  {
    if n < 10 then [DigitChar(n)] else Digits(n / 10) + [DigitChar(n % 10)]
  }

  /** The number a string of decimal digits denotes. */
  function DigitsValue(s: string): nat
    requires AllDigits(s)
  {
    if s == [] then 0 else DigitsValue(s[..|s| - 1]) * 10 + (s[|s| - 1] as int - '0' as int)
  }

  /** `Int32.ToString()` in the invariant culture: an optional `-` and the digits. */
  function DecimalString(v: int): (r: string)
    ensures CanonicalDecimal(r)
    ensures r[0] == '-' <==> v < 0
  {
    if v < 0 then
      var d := Digits(-v);
      assert ("-" + d)[1..] == d;
      "-" + d
    else Digits(v)
  }

  /** `Int32.Parse` restricted to the canonical form `DecimalString` produces. */
  function ParseDecimal(s: string): Option<int> {
    if |s| > 0 && AllDigits(s) then Some(DigitsValue(s))
    else if |s| > 1 && s[0] == '-' && AllDigits(s[1..]) then
      var v: int := 0 - DigitsValue(s[1..]) as int;
      Some(v)
    else None
  }

  lemma {:induction false} DigitsRoundTrip(n: nat)
    ensures DigitsValue(Digits(n)) == n
  {
    if n >= 10 {
      DigitsRoundTrip(n / 10);
      var s := Digits(n / 10) + [DigitChar(n % 10)];
      assert s[..|s| - 1] == Digits(n / 10);
    }
  }

  /** A canonical digit string is the digits of the number it denotes. */
  lemma {:induction false} DigitsOfValue(s: string)
    requires CanonicalDigits(s)
    ensures Digits(DigitsValue(s)) == s
  {
    if |s| > 1 {
      var init, c := s[..|s| - 1], s[|s| - 1];
      assert init[0] == s[0] && s == init + [c];
      DigitsValuePositive(init);
      DigitsOfValue(init);
    }
  }

  /** Digits with a non-zero lead denote a positive number. */
  lemma {:induction false} DigitsValuePositive(s: string)
    requires |s| > 0 && AllDigits(s) && s[0] != '0'
    ensures DigitsValue(s) >= 1
  {
    if |s| > 1 {
      assert s[..|s| - 1][0] == s[0];
      DigitsValuePositive(s[..|s| - 1]);
    }
  }

  /** `DecimalString` is the only canonical decimal form of its number: a
      canonical string that parses to `v` is `DecimalString(v)`. */
  lemma DecimalStringUnique(s: string, v: int)
    requires CanonicalDecimal(s) && ParseDecimal(s) == Some(v)
    ensures s == DecimalString(v)
  {
    if CanonicalDigits(s) {
      DigitsOfValue(s);
    } else {
      var d := s[1..];
      DigitsOfValue(d);
      DigitsValuePositive(d);
      assert s == "-" + d;
    }
  }

  /** The decimal form of an integer determines it: parsing gives it back. */
  lemma DecimalRoundTrip(v: int)
    ensures ParseDecimal(DecimalString(v)) == Some(v)
  {
    if v < 0 {
      DigitsRoundTrip(-v);
      assert ("-" + Digits(-v))[1..] == Digits(-v);
    } else {
      DigitsRoundTrip(v);
    }
  }
}
