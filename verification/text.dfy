/**
 Character and string helpers shared by the whole model: the C-locale
 character classes, ASCII case folding, `std::string::find`, the
 lexicographic `std::string` order, `std::stoi` and `std::to_string`.

 A `char` of the model stands for one byte of a `std::string`.
 */
module Text {

  datatype Option<+T> = None | Some(value: T)

  /** True when every character of `s` fits in one byte. */
  predicate IsByteString(s: string) {
    forall i :: 0 <= i < |s| ==> s[i] as int < 256
  }

  // ---------------------------------------------------------------------
  // C-locale character classes

  predicate IsDigit(c: char) { '0' <= c <= '9' }

  predicate IsUpperAlpha(c: char) { 'A' <= c <= 'Z' }

  predicate IsLowerAlpha(c: char) { 'a' <= c <= 'z' }

  /** `isalnum` in the "C" locale. */
  predicate IsAlnum(c: char) { IsDigit(c) || IsUpperAlpha(c) || IsLowerAlpha(c) }

  /** `isspace` in the "C" locale: space, tab, newline, vertical tab, form feed, return. */
  predicate IsSpace(c: char) { c == ' ' || 9 <= c as int <= 13 }

  predicate AllDigits(s: string) {
    forall i :: 0 <= i < |s| ==> IsDigit(s[i])
  }

  function DigitValue(c: char): (d: nat)
    requires IsDigit(c)
    ensures d < 10
  {
    c as int - '0' as int
  }

  function DigitChar(d: nat): (c: char)
    requires d < 10
    ensures IsDigit(c) && DigitValue(c) == d
  {
    (d + '0' as int) as char
  }

  // ---------------------------------------------------------------------
  // ASCII case folding (`::tolower` in the "C" locale)

  function ToLowerChar(c: char): (r: char)
    ensures IsUpperAlpha(c) ==> IsLowerAlpha(r) && r as int == c as int + 32
    ensures !IsUpperAlpha(c) ==> r == c
  {
    if IsUpperAlpha(c) then (c as int + 32) as char else c
  }

  /** The whole string passed through `::tolower`, as `std::transform` does. */
  function Lower(s: string): (r: string)
    ensures |r| == |s|
    ensures forall i :: 0 <= i < |s| ==> r[i] == ToLowerChar(s[i])
  {
    seq(|s|, i requires 0 <= i < |s| => ToLowerChar(s[i]))
  }

  /** `a` and `b` differ at most in the case of ASCII letters. */
  predicate SameIgnoringCase(a: string, b: string) {
    |a| == |b| && forall i :: 0 <= i < |a| ==> ToLowerChar(a[i]) == ToLowerChar(b[i])
  }

  // ---------------------------------------------------------------------
  // Substring search (`std::string::find`)

  /** `needle` occurs in `hay` starting at index `i`. */
  predicate OccursAt(hay: string, needle: string, i: int) {
    0 <= i && i + |needle| <= |hay| && hay[i..i + |needle|] == needle
  }

  ghost predicate Contains(hay: string, needle: string) {
    exists i :: OccursAt(hay, needle, i)
  }

  /** First occurrence of `needle` in `hay` at or after `from`; `None` plays `npos`. */
  function FindFrom(hay: string, needle: string, from: nat): (r: Option<nat>)
    ensures r.Some? ==> from <= r.value && OccursAt(hay, needle, r.value)
    ensures r.Some? ==> forall j :: from <= j < r.value ==> !OccursAt(hay, needle, j)
    ensures r.None? ==> forall j :: from <= j ==> !OccursAt(hay, needle, j)
    decreases |hay| - from
  {
    if from + |needle| > |hay| then None
    else if hay[from..from + |needle|] == needle then Some(from)
    else FindFrom(hay, needle, from + 1)
  }

  /** `hay.find(needle)`: the first index where `needle` occurs. */
  function Find(hay: string, needle: string): (r: Option<nat>)
    ensures r.Some? <==> Contains(hay, needle)
    ensures r.Some? ==> OccursAt(hay, needle, r.value)
    ensures r.Some? ==> forall j :: 0 <= j < r.value ==> !OccursAt(hay, needle, j)
  {
    FindFrom(hay, needle, 0)
  }

  // ---------------------------------------------------------------------
  // Lexicographic order of `std::string` (`operator<`)

  /** `a < b` on `std::string`: bytes compared as unsigned, a proper prefix comes first. */
  predicate LexLess(a: string, b: string)
    decreases |a|
  {
    if |a| == 0 then |b| > 0
    else if |b| == 0 then false
    else if a[0] != b[0] then a[0] < b[0]
    else LexLess(a[1..], b[1..])
  }

  predicate LexLessEq(a: string, b: string) {
    a == b || LexLess(a, b)
  }

  lemma {:induction false} LexLessIrreflexive(a: string)
    ensures !LexLess(a, a)
    decreases |a|
  {
    if |a| > 0 {
      LexLessIrreflexive(a[1..]);
    }
  }

  lemma {:induction false} LexLessTransitive(a: string, b: string, c: string)
    requires LexLess(a, b) && LexLess(b, c)
    ensures LexLess(a, c)
    decreases |a|
  {
    if |a| > 0 && |b| > 0 && |c| > 0 && a[0] == b[0] && b[0] == c[0] {
      LexLessTransitive(a[1..], b[1..], c[1..]);
    }
  }

  /** Any two different strings are ordered one way or the other. */
  lemma {:induction false} LexLessTotal(a: string, b: string)
    requires a != b
    ensures LexLess(a, b) || LexLess(b, a)
    decreases |a|
  {
    if |a| > 0 && |b| > 0 && a[0] == b[0] {
      assert a == [a[0]] + a[1..] && b == [b[0]] + b[1..];
      LexLessTotal(a[1..], b[1..]);
    }
  }

  lemma LexLessAsymmetric(a: string, b: string)
    requires LexLess(a, b)
    ensures !LexLess(b, a)
  {
    if LexLess(b, a) {
      LexLessTransitive(a, b, a);
      LexLessIrreflexive(a);
    }
  }

  /** Whatever `x` is, `a < b` puts `x` after `a` or before `b`. */
  lemma LexLessSplit(a: string, b: string, x: string)
    requires LexLess(a, b)
    ensures LexLess(a, x) || LexLess(x, b)
  {
    if x != a && !LexLess(a, x) {
      LexLessTotal(a, x);
      LexLessTransitive(x, a, b);
    }
  }

  // ---------------------------------------------------------------------
  // Decimal numerals

  /** Value of a run of decimal digits, most significant first. */
  function DigitsValue(ds: string): nat
    requires AllDigits(ds)
    decreases |ds|
  {
    if |ds| == 0 then 0
    else DigitsValue(ds[..|ds| - 1]) * 10 + DigitValue(ds[|ds| - 1])
  }

  function Pow10(n: nat): (p: nat)
    ensures p >= 1
  {
    if n == 0 then 1 else 10 * Pow10(n - 1)
  }

  /** A run of `n` digits is worth less than `10^n`. */
  lemma {:induction false} DigitsValueBound(ds: string)
    requires AllDigits(ds)
    ensures DigitsValue(ds) < Pow10(|ds|)
    decreases |ds|
  {
    if |ds| > 0 {
      DigitsValueBound(ds[..|ds| - 1]);
    }
  }

  /** `std::to_string` of an unsigned count. */
  function NatToDecimal(n: nat): (r: string)
    ensures |r| > 0 && AllDigits(r)
    ensures DigitsValue(r) == n
    ensures |r| > 1 ==> r[0] != '0'
    decreases n
  {
    if n < 10 then [DigitChar(n)]
    else
      var front := NatToDecimal(n / 10);
      var r := front + [DigitChar(n % 10)];
      assert r[..|r| - 1] == front;
      r
  }

  // ---------------------------------------------------------------------
  // `std::stoi`

  /** What `std::stoi` does with a string: a value, or one of its two exceptions. */
  datatype IntParse = Parsed(n: int) | InvalidArgument | OutOfRange

  const IntMin: int := -0x8000_0000
  const IntMax: int := 0x7FFF_FFFF

  /** Drops the leading white space that `strtol` skips. */
  function SkipSpace(s: string): (r: string)
    ensures |r| <= |s| && r == s[|s| - |r|..]
    ensures |r| > 0 ==> !IsSpace(r[0])
    ensures forall i :: 0 <= i < |s| - |r| ==> IsSpace(s[i])
    decreases |s|
  {
    if |s| > 0 && IsSpace(s[0]) then SkipSpace(s[1..]) else s
  }

  /** The longest prefix of `s` made of decimal digits. */
  function LeadingDigits(s: string): (r: string)
    ensures |r| <= |s| && r == s[..|r|] && AllDigits(r)
    ensures |r| < |s| ==> !IsDigit(s[|r|])
    decreases |s|
  {
    if |s| > 0 && IsDigit(s[0]) then
      var rest := LeadingDigits(s[1..]);
      assert ([s[0]] + rest)[1..] == rest;
      [s[0]] + rest
    else []
  }

  /** What `std::stoi` reads past the white space and an optional sign. */
  function UnsignedPart(s: string): (u: string)
    ensures |u| <= |s|
    ensures |u| == |s| ==> u == s
  {
    var t := SkipSpace(s);
    if |t| > 0 && (t[0] == '-' || t[0] == '+') then t[1..] else t
  }

  /** Whether the sign `std::stoi` reads is a minus. */
  predicate ReadsMinus(s: string) {
    var t := SkipSpace(s);
    |t| > 0 && t[0] == '-'
  }

  /** The digit run `std::stoi` converts. */
  function StoiDigits(s: string): (ds: string)
    ensures AllDigits(ds) && |ds| <= |s|
    ensures |ds| == |s| ==> ds == s
  {
    var u := UnsignedPart(s);
    var ds := LeadingDigits(u);
    assert |ds| == |s| ==> ds == u[..|u|];
    ds
  }

  /**
   `std::stoi(s)`: white space, an optional sign, then at least one digit;
   the text after the digits is ignored. No digit gives `invalid_argument`,
   a value outside the 32-bit `int` range gives `out_of_range`.
   */
  function Stoi(s: string): (r: IntParse)
    ensures r.InvalidArgument? <==> |StoiDigits(s)| == 0
    ensures r.Parsed? ==> r.n == (if ReadsMinus(s) then -(DigitsValue(StoiDigits(s)) as int) else DigitsValue(StoiDigits(s)))
  {
    var ds := StoiDigits(s);
    if |ds| == 0 then InvalidArgument
    else
      var magnitude: int := DigitsValue(ds);
      var v := if ReadsMinus(s) then -magnitude else magnitude;
      if IntMin <= v <= IntMax then Parsed(v) else OutOfRange
  }

  /** A plain numeral that fits in an `int` is read back as its value. */
  lemma StoiOfDigits(ds: string)
    requires |ds| > 0 && AllDigits(ds) && DigitsValue(ds) <= IntMax
    ensures Stoi(ds) == Parsed(DigitsValue(ds))
  {
    assert !IsSpace(ds[0]);
    assert SkipSpace(ds) == ds;
    assert ds + [] == ds;
    LeadingDigitsOfDigits(ds, []);
    assert LeadingDigits(ds) == ds;
  }

  /** The digit run of `ds + rest` is `ds` when `rest` does not start with a digit. */
  lemma {:induction false} LeadingDigitsOfDigits(ds: string, rest: string)
    requires AllDigits(ds)
    requires |rest| == 0 || !IsDigit(rest[0])
    ensures LeadingDigits(ds + rest) == ds
    decreases |ds|
  {
    if |ds| > 0 {
      assert (ds + rest)[1..] == ds[1..] + rest;
      LeadingDigitsOfDigits(ds[1..], rest);
      assert ds == [ds[0]] + ds[1..];
    } else {
      assert ds + rest == rest;
    }
  }
}
