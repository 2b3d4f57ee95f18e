/** Decimal text for the countdown page: the MM:SS formatter, the clamp helper
    and the sanitiser that the duration field runs on every edit. */
module Text {

  predicate IsDigit(c: char) { '0' <= c <= '9' }

  predicate AllDigits(s: string) { forall i :: 0 <= i < |s| ==> IsDigit(s[i]) }

  function DigitChar(d: nat): (c: char)
    requires d < 10
    ensures IsDigit(c) && c as int - '0' as int == d
  {
    ('0' as int + d) as char
  }

  function DigitValue(c: char): (d: nat)
    requires IsDigit(c)
    ensures d < 10
  {
    c as int - '0' as int
  }

  /** String(n): the decimal text of a non-negative integer, most significant digit first. */
  function Decimal(n: nat): (s: string)
    ensures 1 <= |s| && AllDigits(s)
    decreases n
  {
    if n < 10 then [DigitChar(n)] else Decimal(n / 10) + [DigitChar(n % 10)]
  }

  /** The number a string of decimal digits denotes (parseInt(s, 10) on such a string). */
  function Value(s: string): nat
    requires AllDigits(s)
    decreases |s|
  {
    if s == [] then 0 else Value(s[..|s| - 1]) * 10 + DigitValue(s[|s| - 1])
  }

  /** Reading back the decimal text of n gives n. */
  lemma {:induction false} ValueOfDecimal(n: nat)
    ensures Value(Decimal(n)) == n
  {
    if n >= 10 {
      var d := Decimal(n / 10);
      assert Decimal(n) == d + [DigitChar(n % 10)];
      assert (d + [DigitChar(n % 10)])[..|d|] == d;
      ValueOfDecimal(n / 10);
    }
  }

  /** Decimal text has no leading zero, and has one digit below 10 and two below 100. */
  lemma {:induction false} DecimalShape(n: nat)
    ensures Decimal(n)[0] == '0' <==> n == 0
    ensures n < 10 ==> |Decimal(n)| == 1
    ensures 10 <= n < 100 ==> |Decimal(n)| == 2
  {
    if n >= 10 {
      DecimalShape(n / 10);
      assert Decimal(n)[0] == Decimal(n / 10)[0];
    }
  }

  /** A leading zero does not change the value of a digit string. */
  lemma {:induction false} ValueLeadingZero(s: string)
    requires AllDigits(s)
    ensures AllDigits("0" + s) && Value("0" + s) == Value(s)
    decreases |s|
  {
    var z := "0" + s;
    assert AllDigits(z) by {
      forall i | 0 <= i < |z| ensures IsDigit(z[i]) {
        if i > 0 { assert z[i] == s[i - 1]; }
      }
    }
    if s != [] {
      var init := s[..|s| - 1];
      assert z[..|z| - 1] == "0" + init;
      assert z[|z| - 1] == s[|s| - 1];
      ValueLeadingZero(init);
    }
  }

  /** String(x).padStart(2, "0") for a digit string x. */
  function Pad2(s: string): (r: string)
    requires AllDigits(s)
    ensures AllDigits(r) && |r| >= 2 && Value(r) == Value(s)
    ensures |s| <= 2 ==> |r| == 2
    ensures |s| >= 2 ==> r == s
  {
    ValueLeadingZero(s);
    if |s| >= 2 then s
    else (ValueLeadingZero("0" + s); if |s| == 1 then "0" + s else "0" + ("0" + s))
  }

  function Max(a: int, b: int): int { if a >= b then a else b }

  function Min(a: int, b: int): int { if a <= b then a else b }

  /** clamp(n, lo, hi) = Math.max(lo, Math.min(hi, n)). */
  function Clamp(n: int, lo: int, hi: int): (r: int)
    ensures r >= lo
    ensures lo <= hi ==> r <= hi
    ensures lo <= n <= hi ==> r == n
    ensures n < lo ==> r == lo
    ensures lo <= hi < n ==> r == hi
  {
    Max(lo, Min(hi, n))
  }

  /** fmt(s): "MM:SS" for max(0, s) seconds, each part padded to two digits. */
  function Fmt(s: int): string
  {
    var t := Max(0, s);
    Pad2(Decimal(t / 60)) + ":" + Pad2(Decimal(t % 60))
  }

  /** A padded part of fmt's text reads back as its number, and is two digits below 100. */
  lemma PaddedDecimal(n: nat)
    ensures var p := Pad2(Decimal(n)); AllDigits(p) && Value(p) == n && (n < 100 ==> |p| == 2)
  {
    DecimalShape(n);
    ValueOfDecimal(n);
  }

  /** The text fmt produces reads back as minutes and seconds that add up to
      max(0, s) seconds; the seconds part is two digits below 60, and below
      100 minutes the whole text is exactly "MM:SS". */
  lemma FmtReadsBack(s: int)
    ensures var r := Fmt(s); var k := |r| - 3;
      k >= 2 && r[k] == ':' && AllDigits(r[..k]) && AllDigits(r[k + 1..]) &&
      Value(r[..k]) * 60 + Value(r[k + 1..]) == Max(0, s) &&
      Value(r[k + 1..]) < 60 &&
      (s < 6000 ==> |r| == 5)
  {
    var t := Max(0, s);
    var q, m := t / 60, t % 60;
    assert q * 60 + m == t && 0 <= m < 60;
    assert s < 6000 ==> q < 100;
    var mm := Pad2(Decimal(q));
    var ss := Pad2(Decimal(m));
    PaddedDecimal(q);
    PaddedDecimal(m);
    SplitAtColon(mm, ss);
  }

  lemma SplitAtColon(a: string, b: string)
    requires |b| == 2
    ensures var r := a + ":" + b; var k := |r| - 3;
      k == |a| && r[..k] == a && r[k] == ':' && r[k + 1..] == b
  {
    var r := a + ":" + b;
    assert r[..|a|] == a;
    assert r[|a| + 1..] == b;
  }

  /** The digits of a string, in order, with everything else dropped (replace(/\D+/g, "")). */
  function KeepDigits(s: string): (r: string)
    ensures AllDigits(r) && |r| <= |s|
  {
    if s == [] then [] else (if IsDigit(s[0]) then [s[0]] else []) + KeepDigits(s[1..])
  }

  /** The digits of a concatenation are the digits of each part, and a single
      character is kept exactly when it is a digit. */
  lemma {:induction false} KeepDigitsAppend(a: string, b: string)
    ensures KeepDigits(a + b) == KeepDigits(a) + KeepDigits(b)
    ensures |a| == 1 ==> KeepDigits(a) == (if IsDigit(a[0]) then a else [])
    decreases |a|
  {
    if a == [] {
      assert a + b == b;
    } else {
      assert (a + b)[0] == a[0];
      assert (a + b)[1..] == a[1..] + b;
      KeepDigitsAppend(a[1..], b);
      if |a| == 1 {
        assert a[1..] == [];
      }
    }
  }

  /** Nothing is left exactly when the string has no digit at all. */
  lemma {:induction false} KeepDigitsEmptyIff(s: string)
    ensures KeepDigits(s) == [] <==> forall i :: 0 <= i < |s| ==> !IsDigit(s[i])
    decreases |s|
  {
    if s != [] {
      var rest := s[1..];
      KeepDigitsEmptyIff(rest);
      assert forall i :: 1 <= i < |s| ==> s[i] == rest[i - 1];
      if !IsDigit(s[0]) && KeepDigits(rest) != [] {
        var j :| 0 <= j < |rest| && IsDigit(rest[j]);
        assert s[j + 1] == rest[j];
      }
    }
  }

  lemma {:induction false} KeepDigitsOfDigits(s: string)
    requires AllDigits(s)
    ensures KeepDigits(s) == s
  {
    if s != [] {
      KeepDigitsOfDigits(s[1..]);
    }
  }

  /** The field after an edit: its digits, at most the first two (slice(0, 2)). */
  function Cleaned(raw: string): (r: string)
    ensures AllDigits(r) && |r| <= 2
    ensures |r| == Min(2, |KeepDigits(raw)|) && r == KeepDigits(raw)[..|r|]
  {
    var d := KeepDigits(raw);
    if |d| <= 2 then d else d[..2]
  }

  /** The minutes a non-empty cleaned field stands for: clamp(parseInt(cleaned, 10) || 0, 1, 99). */
  function ParsedMinutes(cleaned: string): (n: int)
    requires AllDigits(cleaned) && cleaned != []
    ensures 1 <= n <= 99
    ensures 1 <= Value(cleaned) <= 99 ==> n == Value(cleaned)
    ensures Value(cleaned) == 0 ==> n == 1
  {
    Clamp(Value(cleaned), 1, 99)
  }

  /** The text the field holds after the input handler has run. */
  function SanitisedField(raw: string): string
  {
    var cleaned := Cleaned(raw);
    if cleaned == [] then []
    else
      var n := ParsedMinutes(cleaned);
      if Decimal(n) != cleaned then Decimal(n) else cleaned
  }

  /** After an edit the field is empty exactly when the text had no digit;
      otherwise it holds the decimal text, without a leading zero, of the
      minutes the handler parsed from the first two digits, a value in [1, 99]. */
  lemma SanitisedFieldShape(raw: string)
    ensures var f := SanitisedField(raw);
      (f == [] <==> forall i :: 0 <= i < |raw| ==> !IsDigit(raw[i])) &&
      (f != [] ==>
        AllDigits(f) && 1 <= |f| <= 2 && f[0] != '0' &&
        1 <= Value(f) <= 99 && Value(f) == ParsedMinutes(Cleaned(raw)) &&
        f == Decimal(Value(f)))
  {
    KeepDigitsEmptyIff(raw);
    var cleaned := Cleaned(raw);
    if cleaned != [] {
      var n := ParsedMinutes(cleaned);
      DecimalShape(n);
      ValueOfDecimal(n);
    }
  }

  /** Running the sanitiser on its own output changes nothing. */
  lemma SanitiseIdempotent(raw: string)
    ensures SanitisedField(SanitisedField(raw)) == SanitisedField(raw)
  {
    var f := SanitisedField(raw);
    SanitisedFieldShape(raw);
    if f != [] {
      KeepDigitsOfDigits(f);
      assert Cleaned(f) == f;
    }
  }
}
