/** The text formatting of the viewer: numerals in base 10 and 16 (what
    `Number.prototype.toString` produces, upper-cased for hex), zero-padded hex
    strings, the index hover text and line-break conversion. */
module Format {
  import opened Values

  /** What `value.toString()` gives, or the TypeError it throws on `undefined`. */
  datatype Rendered = Shown(text: string) | Throws

  function DigitChar(d: nat): (c: char)
    requires d < 16
  {
    if d < 10 then ('0' as int + d) as char else ('A' as int + d - 10) as char
  }

  /** The value of an upper-case hexadecimal or decimal digit. */
  function DigitValue(c: char): nat {
    if '0' <= c <= '9' then c as int - '0' as int
    else if 'A' <= c <= 'F' then c as int - 'A' as int + 10
    else 0
  }

  predicate IsDigit(c: char, base: nat) {
    ('0' <= c <= '9' || 'A' <= c <= 'F') && DigitValue(c) < base
  }

  /** A non-empty string of digits of `base`. */
  predicate IsNumeral(s: string, base: nat) {
    |s| > 0 && forall i :: 0 <= i < |s| ==> IsDigit(s[i], base)
  }

  lemma DigitRoundTrip(d: nat, base: nat)
    requires d < base <= 16
    ensures IsDigit(DigitChar(d), base) && DigitValue(DigitChar(d)) == d
  {}

  /** `n.toString(base)`, upper-cased: the shortest numeral, "0" for zero. */
  function Numeral(n: nat, base: nat): (s: string)
    requires base == 10 || base == 16
    decreases n
  {
    if n < base then [DigitChar(n)] else Numeral(n / base, base) + [DigitChar(n % base)]
  }

  /** The value of a numeral, most significant digit first. */
  function ParseNumeral(s: string, base: nat): nat {
    if s == [] then 0 else ParseNumeral(s[..|s| - 1], base) * base + DigitValue(s[|s| - 1])
  }

  function HexString(n: nat): string { Numeral(n, 16) }

  function DecimalString(n: nat): string { Numeral(n, 10) }

  lemma DivMod(n: nat, base: nat, q: nat, d: nat)
    requires 2 <= base && q == n / base && d == n % base
    ensures n == q * base + d
  {}

  /** A numeral consists of digits of its base. */
  lemma {:induction false} NumeralDigits(n: nat, base: nat)
    requires base == 10 || base == 16
    ensures IsNumeral(Numeral(n, base), base)
    decreases n
  {
    if n < base {
      DigitRoundTrip(n, base);
    } else {
      NumeralDigits(n / base, base);
      DigitRoundTrip(n % base, base);
      NumeralSnoc(Numeral(n / base, base), DigitChar(n % base), base);
    }
  }

  /** A digit appended to a numeral gives a numeral. */
  lemma NumeralSnoc(t: string, c: char, base: nat)
    requires IsNumeral(t, base) && IsDigit(c, base)
    ensures IsNumeral(t + [c], base)
  {
    var s := t + [c];
    forall i | 0 <= i < |s| ensures IsDigit(s[i], base) {
      if i < |t| { assert s[i] == t[i]; }
    }
  }

  /** Numerals are concatenated digit strings: two of them make one. */
  lemma NumeralAppend(a: string, b: string, base: nat)
    requires IsNumeral(a, base) && IsNumeral(b, base)
    ensures IsNumeral(a + b, base)
  {
    var s := a + b;
    forall i | 0 <= i < |s| ensures IsDigit(s[i], base) {
      if i < |a| { assert s[i] == a[i]; } else { assert s[i] == b[i - |a|]; }
    }
  }

  /** `toString` gives the shortest numeral: "0" for zero, and no leading
      zero otherwise. */
  lemma {:induction false} NumeralCanonical(n: nat, base: nat)
    requires base == 10 || base == 16
    ensures n == 0 ==> Numeral(n, base) == "0"
    ensures n > 0 ==> Numeral(n, base)[0] != '0'
    decreases n
  {
    if n >= base {
      NumeralCanonical(n / base, base);
    }
  }

  /** Appending a digit multiplies by the base and adds the digit. */
  lemma ParseSnoc(t: string, c: char, base: nat, q: nat, d: nat)
    requires ParseNumeral(t, base) == q && DigitValue(c) == d
    ensures ParseNumeral(t + [c], base) == q * base + d
  {
    assert (t + [c])[..|t|] == t;
  }

  /** A numeral reads back as its value. */
  lemma {:induction false} NumeralRoundTrip(n: nat, base: nat)
    requires base == 10 || base == 16
    ensures ParseNumeral(Numeral(n, base), base) == n
    decreases n
  {
    if n < base {
      DigitRoundTrip(n, base);
      assert [DigitChar(n)] == [] + [DigitChar(n)];
      ParseSnoc([], DigitChar(n), base, 0, n);
    } else {
      var q, d := n / base, n % base;
      NumeralRoundTrip(q, base);
      DigitRoundTrip(d, base);
      ParseSnoc(Numeral(q, base), DigitChar(d), base, q, d);
      DivMod(n, base, q, d);
    }
  }

  /** Zeros in front do not change the value of a numeral. */
  lemma {:induction false} LeadingZeros(k: nat, s: string, base: nat)
    ensures ParseNumeral(seq(k, _ => '0') + s, base) == ParseNumeral(s, base)
    decreases |s|, k
  {
    var z := seq(k, _ => '0');
    if s == [] {
      assert z + s == z;
      if k > 0 {
        assert z[..k - 1] == seq(k - 1, _ => '0');
        LeadingZeros(k - 1, [], base);
        assert seq(k - 1, _ => '0') + [] == seq(k - 1, _ => '0');
      }
    } else {
      var t := s[..|s| - 1];
      assert (z + s)[..|z + s| - 1] == z + t;
      LeadingZeros(k, t, base);
    }
  }

  /** `s.padStart(size, c)` for a one-character pad string. */
  function PadStart(s: string, size: nat, c: char): (r: string)
    ensures |r| == Max(size, |s|)
  {
    if |s| >= size then s else seq(size - |s|, _ => c) + s
  }

  /** Padding a numeral with zeros keeps it a numeral of the same value. */
  lemma PaddedNumeral(h: string, size: nat, base: nat)
    requires IsNumeral(h, base) && base >= 1
    ensures var r := PadStart(h, size, '0');
      && r[|r| - |h|..] == h
      && (forall i :: 0 <= i < |r| - |h| ==> r[i] == '0')
      && IsNumeral(r, base)
      && ParseNumeral(r, base) == ParseNumeral(h, base)
  {
    var r := PadStart(h, size, '0');
    if |h| < size {
      var z := seq(size - |h|, _ => '0');
      assert r == z + h;
      LeadingZeros(size - |h|, h, base);
      forall i | 0 <= i < |r| ensures IsDigit(r[i], base) {
        if i >= |z| { assert r[i] == h[i - |z|]; }
      }
    }
  }

  /** `getHexString(value, size)`: hex digits, upper case, left-padded with
      '0' to at least `size` characters; `size` '?' for `undefined`. */
  function GetHexString(value: Num, size: nat): (r: string)
    ensures value.Undefined? ==> |r| == size && forall i :: 0 <= i < size ==> r[i] == '?'
    ensures value.NaN? ==> r == PadStart("NAN", size, '0')
    ensures value.Int? ==>
      && |r| == Max(size, |HexString(value.n)|)
      && r[|r| - |HexString(value.n)|..] == HexString(value.n)
      && (forall i :: 0 <= i < |r| - |HexString(value.n)| ==> r[i] == '0')
      && IsNumeral(r, 16)
      && ParseNumeral(r, 16) == value.n
  {
    match value
    case Undefined => PadStart("", size, '?')
    case NaN => PadStart("NAN", size, '0')
    case Int(n) =>
      var h := HexString(n);
      NumeralDigits(n, 16);
      NumeralRoundTrip(n, 16);
      PaddedNumeral(h, size, 16);
      PadStart(h, size, '0')
  }

  /** The four parts of `a + b + c + d` can be cut out again. */
  lemma ConcatParts(a: string, b: string, c: string, d: string)
    ensures var r := a + b + c + d;
      && r[..|a|] == a
      && r[|a|..|a| + |b|] == b
      && r[|a| + |b|..|a| + |b| + |c|] == c
      && r[|a| + |b| + |c|..] == d
  {}

  /** `getIndexHoverString(i)`: the index in 4-digit hex and in decimal. */
  function GetIndexHoverString(i: nat): (r: string)
    ensures var h := Max(4, |HexString(i)|);
      && |r| > 13 + h + 14
      && r[..13] == "Index (hex): "
      && r[13..13 + h] == GetHexString(Int(i), 4)
      && IsNumeral(r[13..13 + h], 16)
      && ParseNumeral(r[13..13 + h], 16) == i
      && r[13 + h..13 + h + 14] == "\nIndex (dec): "
      && r[13 + h + 14..] == DecimalString(i)
      && IsNumeral(r[13 + h + 14..], 10)
      && ParseNumeral(r[13 + h + 14..], 10) == i
      && (i > 0 ==> r[13 + h + 14] != '0')
  {
    var head, mid := "Index (hex): ", "\nIndex (dec): ";
    var hex, dec := GetHexString(Int(i), 4), DecimalString(i);
    assert |head| == 13 && |mid| == 14 && |hex| == Max(4, |HexString(i)|);
    NumeralDigits(i, 10);
    NumeralRoundTrip(i, 10);
    NumeralCanonical(i, 10);
    ConcatParts(head, hex, mid, dec);
    head + hex + mid + dec
  }

  /** `s.replace(/\n/g, '<br>')`. */
  function ConvertLineBreaks(s: string): (r: string)
    ensures '\n' !in r
    ensures |r| >= |s|
  {
    if s == [] then []
    else (if s[0] == '\n' then "<br>" else [s[0]]) + ConvertLineBreaks(s[1..])
  }

  /** No line break is left, and each one grew by three characters. */
  lemma {:induction false} ConvertLineBreaksResult(s: string)
    ensures '\n' !in ConvertLineBreaks(s)
    ensures |ConvertLineBreaks(s)| == |s| + 3 * multiset(s)['\n']
    decreases |s|
  {
    if s != [] {
      assert s == [s[0]] + s[1..];
      ConvertLineBreaksResult(s[1..]);
    }
  }

  /** The conversion works character by character, so it splits over concatenation. */
  lemma {:induction false} ConvertLineBreaksAppend(a: string, b: string)
    ensures ConvertLineBreaks(a + b) == ConvertLineBreaks(a) + ConvertLineBreaks(b)
    decreases |a|
  {
    if a != [] {
      var h := if a[0] == '\n' then "<br>" else [a[0]];
      var x, y := ConvertLineBreaks(a[1..]), ConvertLineBreaks(b);
      assert (a + b)[0] == a[0] && (a + b)[1..] == a[1..] + b;
      assert ConvertLineBreaks(a + b) == h + ConvertLineBreaks(a[1..] + b);
      assert ConvertLineBreaks(a) == h + x;
      ConvertLineBreaksAppend(a[1..], b);
      assert h + (x + y) == (h + x) + y;
    } else {
      assert a + b == b;
    }
  }

  /** Text without line breaks is left as it is. */
  lemma {:induction false} ConvertLineBreaksNoop(s: string)
    requires '\n' !in s
    ensures ConvertLineBreaks(s) == s
    decreases |s|
  {
    if s != [] {
      assert s == [s[0]] + s[1..];
      ConvertLineBreaksNoop(s[1..]);
    }
  }

  /** Converting twice is converting once. */
  lemma ConvertLineBreaksIdempotent(s: string)
    ensures ConvertLineBreaks(ConvertLineBreaks(s)) == ConvertLineBreaks(s)
  {
    ConvertLineBreaksResult(s);
    ConvertLineBreaksNoop(ConvertLineBreaks(s));
  }
}
