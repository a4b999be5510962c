/** The two number printers (module/logger/print.c and lib/libc/stdio/print.c) and the reading of their output. */
module Printers {
  import opened Arithmetic

  const WORD := 0x1_0000_0000

  /** The digits of `v`, the most significant first, as __printi_loop recurses. */
  function Digits(v: nat, base: nat): (ds: seq<nat>)
    requires base >= 2
    ensures |ds| > 0 && forall i :: 0 <= i < |ds| ==> ds[i] < base
  {
    if v < base then [v] else Digits(Quotient(v, base), base) + [Remainder(v, base)]
  }

  /** The number that a sequence of digits stands for. */
  function Value(ds: seq<nat>, base: nat): nat {
    if ds == [] then 0 else Value(ds[..|ds| - 1], base) * base + ds[|ds| - 1]
  }

  predicate AreDigits(ds: seq<nat>, base: nat) {
    forall i :: 0 <= i < |ds| ==> ds[i] < base
  }

  /** No digit but a lone one is a leading zero. */
  predicate NoLeadingZero(ds: seq<nat>) {
    |ds| == 1 || (|ds| > 1 && ds[0] != 0)
  }

  lemma ValueThen(ds: seq<nat>, d: nat, base: nat)
    ensures Value(ds + [d], base) == Value(ds, base) * base + d
  {
    assert (ds + [d])[..|ds|] == ds;
  }

  /** A number is the value of its digits. */
  lemma {:induction false} ValueOfDigits(v: nat, base: nat)
    requires base >= 2
    ensures Value(Digits(v, base), base) == v && NoLeadingZero(Digits(v, base))
  {
    hide Quotient, Remainder, Value;
    if v >= base {
      var q := Quotient(v, base);
      ValueOfDigits(q, base);
      ValueThen(Digits(q, base), Remainder(v, base), base);
      Division(v, base);
      assert q * base == base * q;
      NotZero(q, base);
    } else {
      ValueOfOne(v, base);
    }
  }

  lemma ValueOfOne(d: nat, base: nat)
    ensures Value([d], base) == d
  {
    ValueThen([], d, base);
    assert [] + [d] == [d];
  }

  lemma {:induction false} NotZero(v: nat, base: nat)
    requires base >= 2 && v > 0
    ensures Digits(v, base)[0] != 0
  {
    hide Quotient, Remainder;
    if v >= base {
      NotZero(Quotient(v, base), base);
    }
  }

  /** A number without leading zeros is not zero when it has more than one digit. */
  lemma {:induction false} LongIsPositive(ds: seq<nat>, base: nat)
    requires base >= 2 && ds != [] && ds[0] != 0
    ensures Value(ds, base) > 0
  {
    var init, last := ds[..|ds| - 1], ds[|ds| - 1];
    if init != [] {
      LongIsPositive(init, base);
      assert Value(init, base) * base >= 1;
    }
  }

  /** Digits without leading zeros are those of their value: the only way to write a number. */
  lemma {:induction false} DigitsOfValue(ds: seq<nat>, base: nat)
    requires base >= 2 && AreDigits(ds, base) && NoLeadingZero(ds)
    ensures Digits(Value(ds, base), base) == ds
  {
    hide Quotient, Remainder;
    var init, last := ds[..|ds| - 1], ds[|ds| - 1];
    var v, w := Value(ds, base), Value(init, base);
    assert ds == init + [last] && v == w * base + last;
    if init == [] {
      assert w == 0;
    } else {
      LongIsPositive(init, base);
      DivisionUnique(v, base, w, last);
      MulMonotonic(base, 1, w);
      DigitsOfValue(init, base);
    }
  }

  // ---------------------------------------------------------------- characters

  /** The character of a digit; `caps` chooses the case of the digits above nine. */
  function DigitChar(d: nat, caps: bool): char
    requires d < 36
  {
    (d + (if d < 10 then '0' as int else if caps then 'A' as int - 10 else 'a' as int - 10)) as char
  }

  /** The digit that a character stands for, in either case; 36 for none. */
  function CharDigit(c: char): nat {
    if '0' <= c <= '9' then c as int - '0' as int
    else if 'A' <= c <= 'Z' then c as int - 'A' as int + 10
    else if 'a' <= c <= 'z' then c as int - 'a' as int + 10
    else 36
  }

  lemma CharDigitOfDigitChar(d: nat, caps: bool)
    requires d < 36
    ensures CharDigit(DigitChar(d, caps)) == d && DigitChar(d, caps) != '-'
  {
  }

  function Chars(ds: seq<nat>, caps: bool): (text: string)
    requires AreDigits(ds, 36)
    ensures |text| == |ds| && forall i :: 0 <= i < |ds| ==> text[i] == DigitChar(ds[i], caps)
  {
    if ds == [] then "" else Chars(ds[..|ds| - 1], caps) + [DigitChar(ds[|ds| - 1], caps)]
  }

  /** A 32-bit integer read as an unsigned one. */
  function Unsigned(n: int): (u: nat)
    requires -0x8000_0000 <= n < WORD
    ensures u < 0x1_0000_0000 && u == n % 0x1_0000_0000
  {
    if n < 0 then n + WORD else n
  }

  /** `0 - n` in 32 bits: the smallest integer is its own negative. */
  function Negated(n: int): int
    requires -0x8000_0000 <= n < 0
  {
    if n == -0x8000_0000 then n else -n
  }

  /** What both printers write. */
  function Text(n: int, base: nat, signed: bool, caps: bool): string
    requires 2 <= base <= 36 && -0x8000_0000 <= n < 0x8000_0000
  {
    if n < 0 && signed then "-" + Chars(Digits(-n, base), caps) else Chars(Digits(Unsigned(n), base), caps)
  }

  /** Reading a number back: an optional minus sign and digits of the base. */
  datatype Parsed = Number(value: int) | NoNumber

  function Parse(text: string, base: nat): Parsed {
    if text != [] && text[0] == '-' then
      var rest := ParseDigits(text[1..], base);
      if rest.Number? then Number(-rest.value) else NoNumber
    else ParseDigits(text, base)
  }

  function ParseDigits(text: string, base: nat): Parsed {
    var ds := CharDigits(text);
    if text != [] && AreDigits(ds, base) then Number(Value(ds, base)) else NoNumber
  }

  function CharDigits(text: string): (ds: seq<nat>)
    ensures |ds| == |text| && forall i :: 0 <= i < |text| ==> ds[i] == CharDigit(text[i])
  {
    if text == [] then [] else CharDigits(text[..|text| - 1]) + [CharDigit(text[|text| - 1])]
  }

  lemma ParseDigitsOfChars(ds: seq<nat>, base: nat, caps: bool)
    requires 2 <= base <= 36 && ds != [] && AreDigits(ds, base)
    ensures ParseDigits(Chars(ds, caps), base) == Number(Value(ds, base))
  {
    hide Value;
    var read := CharDigits(Chars(ds, caps));
    forall i | 0 <= i < |ds|
      ensures read[i] == ds[i]
    {
      CharDigitOfDigitChar(ds[i], caps);
    }
    assert read == ds;
  }

  /** Every 32-bit integer is read back from what is printed for it, the smallest one too; printed as unsigned it is
      read back modulo 2^32. No text has a leading zero. */
  lemma ParseOfText(n: int, base: nat, signed: bool, caps: bool)
    requires 2 <= base <= 36 && -0x8000_0000 <= n < 0x8000_0000
    ensures Parse(Text(n, base, signed, caps), base) == Number(if signed then n else Unsigned(n))
    ensures var digits := if n < 0 && signed then Text(n, base, signed, caps)[1..] else Text(n, base, signed, caps);
            |digits| == 1 || (|digits| > 1 && digits[0] != '0')
  {
    hide Value, Digits, CharDigits, Quotient, Remainder;
    var v := if n < 0 && signed then -n else Unsigned(n);
    var ds := Digits(v, base);
    ValueOfDigits(v, base);
    ParseDigitsOfChars(ds, base, caps);
    CharDigitOfDigitChar(ds[0], caps);
    if n < 0 && signed {
      assert Text(n, base, signed, caps)[1..] == Chars(ds, caps);
    }
  }

  /** A decimal digit, or a letter of the case that is asked for. */
  predicate DigitOrLetter(c: char, caps: bool)
  {
    '0' <= c <= '9' || (if caps then 'A' <= c <= 'Z' else 'a' <= c <= 'z')
  }

  const LOWER := "0123456789abcdefghijklmnopqrstuvwxyz"
  const UPPER := "0123456789ABCDEFGHIJKLMNOPQRSTUVWXYZ"

  lemma DigitCharIs(d: nat, caps: bool)
    requires d < 36
    ensures |LOWER| == |UPPER| == 36 && DigitChar(d, caps) == if caps then UPPER[d] else LOWER[d]
    ensures DigitOrLetter(DigitChar(d, caps), caps)
  {
  }

  /** The digits stand in the usual order: the one for the `k`th power of the base is `k` places from the end. */
  lemma {:induction false} DigitAt(v: nat, base: nat, k: nat)
    requires base >= 2 && k < |Digits(v, base)|
    ensures Digits(v, base)[|Digits(v, base)| - 1 - k] == v / Power(base, k) % base
  {
    hide Quotient, Remainder;
    QuotientIs(v, base);
    if k == 0 {
      if v < base {
        DivisionUnique(v, base, 0, v);
      }
    } else {
      DigitAt(Quotient(v, base), base, k - 1);
      DivideByPower(v, base, k);
    }
  }

  lemma QuotientIs(v: nat, n: nat)
    requires n > 0
    ensures Quotient(v, n) == v / n && Remainder(v, n) == v % n
  {
  }

  lemma DivideByPower(v: nat, base: nat, k: nat)
    requires base >= 2 && k > 0
    ensures v / Power(base, k) == v / base / Power(base, k - 1)
  {
    hide Quotient, Remainder;
    var p := Power(base, k - 1);
    DivideTwice(v, base, p);
    QuotientIs(v, base * p);
    QuotientIs(v, base);
    QuotientIs(v / base, p);
  }

  /** The text spelled out: a minus sign for a negative number, then one place for each power of the base up to the
      highest in the number; `k` places from the end stands the character of the digit for the `k`th power, in the case
      that is asked for. */
  lemma TextSpelled(n: int, base: nat, signed: bool, caps: bool, k: nat)
    requires 2 <= base <= 36 && -0x8000_0000 <= n < 0x8000_0000
    ensures var text, minus := Text(n, base, signed, caps), n < 0 && signed;
            var v, places := if minus then -n else n % 0x1_0000_0000, if minus then |text| - 1 else |text|;
            && places > 0 && (minus ==> text[0] == '-')
            && (k < places ==> text[|text| - 1 - k] == (if caps then UPPER else LOWER)[v / Power(base, k) % base])
            && v < Power(base, places) && (places > 1 ==> Power(base, places - 1) <= v)
  {
    hide Digits, Power, Chars, Unsigned, Text;
    TextIs(n, base, signed, caps);
    Places(if n < 0 && signed then -n else n % 0x1_0000_0000, base, caps, k);
  }

  lemma TextIs(n: int, base: nat, signed: bool, caps: bool)
    requires 2 <= base <= 36 && -0x8000_0000 <= n < 0x8000_0000
    ensures Text(n, base, signed, caps) ==
            if n < 0 && signed then "-" + Chars(Digits(-n, base), caps)
            else Chars(Digits(n % 0x1_0000_0000, base), caps)
  {
    hide Digits, Chars;
  }

  lemma Places(v: nat, base: nat, caps: bool, k: nat)
    requires 2 <= base <= 36
    ensures var places := Chars(Digits(v, base), caps);
            && |places| > 0 && v < Power(base, |places|) && (|places| > 1 ==> Power(base, |places| - 1) <= v)
            && (k < |places| ==> places[|places| - 1 - k] == (if caps then UPPER else LOWER)[v / Power(base, k) % base])
  {
    hide Digits, Power, DigitChar;
    DigitsSpan(v, base);
    if k < |Digits(v, base)| {
      PlaceChar(v, base, caps, k);
    }
  }

  lemma PlaceChar(v: nat, base: nat, caps: bool, k: nat)
    requires 2 <= base <= 36 && k < |Digits(v, base)|
    ensures var digits := Chars(Digits(v, base), caps);
            digits[|digits| - 1 - k] == (if caps then UPPER else LOWER)[v / Power(base, k) % base]
  {
    hide Digits, Power, DigitChar;
    DigitAt(v, base, k);
    DigitCharIs(v / Power(base, k) % base, caps);
  }

  lemma TextLetters(n: int, base: nat, signed: bool, caps: bool)
    requires 2 <= base <= 36 && -0x8000_0000 <= n < 0x8000_0000
    ensures var text := Text(n, base, signed, caps);
            forall k :: 0 <= k < |text| ==>
              DigitOrLetter(text[k], caps) || (k == 0 && text[k] == '-' && n < 0 && signed)
  {
    hide DigitOrLetter, Digits, DigitChar;
    var ds := Digits(if n < 0 && signed then -n else Unsigned(n), base);
    var text, start := Text(n, base, signed, caps), if n < 0 && signed then 1 else 0;
    assert text == if n < 0 && signed then "-" + Chars(ds, caps) else Chars(ds, caps);
    forall k | start <= k < |text|
      ensures DigitOrLetter(text[k], caps)
    {
      assert text[k] == DigitChar(ds[k - start], caps);
      DigitCharIs(ds[k - start], caps);
    }
  }

  /** The same of a text within a buffer. */
  lemma LettersWithin(buf: string, at: nat, end: nat, n: int, base: nat, signed: bool, caps: bool)
    requires 2 <= base <= 36 && -0x8000_0000 <= n < 0x8000_0000
    requires at <= end <= |buf| && buf[at..end] == Text(n, base, signed, caps)
    ensures forall k :: at <= k < end ==> DigitOrLetter(buf[k], caps) || (k == at && buf[k] == '-' && n < 0 && signed)
  {
    hide DigitOrLetter, Text;
    TextLetters(n, base, signed, caps);
    forall k | at <= k < end
      ensures DigitOrLetter(buf[k], caps) || (k == at && buf[k] == '-' && n < 0 && signed)
    {
      assert buf[at..end][k - at] == buf[k];
    }
  }

  /** A number has as many digits as its highest power needs. */
  lemma {:induction false} DigitsSpan(v: nat, base: nat)
    requires base >= 2
    ensures var n := |Digits(v, base)|; v < Power(base, n) && (n > 1 ==> Power(base, n - 1) <= v)
  {
    hide Quotient, Remainder;
    assert Power(base, 1) == base * Power(base, 0) == base;
    if v >= base {
      var q, r := Quotient(v, base), Remainder(v, base);
      DigitsSpan(q, base);
      Division(v, base);
      var n := |Digits(q, base)|;
      SpanStep(v, base, q, r, Power(base, n));
      if n > 1 {
        MulMonotonic(base, Power(base, n - 1), q);
      }
    }
  }

  lemma SpanStep(v: nat, base: nat, q: nat, r: nat, p: nat)
    requires v == base * q + r && r < base && q < p
    ensures v < base * p
  {
    MulMonotonic(base, q + 1, p);
    assert base * (q + 1) == base * q + base;
  }

  /** Different integers are printed differently. */
  lemma TextIsInjective(m: int, n: int, base: nat, signed: bool, caps: bool)
    requires 2 <= base <= 36 && -0x8000_0000 <= m < 0x8000_0000 && -0x8000_0000 <= n < 0x8000_0000
    requires Text(m, base, signed, caps) == Text(n, base, signed, caps)
    ensures m == n
  {
    ParseOfText(m, base, signed, caps);
    ParseOfText(n, base, signed, caps);
  }

  // ---------------------------------------------------------------- the loop of l_itoa

  function Power(base: nat, k: nat): (p: nat)
    requires base >= 2
    ensures p > 0
  {
    if k == 0 then 1 else base * Power(base, k - 1)
  }

  /** `k + 1` digits of `v`, by division by the powers of the base from the highest down. */
  function FromTop(v: nat, base: nat, k: nat): seq<nat>
    requires base >= 2
  {
    if k == 0 then [v] else [Quotient(v, Power(base, k))] + FromTop(Remainder(v, Power(base, k)), base, k - 1)
  }

  lemma Regroup(base: nat, p: nat, t: nat, u: nat, r: nat)
    requires u < p && r < base
    ensures base * (p * t + u) + r == (base * p) * t + (base * u + r) && base * u + r < base * p
  {
    assert base * (p * t + u) == base * (p * t) + base * u;
    assert base * (p * t) == (base * p) * t;
    MulMonotonic(base, u + 1, p);
    assert base * (u + 1) == base * u + base;
  }

  /** Splitting off the lowest digit before or after the highest makes no difference. */
  lemma DivideTwice(v: nat, base: nat, p: nat)
    requires base >= 2 && p > 0 && base * p > 0
    ensures Quotient(v, base * p) == Quotient(Quotient(v, base), p)
    ensures Quotient(Remainder(v, base * p), base) == Remainder(Quotient(v, base), p)
    ensures Remainder(Remainder(v, base * p), base) == Remainder(v, base)
  {
    hide Quotient, Remainder;
    var q, r := Quotient(v, base), Remainder(v, base);
    var t, u := Quotient(q, p), Remainder(q, p);
    Division(v, base);
    Division(q, p);
    Regroup(base, p, t, u, r);
    DivisionUnique(v, base * p, t, base * u + r);
    DivisionUnique(base * u + r, base, u, r);
  }

  lemma {:induction false} FromTopLast(v: nat, base: nat, k: nat)
    requires base >= 2 && k > 0
    decreases k
    ensures FromTop(v, base, k) == FromTop(Quotient(v, base), base, k - 1) + [Remainder(v, base)]
  {
    hide Quotient, Remainder;
    var p := Power(base, k - 1);
    DivideTwice(v, base, p);
    if k > 1 {
      FromTopLast(Remainder(v, base * p), base, k - 1);
    } else {
      PowerZero(v, base);
    }
  }

  lemma PowerZero(v: nat, base: nat)
    requires base >= 2
    ensures Power(base, 0) == 1 && Power(base, 1) == base
    ensures FromTop(v, base, 1) == [Quotient(v, base), Remainder(v, base)]
  {
  }

  /** From the highest power in the number down, these are its digits: the two printers agree. */
  lemma {:induction false} FromTopIsDigits(v: nat, base: nat, k: nat)
    requires base >= 2 && v < base * Power(base, k) && (k > 0 ==> Power(base, k) <= v)
    ensures FromTop(v, base, k) == Digits(v, base)
  {
    hide Quotient, Remainder;
    if k > 0 {
      var p, q := Power(base, k - 1), Quotient(v, base);
      FromTopLast(v, base, k);
      Division(v, base);
      Bracket(base, p, q, Remainder(v, base));
      FromTopIsDigits(q, base, k - 1);
    }
  }

  lemma Bracket(base: nat, p: nat, q: nat, r: nat)
    requires base >= 2 && p > 0 && r < base && base * p <= base * q + r < base * (base * p)
    ensures p <= q < base * p && base <= base * q + r
  {
    MulMonotonic(base, 1, p);
    assert base * (q + 1) == base * q + base;
    if q < p {
      MulMonotonic(base, q + 1, p);
    } else if q >= base * p {
      MulMonotonic(base, base * p, q);
    }
  }

  // ---------------------------------------------------------------- the printers

  lemma QuotientBounds(v: nat, dec: nat, base: nat)
    requires base >= 2 && dec > 0
    ensures Quotient(v, dec) >= base <==> base * dec <= v
    ensures Quotient(v, dec) > 0 <==> dec <= v
  {
    hide Quotient, Remainder;
    var q := Quotient(v, dec);
    Division(v, dec);
    assert dec * (q + 1) == dec * q + dec && base * dec == dec * base;
    if q >= base {
      MulMonotonic(dec, base, q);
    } else {
      MulMonotonic(dec, q + 1, base);
    }
    if q > 0 {
      MulMonotonic(dec, 1, q);
    }
  }

  lemma PowerDown(base: nat, k: nat)
    requires base >= 2
    ensures Quotient(Power(base, k), base) == if k == 0 then 0 else Power(base, k - 1)
  {
    if k == 0 {
      DivisionUnique(1, base, 0, 1);
    } else {
      DivisionUnique(Power(base, k), base, Power(base, k - 1), 0);
    }
  }

  /** The first loop of l_itoa: the highest power of the base in the number. It stays below 2^32. */
  method HighestPower(u: nat, base: nat) returns (dec: nat, ghost k: nat)
    requires 2 <= base && u < WORD
    ensures dec == Power(base, k) && u < base * dec && (k > 0 ==> dec <= u) && dec < WORD
  {
    hide Quotient, Remainder;
    dec, k := 1, 0;
    QuotientBounds(u, dec, base);
    while Quotient(u, dec) >= base
      invariant dec == Power(base, k) && (k > 0 ==> dec <= u) && 0 < dec < WORD
      invariant Quotient(u, dec) >= base <==> base * dec <= u
      decreases u - dec
    {
      MulMonotonic(dec, 2, base);
      assert base * dec == dec * base;
      dec, k := dec * base % WORD, k + 1;
      QuotientBounds(u, dec, base);
    }
  }

  /** l_itoa writing at `at`; the end it answers is where its zero byte is. */
  method LItoa(buf: array<char>, at: nat, n: int, base: nat, signed: bool, caps: bool) returns (end: nat)
    requires 2 <= base <= 36 && -0x8000_0000 <= n < 0x8000_0000
    requires at + |Text(n, base, signed, caps)| < buf.Length
    modifies buf
    ensures end == at + |Text(n, base, signed, caps)| && buf[at..end] == Text(n, base, signed, caps) && buf[end] == '\0'
    ensures buf[..at] == old(buf[..at]) && buf[end + 1..] == old(buf[end + 1..])
    ensures forall k :: at <= k < end ==> DigitOrLetter(buf[k], caps) || (k == at && buf[k] == '-' && n < 0 && signed)
  {
    hide Quotient, Remainder, Digits, Power, Chars, DigitOrLetter;
    var p, i, m := at, 0, n;
    if n < 0 && signed {
      m := Negated(n);
      buf[p] := '-';
      p, i := p + 1, i + 1;
    }
    var u := Unsigned(m);
    var dec, k := HighestPower(u, base);
    FromTopIsDigits(u, base, k);
    ghost var start, before := p, buf[..];
    p := WriteDigits(buf, p, i, u, base, dec, k, caps);
    Joined(before, buf[..], at, start, p);
    buf[p] := '\0';
    LettersWithin(buf[..], at, p, n, base, signed, caps);
    return p;
  }

  /** A text written after a sign that stays. */
  lemma Joined(before: string, after: string, at: nat, start: nat, end: nat)
    requires at <= start <= end < |before| == |after| && after[..start] == before[..start]
             && after[end..] == before[end..]
    ensures after[..at] == before[..at] && after[end + 1..] == before[end + 1..]
    ensures after[at..end] == before[at..start] + after[start..end]
  {
    assert after[..at] == after[..start][..at] && before[..at] == before[..start][..at];
    assert after[end + 1..] == after[end..][1..] && before[end + 1..] == before[end..][1..];
    assert after[at..start] == after[..start][at..] && before[at..start] == before[..start][at..];
    assert after[at..end] == after[at..start] + after[start..end];
  }

  /** The second loop of l_itoa. */
  method WriteDigits(buf: array<char>, at: nat, count: nat, v: nat, base: nat, power: nat, ghost top: nat, caps: bool)
    returns (p: nat)
    requires 2 <= base <= 36 && power == Power(base, top) && (count > 0 || v >= power || top == 0)
    requires v < base * power && FromTop(v, base, top) == Digits(v, base) && at + |Digits(v, base)| < buf.Length
    modifies buf
    ensures p == at + |Digits(v, base)| && buf[at..p] == Chars(Digits(v, base), caps)
    ensures buf[..at] == old(buf[..at]) && buf[p..] == old(buf[p..])
  {
    hide Quotient, Remainder, Digits, Power, FromTop, ToWrite, DigitChar, Chars;
    p := at;
    var u: nat, dec: nat, i: nat := v, power, count;
    ghost var ds, k, done := Digits(v, base), top, 0;
    ToWriteAll(v, base, k);
    while dec != 0
      invariant p == at + done && done <= |ds| && i == count + done
      invariant ToWrite(ds, done, u, base, k, dec)
      invariant dec != 0 ==> i > 0 || u >= dec || k == 0
      invariant forall j :: 0 <= j < done ==> buf[at + j] == DigitChar(ds[j], caps)
      invariant buf[..at] == old(buf[..at]) && buf[p..] == old(buf[p..])
      decreases dec
    {
      NextDigit(ds, done, u, base, k, dec);
      var d := Quotient(u, dec);
      u := Remainder(u, dec);
      dec := Quotient(dec, base);
      if i > 0 || d > 0 || dec == 0 {
        buf[p] := DigitChar(d, caps);
        p, i := p + 1, i + 1;
      }
      k, done := if k == 0 then 0 else k - 1, done + 1;
    }
    AllWritten(ds, done, u, base, k);
    assert buf[at..p] == Chars(ds, caps);
  }

  /** The digits from `done` on are yet to be written: those of `u` from the power `dec` down. */
  ghost predicate ToWrite(ds: seq<nat>, done: nat, u: nat, base: nat, k: nat, dec: nat)
    requires base >= 2
  {
    done <= |ds| &&
    if dec == 0 then done == |ds|
    else dec == Power(base, k) && u < base * dec && FromTop(u, base, k) == ds[done..]
  }

  lemma ToWriteAll(v: nat, base: nat, k: nat)
    requires base >= 2 && v < base * Power(base, k) && FromTop(v, base, k) == Digits(v, base)
    ensures ToWrite(Digits(v, base), 0, v, base, k, Power(base, k))
  {
  }

  lemma AllWritten(ds: seq<nat>, done: nat, u: nat, base: nat, k: nat)
    requires base >= 2 && ToWrite(ds, done, u, base, k, 0)
    ensures done == |ds|
  {
  }

  lemma NextDigit(ds: seq<nat>, done: nat, u: nat, base: nat, k: nat, dec: nat)
    requires base >= 2 && dec > 0 && ToWrite(ds, done, u, base, k, dec)
    ensures done < |ds| && Quotient(u, dec) == ds[done] && (Quotient(u, dec) > 0 <==> dec <= u)
    ensures ToWrite(ds, done + 1, Remainder(u, dec), base, if k == 0 then 0 else k - 1, Quotient(dec, base))
    ensures Quotient(dec, base) < dec && (Quotient(dec, base) == 0 <==> k == 0)
  {
    hide Quotient, Remainder;
    PowerDown(base, k);
    QuotientBounds(u, dec, base);
    OneFromTop(u, base, k);
    assert ds[done..][1..] == ds[done + 1..];
    assert |FromTop(u, base, k)| >= 1;
  }

  /** The next digit from the top, and what is left for the lower powers. */
  lemma OneFromTop(u: nat, base: nat, k: nat)
    requires base >= 2 && u < base * Power(base, k)
    ensures FromTop(u, base, k)[0] == Quotient(u, Power(base, k))
    ensures k == 0 ==> FromTop(u, base, k) == [u]
    ensures k > 0 ==> FromTop(u, base, k)[1..] == FromTop(Remainder(u, Power(base, k)), base, k - 1)
    ensures k > 0 ==> Remainder(u, Power(base, k)) < base * Power(base, k - 1) && Power(base, k - 1) < Power(base, k)
  {
    if k == 0 {
      DivisionUnique(u, 1, u, 0);
    } else {
      hide Quotient, Remainder;
      MulMonotonic(Power(base, k - 1), 2, base);
    }
  }

  /** What libc prints to. */
  class Stream {
    var out: string

    constructor ()
      ensures out == ""
    {
      out := "";
    }

    /** fputc */
    method Put(c: char)
      modifies this
      ensures out == old(out) + [c]
    {
      out := out + [c];
    }

    /** __printi_loop. It answers 0: it never counts the digits. */
    method PrintILoop(n: nat, base: nat) returns (c: int)
      requires 2 <= base <= 36 && n < WORD
      modifies this
      ensures out == old(out) + Chars(Digits(n, base), true) && c == 0
      decreases n
    {
      hide Quotient, Remainder;
      c := 0;
      ghost var rest: seq<nat> := if n >= base then Digits(Quotient(n, base), base) else [];
      if n >= base {
        c := PrintILoop(Quotient(n, base), base);
      }
      assert Digits(n, base)[..|rest|] == rest;
      if n < base {
        DivisionUnique(n, base, 0, n);
      }
      if Remainder(n, base) >= 10 {
        Put((Remainder(n, base) + ('A' as int - 10)) as char);
      } else {
        Put((Remainder(n, base) + '0' as int) as char);
      }
    }

    /** __printi. It counts the sign alone. */
    method PrintI(n: int, base: nat, signed: bool) returns (c: int)
      requires 2 <= base <= 36 && -0x8000_0000 <= n < 0x8000_0000
      modifies this
      ensures out == old(out) + Text(n, base, signed, true) && c == if n < 0 && signed then 1 else 0
      ensures forall k :: |old(out)| <= k < |out| ==>
                DigitOrLetter(out[k], true) || (k == |old(out)| && out[k] == '-' && n < 0 && signed)
    {
      hide Digits, Chars, Quotient, Remainder, DigitOrLetter;
      var m := n;
      c := 0;
      if n < 0 && signed {
        Put('-');
        m := Negated(n);
        c := 1;
      }
      var r := PrintILoop(Unsigned(m), base);
      ghost var digits := Chars(Digits(Unsigned(m), base), true);
      assert out == if n < 0 && signed then old(out) + ("-" + digits) else old(out) + digits;
      c := c + r;
      assert out[|old(out)|..|out|] == Text(n, base, signed, true);
      LettersWithin(out, |old(out)|, |out|, n, base, signed, true);
    }
  }
}
