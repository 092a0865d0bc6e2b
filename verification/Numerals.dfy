/** itoa and itoa_hex, against positional notation. */
module Numerals {
  import opened Words
  import opened CStrings

  type Base = b: nat | b == 10 || b == 16 witness 10

  function DigitChar(d: nat): char
    requires d < 16
  {
    if d < 10 then '0' + (d as char) else 'A' + ((d - 10) as char)
  }

  function DigitValue(c: char): Option<nat> {
    if '0' <= c <= '9' then Some((c - '0') as nat)
    else if 'A' <= c <= 'F' then Some((c - 'A') as nat + 10)
    else None
  }

  /** Positional notation, most significant digit first. */
  function Numeral(n: nat, base: Base): (s: string)
    ensures |s| > 0
  {
    if n < base then [DigitChar(n)] else Numeral(n / base, base) + [DigitChar(n % base)]
  }

  /** The value of a string of digits. */
  function Parse(s: string, base: Base): Option<nat> {
    if s == "" then Some(0)
    else
      var front, d := Parse(s[..|s| - 1], base), DigitValue(s[|s| - 1]);
      if front.None? || d.None? || d.value >= base then None else Some(front.value * base + d.value)
  }

  /** Without leading zeros, except for "0" itself. */
  predicate Canonical(s: string) {
    s != "" && (s[0] == '0' ==> s == "0")
  }

  lemma DigitRoundTrip(d: nat)
    requires d < 16
    ensures DigitValue(DigitChar(d)) == Some(d) && DigitChar(d) != NUL && (DigitChar(d) == '0' <==> d == 0)
  {
  }

  /** The digits, and two numerals, in literal characters. */
  lemma DigitsAre(d: nat)
    requires d < 16
    ensures DigitChar(d) == "0123456789ABCDEF"[d]
  {
    match d
    case 0 => case 1 => case 2 => case 3 => case 4 => case 5 => case 6 => case 7 =>
    case 8 => case 9 => case 10 => case 11 => case 12 => case 13 => case 14 => case _ =>
  }

  lemma NumeralExamples()
    ensures Numeral(2048, 10) == "2048" && Numeral(0xBEEF, 16) == "BEEF" && Numeral(0, 10) == "0"
  {
    assert Numeral(2, 10) == "2" && Numeral(20, 10) == "20" && Numeral(204, 10) == "204";
    assert Numeral(0xB, 16) == "B" && Numeral(0xBE, 16) == "BE" && Numeral(0xBEE, 16) == "BEE";
  }

  /** Parsing a numeral gives the number back; a numeral has no leading zero. */
  lemma {:induction false} NumeralParses(n: nat, base: Base)
    ensures Parse(Numeral(n, base), base) == Some(n)
    ensures Canonical(Numeral(n, base)) && (n > 0 ==> Numeral(n, base)[0] != '0')
  {
    var s := Numeral(n, base);
    DigitRoundTrip(n % base);
    if n < base {
      assert s[..0] == "" && n % base == n;
    } else {
      NumeralParses(n / base, base);
      assert s[..|s| - 1] == Numeral(n / base, base);
      assert (n / base) * base + n % base == n;
    }
  }

  lemma {:induction false} NumeralNoNul(n: nat, base: Base)
    ensures NoNul(Numeral(n, base))
  {
    DigitRoundTrip(n % base);
    if n >= base {
      NumeralNoNul(n / base, base);
    } else {
      assert n % base == n;
    }
  }

  /** Every canonical string that parses to n is the numeral of n: the conversion is a bijection. */
  lemma {:induction false} NumeralIsTheOnly(s: string, base: Base)
    requires Canonical(s) && Parse(s, base).Some?
    ensures s == Numeral(Parse(s, base).value, base)
  {
    var front, c := s[..|s| - 1], s[|s| - 1];
    var f, d := Parse(front, base).value, DigitValue(c).value;
    assert c == DigitChar(d);
    if front == "" {
      assert s == [c];
    } else {
      assert front[0] == s[0];
      NumeralIsTheOnly(front, base);
      PositiveValue(front, base);
      assert (f * base + d) / base == f && (f * base + d) % base == d;
      assert s == front + [c];
    }
  }

  lemma {:induction false} PositiveValue(s: string, base: Base)
    requires s != "" && s[0] != '0' && Parse(s, base).Some?
    ensures Parse(s, base).value > 0
  {
    if |s| > 1 {
      assert s[..|s| - 1][0] == s[0];
      PositiveValue(s[..|s| - 1], base);
    } else {
      assert s[..0] == "";
    }
  }

  lemma {:induction false} NumeralLength(n: nat, base: Base, digits: nat, limit: nat)
    requires digits > 0 && limit == Power(base, digits) && n < limit
    ensures |Numeral(n, base)| <= digits
  {
    if n >= base {
      assert limit == base * Power(base, digits - 1);
      if digits > 1 {
        NumeralLength(n / base, base, digits - 1, Power(base, digits - 1));
      }
    }
  }

  /** A uint32 has at most 10 decimal and 8 hexadecimal digits, so with the NUL 11 and 9 bytes are enough. */
  lemma WordNumeralLength(n: Word)
    ensures |Numeral(n, 10)| <= 10 && |Numeral(n, 16)| <= 8
  {
    assert Power(10, 10) == 10_000_000_000 by {
      assert Power(10, 5) == 100_000;
    }
    NumeralLength(n, 10, 10, 10_000_000_000);
    assert Power(16, 8) == 0x1_0000_0000 by {
      assert Power(16, 4) == 0x1_0000;
    }
    NumeralLength(n, 16, 8, 0x1_0000_0000);
  }

  /** Digits still to be written, then those written, last first. */
  predicate Progress(n: nat, base: Base, left: nat, written: seq<char>) {
    Numeral(n, base) == (if left == 0 && written != [] then [] else Numeral(left, base)) + Reversed(written)
  }

  lemma WriteDigit(n: nat, base: Base, left: nat, written: seq<char>)
    requires Progress(n, base, left, written) && (left > 0 || written == [])
    ensures Progress(n, base, left / base, written + [DigitChar(left % base)])
    ensures |written| < |Numeral(n, base)|
  {
    ReversedSnoc(written, DigitChar(left % base));
    if left >= base {
      var front, d := Numeral(left / base, base), [DigitChar(left % base)];
      assert (front + d) + Reversed(written) == front + (d + Reversed(written));
    }
  }

  lemma DigitsWritten(n: nat, base: Base, b: seq<char>, i: nat)
    requires i < |b| && b[i] == NUL && Numeral(n, base) == Reversed(b[..i])
    ensures CString(b) == b[..i] && |Numeral(n, base)| == i
  {
    NumeralNoNul(n, base);
    ReversedNoNul(b[..i]);
    CStringIs(b, b[..i]);
  }

  lemma ReversedNoNul(s: string)
    requires NoNul(Reversed(s))
    ensures NoNul(s)
  {
    forall k | 0 <= k < |s| ensures s[k] != NUL {
      ReversedAt(s, |s| - 1 - k);
    }
  }

  method Itoa(n: Word, s: array<char>)
    requires |Numeral(n, 10)| < s.Length
    modifies s
    ensures CString(s[..]) == Numeral(n, 10) && HasNul(s[..])
    ensures s[|Numeral(n, 10)| + 1..] == old(s[|Numeral(n, 10)| + 1..])
  {
    ghost var digits := |Numeral(n, 10)|;
    var i, m := 0, n;
    WriteDigit(n, 10, m, []);
    s[i] := '0' + ((m % 10) as char);
    i, m := i + 1, m / 10;
    while m > 0
      invariant 0 < i <= digits && Progress(n, 10, m, s[..i])
      invariant s[digits + 1..] == old(s[digits + 1..])
      decreases m
    {
      WriteDigit(n, 10, m, s[..i]);
      ghost var before := s[..i];
      s[i] := '0' + ((m % 10) as char);
      assert s[..i + 1] == before + [DigitChar(m % 10)];
      i, m := i + 1, m / 10;
    }
    FinishNumeral(n, 10, s, i);
  }

  method ItoaHex(n: Word, s: array<char>)
    requires |Numeral(n, 16)| < s.Length
    modifies s
    ensures CString(s[..]) == Numeral(n, 16) && HasNul(s[..])
    ensures s[|Numeral(n, 16)| + 1..] == old(s[|Numeral(n, 16)| + 1..])
  {
    ghost var digits := |Numeral(n, 16)|;
    var i, m := 0, n;
    WriteDigit(n, 16, m, []);
    s[i] := DigitChar(m % 16);
    i, m := i + 1, m / 16;
    while m > 0
      invariant 0 < i <= digits && Progress(n, 16, m, s[..i])
      invariant s[digits + 1..] == old(s[digits + 1..])
      decreases m
    {
      WriteDigit(n, 16, m, s[..i]);
      ghost var before := s[..i];
      s[i] := DigitChar(m % 16);
      assert s[..i + 1] == before + [DigitChar(m % 16)];
      i, m := i + 1, m / 16;
    }
    FinishNumeral(n, 16, s, i);
  }

  /** The end both routines share: the NUL, and reverse. */
  method FinishNumeral(n: Word, ghost base: Base, s: array<char>, i: nat)
    requires i < s.Length && Numeral(n, base) == Reversed(s[..i])
    modifies s
    ensures CString(s[..]) == Numeral(n, base) && HasNul(s[..])
    ensures s[|Numeral(n, base)| + 1..] == old(s[|Numeral(n, base)| + 1..])
  {
    ghost var digits := s[..i];
    s[i] := NUL;
    assert s[..][..i] == digits && s[..][i] == NUL;
    DigitsWritten(n, base, s[..], i);
    ghost var tail := s[i..];
    Reverse(s);
    assert s[i] == s[i..][0] == tail[0];
    NumeralNoNul(n, base);
    assert s[..][..i] == Numeral(n, base);
    CStringIs(s[..], Numeral(n, base));
    assert s[i + 1..] == tail[1..];
  }
}
