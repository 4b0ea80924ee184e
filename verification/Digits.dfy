/** `itoa`, `ltoa` and `atoi`: digit strings of 32- and 64-bit numbers. */
module Digits {
  import opened Arith

  function Two(width: int): (t: nat)
    requires width == 32 || width == 64
  {
    if width == 32 then 0x1_0000_0000 else 0x1_0000_0000_0000_0000
  }

  /** Narrowing to `char`, which is signed. */
  function Int8(v: nat): int { (v + 128) % 256 - 128 }

  /** The character of a digit: past 'z' it is the terminator, and past 127 the digit
      is negative. */
  function DigitChar(v: nat): char {
    var w := Int8(v);
    if w <= 9 then (('0' as int + w) % 256) as char
    else if w <= 35 then 'a' + (w - 10) as char
    else '\0'
  }

  function DigitValue(c: char): nat {
    if '0' <= c <= '9' then (c - '0') as nat
    else if 'a' <= c <= 'z' then (c - 'a') as nat + 10
    else if 'A' <= c <= 'Z' then (c - 'A') as nat + 10
    else 99
  }

  /** The character with which a digit is written: 0 to 9 as 48 to 57, 10 to 35 as the
      letters from 97, in lower case. */
  predicate Writes(c: char, v: nat) {
    if v < 10 then c as int == 48 + v else v < 36 && c as int == 97 + v - 10
  }

  /** Digits are printed in lower case, ... */
  lemma PrintsDigit(v: nat)
    requires v < 36
    ensures Writes(DigitChar(v), v)
  {
  }

  /** ... and read in lower case or in capitals, which are the letters from 65; no other
      character reads as a digit. */
  lemma ReadsDigitIff(c: char, v: nat)
    requires v < 36
    ensures DigitValue(c) == v <==> Writes(c, v) || (v >= 10 && c as int == 65 + v - 10)
  {
  }

  lemma DigitReads(v: nat)
    requires v < 36
    ensures DigitValue(DigitChar(v)) == v && DigitChar(v) != '-'
  {
  }

  /** The digits of n, most significant first; none for 0. */
  function Digits(n: nat, base: nat): (s: string)
    requires base >= 2
  {
    if n == 0 then "" else Digits(n / base, base) + [DigitChar(n % base)]
  }

  /** A digit string read from the left, Horner's way. */
  function Value(s: string, base: nat): nat {
    if s == "" then 0 else Value(s[..|s| - 1], base) * base + DigitValue(s[|s| - 1])
  }

  lemma ValueStep(s: string, c: char, base: nat)
    ensures Value(s + [c], base) == Value(s, base) * base + DigitValue(c)
  {
    assert (s + [c])[..|s|] == s;
  }

  /** Printing and reading digits are inverse. */
  lemma {:induction false} DigitsMean(n: nat, base: nat)
    requires 2 <= base <= 36
    ensures Value(Digits(n, base), base) == n
  {
    hide DigitValue, DigitChar, Digits, Value;
    if n == 0 {
      NoValue(base);
    } else {
      var q, d := n / base, n % base;
      Shrinks(n, base);
      DigitsMean(q, base);
      DigitReads(d);
      assert n == q * base + d;
      ValueStep(Digits(q, base), DigitChar(d), base);
    }
  }

  lemma NoValue(base: nat)
    requires base >= 2
    ensures Digits(0, base) == "" && Value("", base) == 0
  {
  }

  lemma {:induction false} DigitsAre(n: nat, base: nat)
    requires 2 <= base <= 36
    ensures forall i :: 0 <= i < |Digits(n, base)| ==>
      Digits(n, base)[i] != '-' && DigitValue(Digits(n, base)[i]) < base
    ensures n > 0 ==> Digits(n, base) != ""
  {
    if n > 0 {
      DigitsAre(n / base, base);
      DigitReads(n % base);
    }
  }

  /** The unsigned number whose digits are printed. */
  function Magnitude(val: int, base: int, width: int): nat
    requires width == 32 || width == 64
    requires -(Two(width) / 2) <= val < Two(width) / 2
  {
    if val >= 0 then val else if base == 10 then -val else val + Two(width)
  }

  /** What `itoa` (32 bits) and `ltoa` (64 bits) print. */
  function Text(val: int, base: nat, width: int): string
    requires width == 32 || width == 64
    requires -(Two(width) / 2) <= val < Two(width) / 2 && base >= 2
  {
    if val == 0 then "0"
    else (if val < 0 && base == 10 then "-" else "") + Digits(Magnitude(val, base, width), base)
  }

  /** Signed in base 10, the bit pattern in every other base. */
  function Meaning(s: string, base: nat): int {
    if s != "" && s[0] == '-' then 0 - Value(s[1..], base) else Value(s, base)
  }

  lemma TextMeans(val: int, base: nat, width: int)
    requires width == 32 || width == 64
    requires -(Two(width) / 2) <= val < Two(width) / 2 && 2 <= base <= 36
    ensures Meaning(Text(val, base, width), base) == if base == 10 then val else val % Two(width)
  {
    hide Digits, Value;
    var m := Magnitude(val, base, width);
    var d := Digits(m, base);
    DigitsMean(m, base);
    DigitsAre(m, base);
    if val == 0 {
      ZeroReads(base);
    } else if val < 0 && base == 10 {
      assert ("-" + d)[1..] == d;
    } else {
      assert "" + d == d;
    }
  }

  /** What is printed reads as that number, for every number, if and only if there are
      characters for all digits. */
  lemma TextMeansIff(base: nat, width: int)
    requires (width == 32 || width == 64) && base >= 2
    ensures base <= 36 <==>
      forall val :: -(Two(width) / 2) <= val < Two(width) / 2 ==>
        Meaning(Text(val, base, width), base) == if base == 10 then val else val % Two(width)
  {
    if base <= 36 {
      forall val | -(Two(width) / 2) <= val < Two(width) / 2
        ensures Meaning(Text(val, base, width), base) == if base == 10 then val else val % Two(width)
      {
        TextMeans(val, base, width);
      }
    } else {
      NoDigit36(base, width);
    }
  }

  lemma NoDigit36(base: nat, width: int)
    requires (width == 32 || width == 64) && base > 36
    ensures Meaning(Text(36, base, width), base) == 99
  {
    Shrinks(36, base);
    assert Digits(0, base) == "";
    assert Text(36, base, width) == "" + ['\0'] == ['\0'];
    ValueStep("", '\0', base);
  }

  /** A number written without needless zeros, in the characters of its base. */
  predicate Numeral(s: string, base: nat) {
    s != "" && s[0] != '0' && forall i :: 0 <= i < |s| ==> Written(s[i], base)
  }

  predicate Written(c: char, base: nat) { ('0' <= c <= '9' || 'a' <= c <= 'z') && DigitValue(c) < base }

  lemma {:induction false} DigitsNumeral(n: nat, base: nat)
    requires n > 0 && 2 <= base <= 36
    ensures Numeral(Digits(n, base), base)
  {
    hide DigitChar, Digits, Written;
    var q, d := n / base, n % base;
    Shrinks(n, base);
    DigitWritten(d, base);
    if q > 0 {
      DigitsNumeral(q, base);
    } else {
      NoDigits(base);
      assert d == n;
    }
  }

  lemma DigitWritten(v: nat, base: nat)
    requires v < base <= 36
    ensures Written(DigitChar(v), base) && (v > 0 ==> DigitChar(v) != '0')
  {
    hide DigitChar, DigitValue;
    PrintsDigit(v);
    ReadsDigitIff(DigitChar(v), v);
  }

  lemma WrittenIs(c: char, base: nat)
    requires Written(c, base) && base <= 36
    ensures DigitChar(DigitValue(c)) == c && (DigitValue(c) == 0 ==> c == '0')
  {
  }

  /** Such a string is the only one with its value. */
  lemma {:induction false} NumeralIs(s: string, base: nat)
    requires Numeral(s, base) && 2 <= base <= 36
    ensures Value(s, base) > 0 && s == Digits(Value(s, base), base)
    decreases |s|
  {
    hide DigitChar, DigitValue, Written;
    var init, c := s[..|s| - 1], s[|s| - 1];
    var n, d := Value(s, base), DigitValue(c);
    assert s == init + [c] && n == Value(init, base) * base + d && Written(c, base);
    WrittenIs(c, base);
    WrittenBelow(c, base);
    if init == "" {
      assert Digits(0, base) == "" && c == s[0] && n == d;
      Shrinks(n, base);
      Quotient(n, base, 0, d);
    } else {
      NumeralIs(init, base);
      Quotient(n, base, Value(init, base), d);
      AtLeast(Value(init, base), base);
      Shrinks(n, base);
    }
  }

  lemma WrittenBelow(c: char, base: nat)
    requires Written(c, base)
    ensures DigitValue(c) < base
  {
  }

  /** What is printed is the number's one numeral, in lower case, with a minus sign for a
      negative number in base 10, and for 0 the one digit 0. */
  lemma TextIff(t: string, val: int, base: nat, width: int)
    requires width == 32 || width == 64
    requires -(Two(width) / 2) <= val < Two(width) / 2 && 2 <= base <= 36
    ensures t == Text(val, base, width) <==>
      && (t == "0" || Numeral(t, base) || (base == 10 && t != "" && t[0] == '-' && Numeral(t[1..], base)))
      && Meaning(t, base) == if base == 10 then val else val % Two(width)
  {
    hide Digits, Value, Written;
    TextMeans(val, base, width);
    var m := Magnitude(val, base, width);
    var d := Digits(m, base);
    if t == Text(val, base, width) && val != 0 {
      DigitsNumeral(m, base);
      assert "" + d == d && ("-" + d)[1..] == d;
    }
    ZeroReads(base);
    if Numeral(t, base) {
      NumeralIs(t, base);
      assert Written(t[0], base);
      MinusNotWritten(base);
      assert "" + d == d;
    } else if t != "" && t[0] == '-' && Numeral(t[1..], base) {
      NumeralIs(t[1..], base);
      assert t == "-" + t[1..];
    }
  }

  lemma MinusNotWritten(base: nat)
    ensures !Written('-', base)
  {
  }

  lemma ZeroReads(base: nat)
    ensures Value("0", base) == 0
  {
    ValueStep("", '0', base);
    assert "" + ['0'] == "0";
  }

  function Reversed(s: string): (r: string)
    ensures |r| == |s|
    ensures forall i :: 0 <= i < |s| ==> r[i] == s[|s| - 1 - i]
  {
    if s == "" then "" else Reversed(s[1..]) + [s[0]]
  }

  lemma ReversedStep(t: string, c: char)
    ensures Reversed(t + [c]) == [c] + Reversed(t)
  {
  }

  /** The reversal at the end of `itoa`, in place. */
  method Reverse(dst: array<char>, len': nat)
    requires len' <= dst.Length
    modifies dst
    ensures dst[..len'] == Reversed(old(dst[..len']))
    ensures dst[len'..] == old(dst[len'..])
  {
    var start, len := 0, len';
    while start < len
      invariant 0 <= start <= len' && start + len == len' && start <= len + 1
      invariant forall k :: 0 <= k < dst.Length && !(start <= k < len) && k < len' ==> dst[k] == old(dst[len' - 1 - k])
      invariant forall k :: 0 <= k < dst.Length && (start <= k < len || len' <= k) ==> dst[k] == old(dst[k])
    {
      dst[start], dst[len - 1] := dst[len - 1], dst[start];
      len := len - 1;
      start := start + 1;
    }
  }

  /** The digit loop: least significant digit first. */
  method PutDigits(n: nat, base: nat, dst: array<char>) returns (len: nat)
    requires base >= 2 && n > 0 && |Digits(n, base)| < dst.Length
    modifies dst
    ensures len == |Digits(n, base)| && Reversed(dst[..len]) == Digits(n, base) && dst[len] == '\0'
  {
    hide Digits, Reversed, DigitChar;
    NoDigits(base);
    var tmp: nat := n;
    len := 0;
    while tmp != 0
      invariant 0 <= len <= |Digits(n, base)|
      invariant Digits(tmp, base) + Reversed(dst[..len]) == Digits(n, base)
      invariant tmp == 0 ==> dst[len] == '\0'
      decreases tmp
    {
      Shrinks(tmp, base);
      ghost var before := dst[..len];
      var c := DigitChar(tmp % base);
      dst[len] := c;
      len := len + 1;
      dst[len] := '\0';
      assert dst[..len] == before + [c];
      ReversedStep(before, c);
      Moved(Digits(tmp / base, base), c, Reversed(before));
      tmp := tmp / base;
    }
  }

  /** `itoa` and `ltoa`; base 0 is refused, and base 1 would never end. */
  method Itoa(val: int, dst: array<char>, base: nat, width: int) returns (ok: bool)
    requires width == 32 || width == 64
    requires -(Two(width) / 2) <= val < Two(width) / 2 && base != 1
    requires base != 0 ==> |Text(val, base, width)| < dst.Length
    modifies dst
    ensures ok == (base != 0)
    ensures !ok ==> dst[..] == old(dst[..])
    ensures ok ==> var t := Text(val, base, width); dst[..|t|] == t && dst[|t|] == '\0'
  {
    hide Digits, Reversed, DigitChar, Magnitude;
    if base == 0 {
      return false;
    }
    NoDigits(base);
    if val == 0 {
      dst[0], dst[1] := '0', '\0';
      return true;
    }
    MagnitudePositive(val, base, width);
    var len := PutDigits(Magnitude(val, base, width), base, dst);
    ghost var body := dst[..len];
    if val < 0 && base == 10 {
      dst[len] := '-';
      len := len + 1;
      dst[len] := '\0';
      assert dst[..len] == body + ['-'];
      ReversedStep(body, '-');
    }
    Reverse(dst, len);
    return true;
  }

  lemma MagnitudePositive(val: int, base: int, width: int)
    requires width == 32 || width == 64
    requires -(Two(width) / 2) <= val < Two(width) / 2 && val != 0
    ensures Magnitude(val, base, width) > 0
  {
  }

  lemma NoDigits(base: nat)
    requires base >= 2
    ensures Digits(0, base) == "" && Reversed("") == ""
  {
  }

  lemma Shrinks(n: nat, base: nat)
    requires n > 0 && base >= 2
    ensures 0 <= n / base < n
    ensures Digits(n, base) == Digits(n / base, base) + [DigitChar(n % base)]
  {
    hide DigitChar;
    var q := n / base;
    assert n == q * base + n % base;
    AtLeastTwice(q, base);
  }

  lemma AtLeastTwice(q: nat, base: nat)
    requires base >= 2
    ensures q * base >= 2 * q
  {
  }

  lemma Moved(a: string, c: char, b: string)
    ensures (a + [c]) + b == a + ([c] + b)
  {
  }

  /** The loop of `atoi` in base 16, on the characters of a string. */
  function Hex(s: string): (r: string)
    ensures r <= s
  {
    if s == "" || DigitValue(s[0]) >= 16 then "" else [s[0]] + Hex(s[1..])
  }

  /** The 32 bits left of a hexadecimal string when its digits are shifted in one place too far and back. */
  function ReadHex(s: string): int { Int32(16 * Value(Hex(s), 16)) / 16 }

  /** The loop after i characters. */
  ghost predicate ReadUpTo(s: string, i: nat, val: int) {
    i <= |s| && Hex(s) == s[..i] + Hex(s[i..]) && val == Int32(16 * Value(s[..i], 16))
  }

  /** `atoi`: it shifts once too far and back, in 32 bits, so the top four bits are lost. */
  method Atoi(ptr: string, base: int) returns (r: int)
    ensures r == if base == 16 then ReadHex(ptr) else -1
  {
    hide ReadUpTo, Int32, DigitValue;
    if base != 16 {
      return -1;
    }
    var val, i := 0, 0;
    ReadStart(ptr);
    while i < |ptr| && DigitValue(ptr[i]) < 16
      invariant 0 <= i <= |ptr| && ReadUpTo(ptr, i, val)
    {
      ReadNext(ptr, i, val);
      val := Int32((val + DigitValue(ptr[i])) * 16);
      i := i + 1;
    }
    ReadEnd(ptr, i, val);
    return val / 16;
  }

  lemma ReadStart(s: string)
    ensures ReadUpTo(s, 0, 0)
  {
    assert s[0..] == s;
  }

  lemma ReadNext(s: string, i: nat, val: int)
    requires ReadUpTo(s, i, val) && i < |s| && DigitValue(s[i]) < 16
    ensures ReadUpTo(s, i + 1, Int32((val + DigitValue(s[i])) * 16))
  {
    hide DigitValue, Value;
    assert s[..i + 1] == s[..i] + [s[i]];
    assert s[i..][1..] == s[i + 1..];
    Moved(s[..i], s[i], Hex(s[i + 1..]));
    ValueStep(s[..i], s[i], 16);
    ShiftIn(Value(s[..i], 16), DigitValue(s[i]));
  }

  lemma ReadEnd(s: string, i: nat, val: int)
    requires ReadUpTo(s, i, val) && (i < |s| ==> DigitValue(s[i]) >= 16)
    ensures val / 16 == ReadHex(s)
  {
    assert i < |s| ==> s[i..][0] == s[i];
    assert Hex(s[i..]) == "";
    assert Hex(s) == s[..i];
  }

  lemma ShiftIn(v: nat, d: nat)
    ensures Int32((Int32(16 * v) + d) * 16) == Int32(16 * (v * 16 + d))
  {
  }

  /** `atoi` in base 16 undoes `itoa` exactly on the numbers of 28 bits. */
  lemma RoundTripIff(val: int)
    requires -0x8000_0000 <= val < 0x8000_0000
    ensures ReadHex(Text(val, 16, 32)) == val <==> -0x800_0000 <= val < 0x800_0000
  {
    hide Digits, Value, Hex;
    var t, m := Text(val, 16, 32), Magnitude(val, 16, 32);
    if val == 0 {
      ZeroReads(16);
      AllHex("0");
    } else {
      DigitsMean(m, 16);
      DigitsAre(m, 16);
      assert t == Digits(m, 16);
      AllHex(t);
    }
  }

  /** What is read is the longest prefix of hexadecimal digits ... */
  lemma {:induction false} HexIsLongest(s: string)
    ensures Hex(s) <= s && forall i :: 0 <= i < |Hex(s)| ==> DigitValue(s[i]) < 16
    ensures |Hex(s)| < |s| ==> DigitValue(s[|Hex(s)|]) >= 16
  {
    if s != "" && DigitValue(s[0]) < 16 {
      HexIsLongest(s[1..]);
      forall i | 0 <= i < |Hex(s)| ensures DigitValue(s[i]) < 16 {
        assert i > 0 ==> s[i] == s[1..][i - 1];
      }
    }
  }

  /** ... and of its value the lowest 28 bits, as a signed number. */
  lemma ReadHexMeans(s: string)
    ensures -0x800_0000 <= ReadHex(s) < 0x800_0000 && (Value(Hex(s), 16) - ReadHex(s)) % 0x1000_0000 == 0
  {
    hide Value, Hex, Int32;
    Low28(Value(Hex(s), 16));
  }

  lemma Low28(v: nat)
    ensures -0x800_0000 <= Int32(16 * v) / 16 < 0x800_0000 && (v - Int32(16 * v) / 16) % 0x1000_0000 == 0
  {
    var q := (16 * v + 0x8000_0000) / 0x1_0000_0000;
    assert Int32(16 * v) == 16 * (v - 0x1000_0000 * q);
    assert Int32(16 * v) / 16 == v - 0x1000_0000 * q;
  }

  lemma {:induction false} AllHex(s: string)
    requires forall i :: 0 <= i < |s| ==> DigitValue(s[i]) < 16
    ensures Hex(s) == s
  {
    if s != "" {
      AllHex(s[1..]);
    }
  }
}
