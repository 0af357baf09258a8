/**
 The concrete text encodings the log depends on: UTF-8 (`str.encode()`), lower-case hex
 (`bytes.hex`, `bytes.fromhex`) and decimal integers (as f-strings print them).
 */
module Encoding {
  import opened Prelude

  type byte = b: int | 0 <= b < 256
  type Bytes = seq<byte>

  // ---------------------------------------------------------------- UTF-8

  /** One Unicode scalar value in UTF-8. */
  function Utf8Char(c: char): (bs: Bytes)
    ensures 1 <= |bs| <= 4
  {
    var n := c as int;
    if n < 0x80 then [n]
    else if n < 0x800 then [0xC0 + n / 64, 0x80 + n % 64]
    else if n < 0x10000 then [0xE0 + n / 4096, 0x80 + n / 64 % 64, 0x80 + n % 64]
    else [0xF0 + n / 262144, 0x80 + n / 4096 % 64, 0x80 + n / 64 % 64, 0x80 + n % 64]
  }

  function Utf8(s: string): Bytes {
    if s == "" then [] else Utf8Char(s[0]) + Utf8(s[1..])
  }

  predicate IsAscii(s: string) {
    forall i :: 0 <= i < |s| ==> s[i] as int < 0x80
  }

  function At(bs: Bytes, i: nat): int {
    if i < |bs| then bs[i] else 0
  }

  /** The scalar value that the bytes start with. */
  function FirstScalar(bs: Bytes): int {
    var a, b, c, d := At(bs, 0), At(bs, 1), At(bs, 2), At(bs, 3);
    if a < 0x80 then a
    else if a < 0xE0 then (a - 0xC0) * 64 + b - 0x80
    else if a < 0xF0 then (a - 0xE0) * 4096 + (b - 0x80) * 64 + c - 0x80
    else (a - 0xF0) * 262144 + (b - 0x80) * 4096 + (c - 0x80) * 64 + d - 0x80
  }

  lemma Base64Digits(n: nat)
    ensures n == n / 64 * 64 + n % 64
    ensures n == n / 4096 * 4096 + n / 64 % 64 * 64 + n % 64
    ensures n == n / 262144 * 262144 + n / 4096 % 64 * 4096 + n / 64 % 64 * 64 + n % 64
  {
    var p, q, r := n / 64, n / 64 / 64, n / 64 / 64 / 64;
    assert n == 4096 * q + (p % 64 * 64 + n % 64) && n / 4096 == q;
    assert n == 262144 * r + (q % 64 * 4096 + p % 64 * 64 + n % 64) && n / 262144 == r;
  }

  lemma FirstScalarOf(c: char, rest: Bytes)
    ensures FirstScalar(Utf8Char(c) + rest) == c as int
  {
    var x, y := Utf8Char(c), Utf8Char(c) + rest;
    assert At(y, 0) == x[0];
    assert |x| > 1 ==> At(y, 1) == x[1];
    assert |x| > 2 ==> At(y, 2) == x[2];
    assert |x| > 3 ==> At(y, 3) == x[3];
    Base64Digits(c as int);
  }

  /** No UTF-8 sequence is a prefix of another, and a sequence names one character. */
  lemma Utf8CharPrefixFree(c: char, d: char, x: Bytes, y: Bytes)
    requires Utf8Char(c) + x == Utf8Char(d) + y
    ensures c == d && x == y
  {
    FirstScalarOf(c, x);
    FirstScalarOf(d, y);
    assert x == (Utf8Char(c) + x)[|Utf8Char(c)|..];
  }

  lemma {:induction false} Utf8Injective(s: string, t: string)
    requires Utf8(s) == Utf8(t)
    ensures s == t
  {
    if s != "" && t != "" {
      Utf8CharPrefixFree(s[0], t[0], Utf8(s[1..]), Utf8(t[1..]));
      Utf8Injective(s[1..], t[1..]);
      assert s == [s[0]] + s[1..] && t == [t[0]] + t[1..];
    }
  }

  lemma {:induction false} Utf8Concat(s: string, t: string)
    ensures Utf8(s + t) == Utf8(s) + Utf8(t)
  {
    if s == "" {
      assert s + t == t;
    } else {
      assert (s + t)[0] == s[0] && (s + t)[1..] == s[1..] + t;
      Utf8Concat(s[1..], t);
    }
  }

  lemma {:induction false} AsciiIsOneByteEach(s: string)
    requires IsAscii(s)
    ensures |Utf8(s)| == |s|
  {
    if s != "" {
      AsciiIsOneByteEach(s[1..]);
    }
  }

  // ------------------------------------------------------------------ hex

  function HexDigit(n: int): char
    requires 0 <= n < 16
  {
    if n < 10 then (n + '0' as int) as char else (n - 10 + 'a' as int) as char
  }

  /** A hex digit of either case, as `bytes.fromhex` reads it. */
  function HexValue(c: char): (v: Option<int>)
    ensures v.Some? ==> 0 <= v.value < 16
  {
    if '0' <= c <= '9' then Some(c as int - '0' as int)
    else if 'a' <= c <= 'f' then Some(c as int - 'a' as int + 10)
    else if 'A' <= c <= 'F' then Some(c as int - 'A' as int + 10)
    else None
  }

  predicate IsAsciiSpace(c: char) {
    c == ' ' || 9 <= c as int <= 13
  }

  function ToHex(bs: Bytes): (s: string)
    ensures |s| == 2 * |bs|
  {
    if bs == [] then "" else [HexDigit(bs[0] / 16), HexDigit(bs[0] % 16)] + ToHex(bs[1..])
  }

  /** `bytes.fromhex`: white space between pairs is skipped; None is its ValueError. */
  function FromHex(s: string): Option<Bytes> {
    if s == "" then Some([])
    else if IsAsciiSpace(s[0]) then FromHex(s[1..])
    else if |s| == 1 || HexValue(s[0]).None? || HexValue(s[1]).None? then None
    else match FromHex(s[2..])
      case None => None
      case Some(rest) => Some([16 * HexValue(s[0]).value + HexValue(s[1]).value] + rest)
  }

  function LowerChar(c: char): char {
    if 'A' <= c <= 'Z' then (c as int + 32) as char else c
  }

  /**
   `str.lower`, restricted to A-Z: no other character's lower case is a hex digit, so a
   comparison with a lower-case hex string comes out the same.
   */
  function Lower(s: string): (t: string)
    ensures |t| == |s|
  {
    if s == "" then "" else [LowerChar(s[0])] + Lower(s[1..])
  }

  predicate IsLowerHex(s: string) {
    forall i :: 0 <= i < |s| ==> '0' <= s[i] <= '9' || 'a' <= s[i] <= 'f'
  }

  lemma HexDigitRoundTrip(n: int)
    requires 0 <= n < 16
    ensures HexValue(HexDigit(n)) == Some(n) && !IsAsciiSpace(HexDigit(n))
    ensures '0' <= HexDigit(n) <= '9' || 'a' <= HexDigit(n) <= 'f'
  {
  }

  lemma {:induction false} HexRoundTrip(bs: Bytes)
    ensures FromHex(ToHex(bs)) == Some(bs) && IsLowerHex(ToHex(bs))
  {
    if bs != [] {
      var s := ToHex(bs);
      HexDigitRoundTrip(bs[0] / 16);
      HexDigitRoundTrip(bs[0] % 16);
      HexRoundTrip(bs[1..]);
      assert s[0] == HexDigit(bs[0] / 16) && s[1] == HexDigit(bs[0] % 16);
      assert s[2..] == ToHex(bs[1..]);
      assert forall i :: 2 <= i < |s| ==> s[i] == s[2..][i - 2];
      assert bs == [bs[0]] + bs[1..];
    }
  }

  lemma {:induction false} LowerHexIsLower(s: string)
    requires IsLowerHex(s)
    ensures Lower(s) == s && IsAscii(s)
  {
    if s != "" {
      LowerHexIsLower(s[1..]);
      assert s == [s[0]] + s[1..];
    }
  }

  lemma {:induction false} FromHexLength(s: string)
    ensures FromHex(s).Some? ==> 2 * |FromHex(s).value| <= |s|
    decreases |s|
  {
    if s != "" {
      FromHexLength(s[1..]);
      if |s| > 1 {
        FromHexLength(s[2..]);
      }
    }
  }

  predicate AllHexDigits(s: string) {
    forall i :: 0 <= i < |s| ==> '0' <= s[i] <= '9' || 'a' <= s[i] <= 'f' || 'A' <= s[i] <= 'F'
  }

  lemma HexDigitsInPairs(s: string)
    requires |s| > 1
    ensures AllHexDigits(s) <==> HexValue(s[0]).Some? && HexValue(s[1]).Some? && AllHexDigits(s[2..])
  {
    assert forall i :: 2 <= i < |s| ==> s[i] == s[2..][i - 2];
    assert forall i :: 0 <= i < |s[2..]| ==> s[2..][i] == s[i + 2];
  }

  /** A text without white space reads as hex exactly when it is an even number of digits. */
  lemma {:induction false} HexReadsIff(s: string)
    requires forall i :: 0 <= i < |s| ==> s[i] as int !in {9, 10, 11, 12, 13, 32}
    ensures FromHex(s).Some? <==> |s| % 2 == 0 && AllHexDigits(s)
    decreases |s|
  {
    if |s| > 1 {
      HexReadsIff(s[2..]);
      HexDigitsInPairs(s);
    }
  }

  /** A text is the printed hex of some bytes in either case exactly when it reads as them and has
      no room for white space. */
  lemma {:induction false} LowerIsHexIff(s: string, bs: Bytes)
    ensures Lower(s) == ToHex(bs) <==> |s| == 2 * |bs| && FromHex(s) == Some(bs)
    decreases |bs|
  {
    if bs != [] && |s| == 2 * |bs| {
      LowerIsHexIff(s[2..], bs[1..]);
      LowerDigitIff(s[0], bs[0] / 16);
      LowerDigitIff(s[1], bs[0] % 16);
      FirstPairRead(s, bs);
      FirstPairPrinted(s, bs);
    }
  }

  lemma FirstPairRead(s: string, bs: Bytes)
    requires bs != [] && |s| == 2 * |bs|
    ensures FromHex(s) == Some(bs) <==>
            HexValue(s[0]) == Some(bs[0] / 16) && HexValue(s[1]) == Some(bs[0] % 16) && FromHex(s[2..]) == Some(bs[1..])
  {
    FromHexLength(s[1..]);
    LowerDigitIff(s[0], bs[0] / 16);
    if HexValue(s[0]).Some? && HexValue(s[1]).Some? && FromHex(s[2..]).Some? {
      var rest := FromHex(s[2..]).value;
      var x: byte := 16 * HexValue(s[0]).value + HexValue(s[1]).value;
      assert FromHex(s) == Some([x] + rest);
      assert ([x] + rest)[0] == x && ([x] + rest)[1..] == rest;
      assert bs == [bs[0]] + bs[1..];
    }
  }

  lemma FirstPairPrinted(s: string, bs: Bytes)
    requires bs != [] && |s| == 2 * |bs|
    ensures Lower(s) == ToHex(bs) <==>
            LowerChar(s[0]) == HexDigit(bs[0] / 16) && LowerChar(s[1]) == HexDigit(bs[0] % 16) && Lower(s[2..]) == ToHex(bs[1..])
  {
    LowerPair(s);
    SamePairAndRest(LowerChar(s[0]), LowerChar(s[1]), Lower(s[2..]),
                    HexDigit(bs[0] / 16), HexDigit(bs[0] % 16), ToHex(bs[1..]));
  }

  lemma LowerPair(s: string)
    requires |s| > 1
    ensures Lower(s) == [LowerChar(s[0]), LowerChar(s[1])] + Lower(s[2..])
  {
    assert s[1..][0] == s[1] && s[1..][1..] == s[2..];
  }

  lemma SamePairAndRest(a: char, b: char, x: string, c: char, d: char, y: string)
    ensures [a, b] + x == [c, d] + y <==> a == c && b == d && x == y
  {
    var s, t := [a, b] + x, [c, d] + y;
    assert s[2..] == x && t[2..] == y && s[0] == a && s[1] == b && t[0] == c && t[1] == d;
  }

  /** A digit of either case stands for its value. */
  lemma LowerDigitIff(c: char, n: int)
    requires 0 <= n < 16
    ensures LowerChar(c) == "0123456789abcdef"[n] <==> HexValue(c) == Some(n)
    ensures HexDigit(n) == "0123456789abcdef"[n]
    ensures HexValue(c).Some? ==> !IsAsciiSpace(c)
  {
  }

  /** White space between two runs of digits is skipped. */
  lemma {:induction false} HexSkipsSpace(a: string, w: string, b: string)
    requires FromHex(a).Some? && forall i :: 0 <= i < |w| ==> w[i] as int in {9, 10, 11, 12, 13, 32}
    ensures FromHex(a + w + b)
            == match FromHex(b) case None => None case Some(bs) => Some(FromHex(a).value + bs)
    decreases |a|
  {
    var s := a + w + b;
    if a == "" {
      SpaceSkipped(w, b);
      assert s == w + b;
      assert FromHex(b).Some? ==> [] + FromHex(b).value == FromHex(b).value;
    } else if IsAsciiSpace(a[0]) {
      HexSkipsSpace(a[1..], w, b);
      assert s[1..] == a[1..] + w + b;
    } else {
      HexSkipsSpace(a[2..], w, b);
      assert s[0] == a[0] && s[1] == a[1] && s[2..] == a[2..] + w + b;
      var rest := FromHex(a[2..]).value;
      var x: byte := 16 * HexValue(a[0]).value + HexValue(a[1]).value;
      assert FromHex(a) == Some([x] + rest);
      if FromHex(b).Some? {
        assert FromHex(s) == Some([x] + (rest + FromHex(b).value));
        assert [x] + (rest + FromHex(b).value) == [x] + rest + FromHex(b).value;
      }
    }
  }

  lemma {:induction false} SpaceSkipped(w: string, b: string)
    requires forall i :: 0 <= i < |w| ==> IsAsciiSpace(w[i])
    ensures FromHex(w + b) == FromHex(b)
  {
    if w == "" {
      assert w + b == b;
    } else {
      assert (w + b)[1..] == w[1..] + b;
      SpaceSkipped(w[1..], b);
    }
  }

  lemma HexInjective(a: Bytes, b: Bytes)
    requires ToHex(a) == ToHex(b)
    ensures a == b
  {
    HexRoundTrip(a);
    HexRoundTrip(b);
  }

  // -------------------------------------------------------------- decimal

  function DecNat(n: nat): (s: string)
    ensures |s| > 0
    ensures forall i :: 0 <= i < |s| ==> '0' <= s[i] <= '9'
  {
    if n < 10 then [(n + '0' as int) as char] else DecNat(n / 10) + DecNat(n % 10)
  }

  /** An integer as `f"{n}"` prints it. */
  function Dec(n: int): string {
    if n < 0 then "-" + DecNat(-n) else DecNat(n)
  }

  /** What a run of digits stands for, read from the left. */
  function Decimal(s: string): int {
    if s == "" then 0 else 10 * Decimal(s[..|s| - 1]) + (s[|s| - 1] as int - '0' as int)
  }

  /** A printed natural number reads back, and starts with 0 only if it is 0. */
  lemma {:induction false} DecReadsBack(n: nat)
    ensures Decimal(DecNat(n)) == n && (DecNat(n)[0] == '0' <==> n == 0)
    ensures Dec(n) == DecNat(n) && (n > 0 ==> Dec(0 - n) == "-" + DecNat(n))
  {
    if n >= 10 {
      DecReadsBack(n / 10);
      assert DecNat(n % 10) == [(n % 10 + '0' as int) as char];
      assert DecNat(n)[..|DecNat(n)| - 1] == DecNat(n / 10);
    } else {
      assert DecNat(n)[..0] == "";
    }
  }

  lemma {:induction false} DecNatInjective(m: nat, n: nat)
    requires DecNat(m) == DecNat(n)
    ensures m == n
  {
    if m < 10 || n < 10 {
      assert m < 10 && n < 10;
    } else {
      assert DecNat(m / 10) == DecNat(m)[..|DecNat(m)| - 1];
      assert DecNat(n / 10) == DecNat(n)[..|DecNat(n)| - 1];
      assert DecNat(m)[|DecNat(m)| - 1] == DecNat(m % 10)[0];
      assert DecNat(n)[|DecNat(n)| - 1] == DecNat(n % 10)[0];
      DecNatInjective(m / 10, n / 10);
    }
  }

  lemma DecInjective(m: int, n: int)
    requires Dec(m) == Dec(n)
    ensures m == n
  {
    assert (Dec(m)[0] == '-') == (m < 0) && (Dec(n)[0] == '-') == (n < 0);
    if m < 0 {
      assert Dec(m)[1..] == DecNat(-m) && Dec(n)[1..] == DecNat(-n);
      DecNatInjective(-m, -n);
    } else {
      DecNatInjective(m, n);
    }
  }
}
