/**
  The scalar codec (pkg/crypto/scalar.go) and the browser's hexadecimal text
  (js_client/src/utils.ts).
 */
module Codec {
  import opened Wrappers
  import opened Bytes

  /** The order of the scalar field. */
  const ORDER: nat := 0x73eda753299d7d483339d80809a1d80553bda402fffe5bfeffffffff00000001

  /** The curve's parameter, and the order it gives: x^4 - x^2 + 1. */
  const CURVE_X: nat := 0xd201000000010000

  lemma OrderOfTheCurve()
    ensures ORDER == CURVE_X * CURVE_X * CURVE_X * CURVE_X - CURVE_X * CURVE_X + 1
  {}

  function Pow256(n: nat): nat {
    if n == 0 then 1 else 256 * Pow256(n - 1)
  }

  /** The number a big-endian byte string denotes. */
  function FromBE(b: seq<byte>): nat {
    if b == [] then 0 else FromBE(b[..|b| - 1]) * 256 + b[|b| - 1]
  }

  /** The lowest `len` bytes of a number, big-endian. */
  function ToBE(v: nat, len: nat): (b: seq<byte>)
    ensures |b| == len
  {
    if len == 0 then [] else ToBE(v / 256, len - 1) + [v % 256]
  }

  lemma {:induction false} FromToBE(v: nat, len: nat)
    requires v < Pow256(len)
    ensures FromBE(ToBE(v, len)) == v
  {
    if len == 0 {
    } else {
      FromToBE(v / 256, len - 1);
      var b := ToBE(v, len);
      assert b[..|b| - 1] == ToBE(v / 256, len - 1);
    }
  }

  lemma {:induction false} ToFromBE(b: seq<byte>)
    ensures FromBE(b) < Pow256(|b|)
    ensures ToBE(FromBE(b), |b|) == b
  {
    if b == [] {
    } else {
      var i := b[..|b| - 1];
      ToFromBE(i);
      assert FromBE(b) / 256 == FromBE(i) && FromBE(b) % 256 == b[|b| - 1];
      assert i + [b[|b| - 1]] == b;
    }
  }

  /** The first byte is the most significant one. */
  lemma {:induction false} LeadingByte(x: byte, b: seq<byte>)
    ensures FromBE([]) == 0 && FromBE([x] + b) == x * Pow256(|b|) + FromBE(b)
  {
    if b == [] {
      assert [x] + b == [x];
    } else {
      var i := b[..|b| - 1];
      LeadingByte(x, i);
      assert ([x] + b)[..|b|] == [x] + i;
    }
  }

  lemma {:induction false} ZeroBytes(b: seq<byte>)
    ensures FromBE(b) == 0 <==> forall i :: 0 <= i < |b| ==> b[i] == 0
  {
    if b == [] {
    } else {
      var i := b[..|b| - 1];
      ZeroBytes(i);
      assert forall k :: 0 <= k < |i| ==> i[k] == b[k];
    }
  }

  lemma Pow256Four(n: nat)
    ensures Pow256(n + 4) == 0x1_0000_0000 * Pow256(n)
  {
    assert Pow256(n + 4) == 256 * Pow256(n + 3);
    assert Pow256(n + 3) == 256 * Pow256(n + 2);
    assert Pow256(n + 2) == 256 * Pow256(n + 1);
  }

  lemma OrderFits()
    ensures ORDER < Pow256(32)
  {
    Pow256Four(0);
    Pow256Four(4);
    Pow256Four(8);
    Pow256Four(12);
    Pow256Four(16);
    Pow256Four(20);
    Pow256Four(24);
    Pow256Four(28);
  }

  function ScalarBytes(v: nat): (b: seq<byte>) {
    ToBE(v, 32)
  }

  function ScalarFromBytes(b: seq<byte>): Result<nat, string> {
    if |b| != 32 then Err("scalar must be 32 bytes")
    else if FromBE(b) >= ORDER then Err("scalar is out of range")
    else Ok(FromBE(b))
  }

  /** The decoder accepts exactly the encodings of scalars below the order, and inverts the encoder. */
  lemma ScalarCodec(b: seq<byte>, v: nat)
    requires v < ORDER
    ensures ScalarFromBytes(ScalarBytes(v)) == Ok(v)
    ensures ScalarFromBytes(b) == Ok(v) <==> b == ScalarBytes(v)
    ensures ScalarFromBytes(b).Ok? ==> ScalarBytes(ScalarFromBytes(b).value) == b
  {
    OrderFits();
    FromToBE(v, 32);
    if |b| == 32 {
      ToFromBE(b);
    }
  }

  /** IsZero scans the encoding for a non-zero byte. */
  method IsZero(v: nat) returns (zero: bool)
    requires v < ORDER
    ensures zero <==> v == 0
  {
    var b := ScalarBytes(v);
    OrderFits();
    FromToBE(v, 32);
    ZeroBytes(b);
    for i := 0 to |b|
      invariant forall k :: 0 <= k < i ==> b[k] == 0
    {
      if b[i] != 0 {
        return false;
      }
    }
    return true;
  }

  // ----- Hexadecimal text -----

  function HexDigit(n: nat): char
    requires n < 16
  {
    if n < 10 then '0' + n as char else 'a' + (n - 10) as char
  }

  /** byte.toString(16).padStart(2, '0') */
  function HexByte(b: byte): string {
    var text := if b < 16 then [HexDigit(b)] else [HexDigit(b / 16), HexDigit(b % 16)];
    if |text| < 2 then "0" + text else text
  }

  function BytesToHex(b: seq<byte>): (s: string)
    ensures |s| == 2 * |b|
  {
    if b == [] then "" else HexByte(b[0]) + BytesToHex(b[1..])
  }

  function DigitValue(c: char): Option<nat> {
    if '0' <= c <= '9' then Some(c as int - '0' as int)
    else if 'a' <= c <= 'f' then Some(c as int - 'a' as int + 10)
    else if 'A' <= c <= 'F' then Some(c as int - 'A' as int + 10)
    else None
  }

  predicate IsSpace(c: char) {
    var u := c as int;
    0x9 <= u <= 0xD || u in {0x20, 0xA0, 0x1680, 0x2028, 0x2029, 0x202F, 0x205F, 0x3000, 0xFEFF} || 0x2000 <= u <= 0x200A
  }

  /**
    Number.parseInt of two characters in base 16, stored in a Uint8Array: leading white space and
    a sign are read, reading stops at the first other character, and "not a number" becomes 0.
   */
  function ParseByte(c: char, d: char): byte {
    var last := DigitValue(d);
    if IsSpace(c) || c == '+' then (if last.Some? then last.value % 256 else 0)
    else if c == '-' then (if last.Some? then (256 - last.value % 256) % 256 else 0)
    else match DigitValue(c)
      case None => 0
      case Some(v) => if last.Some? then (v * 16 + last.value) % 256 else v % 256
  }

  function Normalized(hex: string): string {
    if |hex| >= 2 && hex[..2] == "0x" then hex[2..] else hex
  }

  function HexToBytesSpec(hex: string): Result<seq<byte>, string> {
    var n := Normalized(hex);
    if |n| % 2 != 0 then Err("Hex string must have even length")
    else Ok(seq(|n| / 2, k requires 0 <= k < |n| / 2 => ParseByte(n[2 * k], n[2 * k + 1])))
  }

  method HexToBytes(hex: string) returns (r: Result<seq<byte>, string>)
    ensures r == HexToBytesSpec(hex)
  {
    var normalized := Normalized(hex);
    if |normalized| % 2 != 0 {
      return Err("Hex string must have even length");
    }
    var bytes := new byte[|normalized| / 2](_ => 0);
    var i := 0;
    while i < |normalized|
      invariant 0 <= i <= |normalized| && i % 2 == 0
      invariant forall k :: 0 <= k < i / 2 ==> bytes[k] == ParseByte(normalized[2 * k], normalized[2 * k + 1])
    {
      bytes[i / 2] := ParseByte(normalized[i], normalized[i + 1]);
      i := i + 2;
    }
    r := Ok(bytes[..]);
    assert bytes[..] == HexToBytesSpec(hex).value;
  }

  predicate IsHexDigit(c: char) {
    '0' <= c <= '9' || 'a' <= c <= 'f'
  }

  /** Base 16 text of RFC 4648, section 8, in lower case. */
  predicate Canonical(s: string) {
    |s| % 2 == 0 && forall i :: 0 <= i < |s| ==> IsHexDigit(s[i])
  }

  lemma TwoDigits(v: nat, w: nat)
    requires v < 16 && w < 16
    ensures HexByte(v * 16 + w) == [HexDigit(v), HexDigit(w)]
  {
    var b := v * 16 + w;
    assert b / 16 == v && b % 16 == w;
    assert "0"[0] == HexDigit(0);
  }

  lemma DigitReads(n: nat)
    requires n < 16
    ensures DigitValue(HexDigit(n)) == Some(n) && IsHexDigit(HexDigit(n)) && !IsSpace(HexDigit(n))
  {}

  lemma HexByteParses(b: byte)
    ensures |HexByte(b)| == 2 && ParseByte(HexByte(b)[0], HexByte(b)[1]) == b
    ensures IsHexDigit(HexByte(b)[0]) && IsHexDigit(HexByte(b)[1])
  {
    var v, w := b / 16, b % 16;
    DigitReads(v);
    DigitReads(w);
    TwoDigits(v, w);
    assert HexByte(b) == [HexDigit(v), HexDigit(w)];
    assert ParseByte(HexDigit(v), HexDigit(w)) == (v * 16 + w) % 256;
  }

  lemma DigitPrints(c: char)
    requires IsHexDigit(c)
    ensures DigitValue(c).Some? && DigitValue(c).value < 16 && HexDigit(DigitValue(c).value) == c
  {}

  lemma ParsedPrints(c: char, d: char)
    requires IsHexDigit(c) && IsHexDigit(d)
    ensures HexByte(ParseByte(c, d)) == [c, d]
  {
    DigitPrints(c);
    DigitPrints(d);
    var v, w := DigitValue(c).value, DigitValue(d).value;
    TwoDigits(v, w);
    assert ParseByte(c, d) == v * 16 + w;
  }

  lemma SliceOfTail(head: string, tail: string, k: nat)
    requires |head| == 2 && 2 * k + 2 <= |tail|
    ensures (head + tail)[2 * (k + 1)..2 * (k + 1) + 2] == tail[2 * k..2 * k + 2]
  {}

  lemma {:induction false} HexAt(b: seq<byte>, k: nat)
    requires k < |b|
    ensures BytesToHex(b)[2 * k..2 * k + 2] == HexByte(b[k])
  {
    HexByteParses(b[0]);
    if k > 0 {
      HexAt(b[1..], k - 1);
      SliceOfTail(HexByte(b[0]), BytesToHex(b[1..]), k - 1);
    } else {
      assert BytesToHex(b)[0..2] == HexByte(b[0]);
    }
  }

  lemma {:induction false} HexIsCanonical(b: seq<byte>)
    ensures Canonical(BytesToHex(b))
    ensures Normalized(BytesToHex(b)) == BytesToHex(b)
  {
    if b == [] {
    } else {
      HexByteParses(b[0]);
      HexIsCanonical(b[1..]);
      assert BytesToHex(b)[1] == HexByte(b[0])[1];
      assert "0x"[1] == 'x';
    }
  }

  lemma HexParsesAt(b: seq<byte>, k: nat)
    requires k < |b|
    ensures ParseByte(BytesToHex(b)[2 * k], BytesToHex(b)[2 * k + 1]) == b[k]
  {
    var s := BytesToHex(b);
    HexAt(b, k);
    HexByteParses(b[k]);
    assert s[2 * k] == s[2 * k..2 * k + 2][0] && s[2 * k + 1] == s[2 * k..2 * k + 2][1];
  }

  /** hexToBytes inverts bytesToHex on every byte array. */
  lemma HexRoundTrip(b: seq<byte>)
    ensures HexToBytesSpec(BytesToHex(b)) == Ok(b)
  {
    HexIsCanonical(b);
    var parsed := HexToBytesSpec(BytesToHex(b)).value;
    forall k | 0 <= k < |b| ensures parsed[k] == b[k] {
      HexParsesAt(b, k);
    }
    assert parsed == b;
  }

  lemma {:induction false} SameHex(b: seq<byte>, s: string)
    requires |s| == 2 * |b|
    requires forall k :: 0 <= k < |b| ==> HexByte(b[k]) == [s[2 * k], s[2 * k + 1]]
    ensures BytesToHex(b) == s
  {
    if b == [] {
    } else {
      var c, t := b[1..], s[2..];
      forall k | 0 <= k < |c| ensures HexByte(c[k]) == [t[2 * k], t[2 * k + 1]] {
        assert c[k] == b[k + 1] && t[2 * k] == s[2 * (k + 1)] && t[2 * k + 1] == s[2 * (k + 1) + 1];
      }
      SameHex(c, t);
      assert HexByte(b[0]) == [s[2 * 0], s[2 * 0 + 1]];
      assert s == [s[0], s[1]] + t;
    }
  }

  /** bytesToHex inverts hexToBytes on exactly the canonical texts. */
  lemma HexTextRoundTrip(s: string)
    ensures HexToBytesSpec(s).Ok? && BytesToHex(HexToBytesSpec(s).value) == s <==> Canonical(s)
  {
    if Canonical(s) {
      assert Normalized(s) == s by {
        assert "0x"[1] == 'x';
        if |s| >= 2 {
          assert s[..2][1] == s[1];
          assert IsHexDigit(s[1]);
        }
      }
      var b := HexToBytesSpec(s).value;
      forall k | 0 <= k < |b| ensures HexByte(b[k]) == [s[2 * k], s[2 * k + 1]] {
        ParsedPrints(s[2 * k], s[2 * k + 1]);
      }
      SameHex(b, s);
    } else if HexToBytesSpec(s).Ok? {
      HexIsCanonical(HexToBytesSpec(s).value);
    }
  }

  // ----- The digits, spelled out -----

  const LOWER: string := "0123456789abcdef"
  const UPPER: string := "0123456789ABCDEF"

  lemma DigitAlphabet(v: nat)
    requires v < 16
    ensures |LOWER| == 16 && |UPPER| == 16 && HexDigit(v) == LOWER[v]
    ensures DigitValue(LOWER[v]) == Some(v) && DigitValue(UPPER[v]) == Some(v)
    ensures !IsSpace(LOWER[v]) && !IsSpace(UPPER[v])
  {
    assert forall i :: 0 <= i < 10 ==> LOWER[i] == UPPER[i] == '0' + i as char;
    assert forall i :: 10 <= i < 16 ==> LOWER[i] == 'a' + (i - 10) as char && UPPER[i] == 'A' + (i - 10) as char;
  }

  lemma Parses(c: char, d: char)
    requires DigitValue(c).Some? && DigitValue(d).Some? && !IsSpace(c)
    ensures ParseByte(c, d) == DigitValue(c).value * 16 + DigitValue(d).value
  {}

  /** The high digit comes first in print. */
  lemma PrintsPair(v: nat, w: nat)
    requires v < 16 && w < 16
    ensures HexByte(v * 16 + w) == [LOWER[v], LOWER[w]]
  {
    DigitAlphabet(v);
    DigitAlphabet(w);
    TwoDigits(v, w);
  }

  /** And in reading, of digits in either case. */
  lemma ReadsPair(v: nat, w: nat, c: char, d: char)
    requires v < 16 && w < 16 && (c == LOWER[v] || c == UPPER[v]) && (d == LOWER[w] || d == UPPER[w])
    ensures ParseByte(c, d) == v * 16 + w
  {
    DigitAlphabet(v);
    DigitAlphabet(w);
    Parses(c, d);
  }

  /**
    What two characters amount to that are not two digits: one digit counts alone, also after white
    space or a plus, and negative after a minus; anything else is 0.
   */
  lemma LenientByte(c: char, d: char)
    ensures var v, w := DigitValue(c), DigitValue(d);
            && (v.Some? && w.None? ==> ParseByte(c, d) == v.value)
            && (v.None? && w.Some? && (IsSpace(c) || c == '+') ==> ParseByte(c, d) == w.value)
            && (v.None? && w.Some? && c == '-' ==> ParseByte(c, d) == if w.value == 0 then 0 else 256 - w.value)
            && (v.None? && (w.None? || !(IsSpace(c) || c in "+-")) ==> ParseByte(c, d) == 0)
  {
    assert c in "+-" <==> c == '+' || c == '-';
    assert DigitValue(d).Some? ==> DigitValue(d).value < 16;
    assert DigitValue(c).Some? ==> DigitValue(c).value < 16;
  }

  /** A prefix "0x" is skipped, and then the text is read two characters at a time. */
  lemma HexTextExact(hex: string)
    ensures var skip := if |hex| >= 2 && hex[0] == '0' && hex[1] == 'x' then 2 else 0;
            && (HexToBytesSpec(hex).Ok? <==> |hex| % 2 == 0)
            && (HexToBytesSpec(hex).Ok? ==>
                 var b := HexToBytesSpec(hex).value;
                 && |b| == (|hex| - skip) / 2
                 && forall k :: 0 <= k < |b| ==> b[k] == ParseByte(hex[skip + 2 * k], hex[skip + 2 * k + 1]))
  {
    assert |hex| >= 2 ==> (hex[..2] == "0x" <==> hex[0] == '0' && hex[1] == 'x') by {
      if |hex| >= 2 {
        assert hex[..2] == [hex[0], hex[1]];
        assert "0x"[0] == '0' && "0x"[1] == 'x';
      }
    }
  }
}
