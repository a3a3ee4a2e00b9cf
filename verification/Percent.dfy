/**
  Percent-encoding of column values.  A value is encoded byte by byte from its UTF-8 form;
  besides the unreserved characters of section 2.3 of RFC 3986, ':' and '/' stay as they are.
  */
module Percent {
  import opened Prelude

  newtype Byte = x: int | 0 <= x < 256

  // ------------------------------------------------------------------------------
  // UTF-8
  // ------------------------------------------------------------------------------

  function CharBytes(c: char): seq<Byte> {
    var n := c as int;
    if n < 0x80 then [n as Byte]
    else if n < 0x800 then [(0xC0 + n / 64) as Byte, (0x80 + n % 64) as Byte]
    else if n < 0x1_0000 then [(0xE0 + n / 4096) as Byte, (0x80 + n / 64 % 64) as Byte, (0x80 + n % 64) as Byte]
    else [(0xF0 + n / 262144) as Byte, (0x80 + n / 4096 % 64) as Byte, (0x80 + n / 64 % 64) as Byte, (0x80 + n % 64) as Byte]
  }

  function Utf8(s: string): seq<Byte> {
    if s == "" then [] else CharBytes(s[0]) + Utf8(s[1..])
  }

  predicate IsScalar(n: int) {
    0 <= n < 0xD800 || 0xE000 <= n < 0x11_0000
  }

  /** The code point that starts `b` and its number of bytes. */
  function FirstChar(b: seq<Byte>): Option<(int, nat)>
    requires b != []
  {
    var x := b[0] as int;
    if x < 0x80 then Some((x, 1))
    else if 0xC0 <= x < 0xE0 && |b| >= 2 then Some(((x - 0xC0) * 64 + (b[1] as int - 0x80), 2))
    else if 0xE0 <= x < 0xF0 && |b| >= 3 then
      Some(((x - 0xE0) * 4096 + (b[1] as int - 0x80) * 64 + (b[2] as int - 0x80), 3))
    else if 0xF0 <= x && |b| >= 4 then
      Some(((x - 0xF0) * 262144 + (b[1] as int - 0x80) * 4096 + (b[2] as int - 0x80) * 64 + (b[3] as int - 0x80), 4))
    else None
  }

  function FromUtf8(b: seq<Byte>): Option<string> {
    if b == [] then Some("")
    else match FirstChar(b)
      case None => None
      case Some((n, k)) =>
        if !IsScalar(n) then None
        else match FromUtf8(b[k..])
          case None => None
          case Some(rest) => Some([n as char] + rest)
  }

  lemma Digits(n: nat)
    ensures n == n / 64 * 64 + n % 64
    ensures n == n / 4096 * 4096 + n / 64 % 64 * 64 + n % 64
    ensures n == n / 262144 * 262144 + n / 4096 % 64 * 4096 + n / 64 % 64 * 64 + n % 64
  {
    var a := n / 64;
    var b := a / 64;
    assert n == a * 64 + n % 64 && a == b * 64 + a % 64 && b == b / 64 * 64 + b % 64;
    assert b == n / 4096 by { DivDiv(n, 64); }
    assert b / 64 == n / 262144 by { DivDiv(n, 4096); }
  }

  lemma DivDiv(n: nat, k: nat)
    requires k == 64 || k == 4096
    ensures n / k / 64 == n / (k * 64)
  {
  }

  lemma FirstOfThree(x: int, y: int, z: int, rest: seq<Byte>)
    requires 0 <= x < 16 && 0 <= y < 64 && 0 <= z < 64
    ensures FirstChar([(0xE0 + x) as Byte, (0x80 + y) as Byte, (0x80 + z) as Byte] + rest)
         == Some((x * 4096 + y * 64 + z, 3))
  {
  }

  lemma FirstOfFour(w: int, x: int, y: int, z: int, rest: seq<Byte>)
    requires 0 <= w < 16 && 0 <= x < 64 && 0 <= y < 64 && 0 <= z < 64
    ensures FirstChar([(0xF0 + w) as Byte, (0x80 + x) as Byte, (0x80 + y) as Byte, (0x80 + z) as Byte] + rest)
         == Some((w * 262144 + x * 4096 + y * 64 + z, 4))
  {
  }

  lemma FirstCharOf(c: char, rest: seq<Byte>)
    ensures CharBytes(c) != [] && FirstChar(CharBytes(c) + rest) == Some((c as int, |CharBytes(c)|))
  {
    var n := c as int;
    Digits(n);
    if n < 0x800 {
      var b := CharBytes(c) + rest;
      assert b[0] == CharBytes(c)[0];
    } else if n < 0x1_0000 {
      FirstOfThree(n / 4096, n / 64 % 64, n % 64, rest);
    } else {
      FirstOfFour(n / 262144, n / 4096 % 64, n / 64 % 64, n % 64, rest);
    }
  }

  lemma {:induction false} Utf8RoundTrip(s: string)
    ensures FromUtf8(Utf8(s)) == Some(s)
  {
    if s != "" {
      var c := s[0];
      Utf8RoundTrip(s[1..]);
      FirstCharOf(c, Utf8(s[1..]));
      assert (CharBytes(c) + Utf8(s[1..]))[|CharBytes(c)|..] == Utf8(s[1..]);
      assert s == [c] + s[1..];
    }
  }

  // ------------------------------------------------------------------------------
  // Percent-encoding
  // ------------------------------------------------------------------------------

  /** Bytes that are copied. */
  predicate Plain(b: Byte) {
    || 65 <= b <= 90 || 97 <= b <= 122 || 48 <= b <= 57
    || b == 45 || b == 95 || b == 46 || b == 126 || b == 58 || b == 47
  }

  /** The unreserved characters, and ':' and '/'. */
  predicate PlainChar(c: char) {
    'A' <= c <= 'Z' || 'a' <= c <= 'z' || '0' <= c <= '9' || c in "-._~:/"
  }

  lemma PlainCharIsPlain(c: char)
    ensures PlainChar(c) <==> (c as int) < 128 && Plain(c as int as Byte)
  {
  }

  function HexDigit(n: int): char
    requires 0 <= n < 16
  {
    if n < 10 then (48 + n) as char else (55 + n) as char
  }

  function HexValue(c: char): Option<int> {
    if '0' <= c <= '9' then Some(c as int - 48)
    else if 'A' <= c <= 'F' then Some(c as int - 55)
    else if 'a' <= c <= 'f' then Some(c as int - 87)
    else None
  }

  function EncodeByte(b: Byte): string {
    if Plain(b) then [b as int as char] else ['%', HexDigit(b as int / 16), HexDigit(b as int % 16)]
  }

  function EncodeBytes(bs: seq<Byte>): string {
    if bs == [] then "" else EncodeBytes(bs[..|bs| - 1]) + EncodeByte(bs[|bs| - 1])
  }

  /** Percent-decoding, section 2.1 of RFC 3986. */
  function DecodeBytes(s: string): Option<seq<Byte>>
    decreases |s|
  {
    if s == "" then Some([])
    else if s[0] == '%' then
      if |s| < 3 || HexValue(s[1]).None? || HexValue(s[2]).None? then None
      else match DecodeBytes(s[3..])
        case None => None
        case Some(rest) => Some([(HexValue(s[1]).value * 16 + HexValue(s[2]).value) as Byte] + rest)
    else if s[0] as int >= 256 then None
    else match DecodeBytes(s[1..])
      case None => None
      case Some(rest) => Some([s[0] as int as Byte] + rest)
  }

  function EncodeValue(v: string): string {
    EncodeBytes(Utf8(v))
  }

  lemma DecodeFirst(b: Byte, rest: string)
    ensures DecodeBytes(EncodeByte(b) + rest)
         == match DecodeBytes(rest) case None => None case Some(bs) => Some([b] + bs)
  {
  }

  lemma {:induction false} DecodePrefix(bs: seq<Byte>, rest: string)
    requires DecodeBytes(rest).Some?
    ensures DecodeBytes(EncodeBytes(bs) + rest) == Some(bs + DecodeBytes(rest).value)
    decreases |bs|
  {
    if bs == [] {
      assert EncodeBytes(bs) + rest == rest;
      assert bs + DecodeBytes(rest).value == DecodeBytes(rest).value;
    } else {
      var n := |bs| - 1;
      DecodeFirst(bs[n], rest);
      DecodePrefix(bs[..n], EncodeByte(bs[n]) + rest);
      assert EncodeBytes(bs[..n]) + (EncodeByte(bs[n]) + rest) == EncodeBytes(bs) + rest;
      assert bs[..n] + ([bs[n]] + DecodeBytes(rest).value) == bs + DecodeBytes(rest).value;
    }
  }

  lemma BytesRoundTrip(bs: seq<Byte>)
    ensures DecodeBytes(EncodeBytes(bs)) == Some(bs)
  {
    assert DecodeBytes("") == Some([]);
    DecodePrefix(bs, "");
    assert EncodeBytes(bs) + "" == EncodeBytes(bs);
    assert bs + [] == bs;
  }

  /** Decoding the characters and then the bytes gives the value back. */
  lemma PercentRoundTrip(v: string)
    ensures DecodeBytes(EncodeValue(v)) == Some(Utf8(v)) && FromUtf8(DecodeBytes(EncodeValue(v)).value) == Some(v)
  {
    BytesRoundTrip(Utf8(v));
    Utf8RoundTrip(v);
  }

  lemma DistinctValuesStayDistinct(v: string, w: string)
    ensures EncodeValue(v) == EncodeValue(w) <==> v == w
  {
    PercentRoundTrip(v);
    PercentRoundTrip(w);
  }

  /** Only plain characters, '%' and capital hexadecimal digits come out. */
  lemma {:induction false} EncodedIsClean(bs: seq<Byte>)
    ensures forall i :: 0 <= i < |EncodeBytes(bs)| ==> PlainChar(EncodeBytes(bs)[i]) || EncodeBytes(bs)[i] == '%'
  {
    if bs != [] {
      EncodedIsClean(bs[..|bs| - 1]);
      var b := bs[|bs| - 1];
      PlainCharIsPlain(b as int as char);
      assert forall n :: 0 <= n < 16 ==> PlainChar(HexDigit(n));
      assert forall i :: 0 <= i < |EncodeByte(b)| ==> PlainChar(EncodeByte(b)[i]) || EncodeByte(b)[i] == '%';
    }
  }

  /** Every '%' starts an escape of two capital hexadecimal digits. */
  ghost predicate EscapesAreCapital(s: string) {
    forall i :: 0 <= i < |s| && s[i] == '%' ==> i + 2 < |s| && s[i + 1] in "0123456789ABCDEF" && s[i + 2] in "0123456789ABCDEF"
  }

  lemma CapitalDigits(n: int)
    requires 0 <= n < 16
    ensures HexDigit(n) == "0123456789ABCDEF"[n] && HexDigit(n) != '%'
  {
  }

  lemma {:induction false} EncodedEscapesAreCapital(bs: seq<Byte>)
    ensures EscapesAreCapital(EncodeBytes(bs))
  {
    if bs != [] {
      EncodedEscapesAreCapital(bs[..|bs| - 1]);
      var b := bs[|bs| - 1];
      CapitalDigits(b as int / 16);
      CapitalDigits(b as int % 16);
      assert EscapesAreCapital(EncodeByte(b));
    }
  }

  lemma EncodeLast(bs: seq<Byte>, b: Byte)
    ensures EncodeBytes(bs + [b]) == EncodeBytes(bs) + EncodeByte(b)
  {
    assert (bs + [b])[..|bs|] == bs;
  }

  lemma Associative(x: string, y: string, z: string)
    ensures x + (y + z) == (x + y) + z
  {
  }

  lemma ConcatStep(a: seq<Byte>, b: seq<Byte>, last: Byte)
    requires EncodeBytes(a + b) == EncodeBytes(a) + EncodeBytes(b)
    ensures EncodeBytes(a + (b + [last])) == EncodeBytes(a) + EncodeBytes(b + [last])
  {
    EncodeLast(a + b, last);
    EncodeLast(b, last);
    assert a + (b + [last]) == (a + b) + [last];
    Associative(EncodeBytes(a), EncodeBytes(b), EncodeByte(last));
  }

  lemma {:induction false} EncodeConcat(a: seq<Byte>, b: seq<Byte>)
    ensures EncodeBytes(a + b) == EncodeBytes(a) + EncodeBytes(b)
  {
    if b == [] {
      assert a + b == a;
    } else {
      EncodeConcat(a, b[..|b| - 1]);
      ConcatStep(a, b[..|b| - 1], b[|b| - 1]);
      assert b[..|b| - 1] + [b[|b| - 1]] == b;
    }
  }

  lemma {:induction false} EncodedLength(bs: seq<Byte>)
    ensures |EncodeBytes(bs)| >= |bs| && (|EncodeBytes(bs)| == |bs| ==> forall b :: b in bs ==> Plain(b))
  {
    if bs != [] {
      EncodedLength(bs[..|bs| - 1]);
    }
  }

  /** A character is encoded as itself, or in at least three characters. */
  lemma EncodedChar(c: char)
    ensures var e := EncodeBytes(CharBytes(c)); if PlainChar(c) then e == [c] else |e| >= 3
  {
    PlainCharIsPlain(c);
    var bs := CharBytes(c);
    EncodedLength(bs);
    if (c as int) < 0x80 {
      assert EncodeBytes([]) == "" && bs[..0] == [];
      assert EncodeBytes(bs) == EncodeByte(bs[0]);
    } else {
      var n := |bs| - 1;
      EncodedLength(bs[..n]);
      assert !Plain(bs[n]);
    }
  }

  /** A value stays as it is exactly when it has plain characters only; otherwise it gets longer. */
  lemma {:induction false} ValueStaysExactlyWhen(v: string)
    ensures |EncodeValue(v)| >= |v|
    ensures EncodeValue(v) == v <==> forall i :: 0 <= i < |v| ==> PlainChar(v[i])
    ensures |EncodeValue(v)| == |v| ==> EncodeValue(v) == v
  {
    if v != "" {
      var e, rest := EncodeBytes(CharBytes(v[0])), EncodeValue(v[1..]);
      EncodeConcat(CharBytes(v[0]), Utf8(v[1..]));
      assert EncodeValue(v) == e + rest;
      EncodedChar(v[0]);
      ValueStaysExactlyWhen(v[1..]);
      if PlainChar(v[0]) {
        assert (e + rest)[1..] == rest;
        assert v == [v[0]] + v[1..];
      }
    }
  }

  method PercentEncode(v: string) returns (out: string)
    ensures out == EncodeValue(v)
    ensures DecodeBytes(out) == Some(Utf8(v))
    ensures forall i :: 0 <= i < |out| ==> PlainChar(out[i]) || out[i] == '%'
    ensures EscapesAreCapital(out)
    ensures out == v <==> forall i :: 0 <= i < |v| ==> PlainChar(v[i])
  {
    var bytes := Utf8(v);
    out := "";
    for i := 0 to |bytes|
      invariant out == EncodeBytes(bytes[..i])
    {
      assert bytes[..i + 1][..i] == bytes[..i];
      var b := bytes[i];
      if Plain(b) {
        out := out + [b as int as char];
      } else {
        out := out + ['%'];
        out := out + [HexDigit(b as int / 16)];
        out := out + [HexDigit(b as int % 16)];
      }
      assert out == EncodeBytes(bytes[..i]) + EncodeByte(b);
    }
    assert bytes[..|bytes|] == bytes;
    PercentRoundTrip(v);
    EncodedIsClean(bytes);
    EncodedEscapesAreCapital(bytes);
    ValueStaysExactlyWhen(v);
  }
}
