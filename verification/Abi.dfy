/**
 The binary payload format: one tag byte, then a big-endian 64-bit integer or the operands.
 `Encode` is the encoder the format implies; the decoder is its exact inverse, so a payload has one
 spelling in bytes. Its hexadecimal text does not: a digit pair may also be spelled with a plus sign.
 */
module Abi {
  import opened Machine
  import opened Wrappers
  import opened Ast

  type Bytes = seq<Byte>

  datatype AbiError =
    | UnexpectedEnd
    | ShortInt64
    | UnknownTag(tag: Byte)
    | TrailingBytes
    | OddHexLength
    | BadHexDigit

  // ----- big-endian integers -----

  function FromBigEndian(bs: Bytes): nat {
    if bs == [] then 0 else 256 * FromBigEndian(bs[..|bs| - 1]) + bs[|bs| - 1]
  }

  function ToBigEndian(n: nat, width: nat): (bs: Bytes)
    ensures |bs| == width
  {
    if width == 0 then [] else ToBigEndian(n / 256, width - 1) + [n % 256]
  }

  function Pow256(width: nat): nat {
    if width == 0 then 1 else 256 * Pow256(width - 1)
  }

  /** Two's complement at 64 bits. */
  function ToSigned(u: nat): Int64
    requires u < TWO_TO_THE_64
  {
    if u < TWO_TO_THE_63 then u else u - TWO_TO_THE_64
  }

  function ToUnsigned(n: Int64): (u: nat)
    ensures u < TWO_TO_THE_64 && ToSigned(u) == n
  {
    if n >= 0 then n else n + TWO_TO_THE_64
  }

  lemma {:induction false} BigEndianIsBounded(bs: Bytes)
    ensures FromBigEndian(bs) < Pow256(|bs|)
  {
    if bs != [] {
      BigEndianIsBounded(bs[..|bs| - 1]);
    }
  }

  lemma {:induction false} ReadingWhatWasWritten(n: nat, width: nat)
    requires n < Pow256(width)
    ensures FromBigEndian(ToBigEndian(n, width)) == n
  {
    if width > 0 {
      var front := ToBigEndian(n / 256, width - 1);
      ReadingWhatWasWritten(n / 256, width - 1);
      assert (front + [n % 256])[..width - 1] == front;
    }
  }

  lemma {:induction false} WritingWhatWasRead(bs: Bytes)
    ensures ToBigEndian(FromBigEndian(bs), |bs|) == bs
  {
    if bs != [] {
      var front := bs[..|bs| - 1];
      WritingWhatWasRead(front);
      assert FromBigEndian(bs) / 256 == FromBigEndian(front);
      assert bs == front + [bs[|bs| - 1]];
    }
  }

  lemma EightBytesHold64Bits()
    ensures Pow256(8) == TWO_TO_THE_64
  {
    assert Pow256(4) == 0x1_0000_0000;
  }

  // ----- payloads -----

  /** The expressions a payload can spell. */
  predicate Payload(e: Expr) {
    match e
    case IntLiteral(_) => true
    case Pair(l, r) => Payload(l) && Payload(r)
    case Left(inner) => Payload(inner)
    case Right(inner) => Payload(inner)
    case _ => false
  }

  function Encode(e: Expr): Bytes
    requires Payload(e)
  {
    match e
    case IntLiteral(n) => [0x00] + ToBigEndian(ToUnsigned(n), 8)
    case Pair(l, r) => [0x01] + Encode(l) + Encode(r)
    case Left(inner) => [0x02] + Encode(inner)
    case Right(inner) => [0x03] + Encode(inner)
  }

  function ParseBytes(bytes: Bytes): (r: Result<(Expr, Bytes), AbiError>)
    ensures r.Success? ==> |r.value.1| < |bytes|
    decreases |bytes|
  {
    if bytes == [] then Failure(UnexpectedEnd)
    else
      var tag, rest := bytes[0], bytes[1..];
      if tag == 0x00 then
        if |rest| < 8 then Failure(ShortInt64)
        else
          BigEndianIsBounded(rest[..8]);
          EightBytesHold64Bits();
          Success((IntLiteral(ToSigned(FromBigEndian(rest[..8]))), rest[8..]))
      else if tag == 0x01 then
        var (left, rest1) :- ParseBytes(rest);
        var (right, rest2) :- ParseBytes(rest1);
        Success((Expr.Pair(left, right), rest2))
      else if tag == 0x02 then
        var (inner, rest1) :- ParseBytes(rest);
        Success((Expr.Left(inner), rest1))
      else if tag == 0x03 then
        var (inner, rest1) :- ParseBytes(rest);
        Success((Expr.Right(inner), rest1))
      else Failure(UnknownTag(tag))
  }

  lemma {:induction false} ParsingAnEncoding(e: Expr, rest: Bytes)
    requires Payload(e)
    ensures ParseBytes(Encode(e) + rest) == Success((e, rest))
    decreases e
  {
    match e
    case IntLiteral(n) => ParsingANumber(n, rest);
    case Pair(l, r) =>
      ParsingAnEncoding(l, Encode(r) + rest);
      ParsingAnEncoding(r, rest);
      PairBytes(0x01, Encode(l), Encode(r), rest);
      PairRule(Encode(e) + rest, l, Encode(r) + rest, r, rest);
    case Left(inner) =>
      ParsingAnEncoding(inner, rest);
      InjectionBytes(0x02, Encode(inner), rest);
      InjectionRule(Encode(e) + rest, inner, rest);
    case Right(inner) =>
      ParsingAnEncoding(inner, rest);
      InjectionBytes(0x03, Encode(inner), rest);
      InjectionRule(Encode(e) + rest, inner, rest);
  }

  lemma PairBytes(tag: Byte, a: Bytes, b: Bytes, rest: Bytes)
    ensures var s := [tag] + a + b + rest; s != [] && s[0] == tag && s[1..] == a + (b + rest)
  {
  }

  lemma InjectionBytes(tag: Byte, a: Bytes, rest: Bytes)
    ensures var s := [tag] + a + rest; s != [] && s[0] == tag && s[1..] == a + rest
  {
  }

  lemma InjectionRule(bytes: Bytes, inner: Expr, rest: Bytes)
    requires bytes != [] && (bytes[0] == 0x02 || bytes[0] == 0x03) && ParseBytes(bytes[1..]) == Success((inner, rest))
    ensures ParseBytes(bytes) == Success((if bytes[0] == 0x02 then Expr.Left(inner) else Expr.Right(inner), rest))
  {
  }

  lemma PairRule(bytes: Bytes, l: Expr, rest1: Bytes, r: Expr, rest2: Bytes)
    requires bytes != [] && bytes[0] == 0x01
    requires ParseBytes(bytes[1..]) == Success((l, rest1)) && ParseBytes(rest1) == Success((r, rest2))
    ensures ParseBytes(bytes) == Success((Expr.Pair(l, r), rest2))
  {
  }

  lemma ParsingANumber(n: Int64, rest: Bytes)
    ensures ParseBytes(Encode(IntLiteral(n)) + rest) == Success((IntLiteral(n), rest))
  {
    var bytes := Encode(IntLiteral(n)) + rest;
    var word := ToBigEndian(ToUnsigned(n), 8);
    EightBytesHold64Bits();
    ReadingWhatWasWritten(ToUnsigned(n), 8);
    assert bytes[1..] == word + rest;
    assert bytes[1..][..8] == word && bytes[1..][8..] == rest;
  }

  lemma {:induction false} AcceptedBytesAreAnEncoding(bytes: Bytes)
    requires ParseBytes(bytes).Success?
    ensures var (e, rest) := ParseBytes(bytes).value; Payload(e) && bytes == Encode(e) + rest
    decreases |bytes|
  {
    var tag, rest := bytes[0], bytes[1..];
    assert bytes == [tag] + rest;
    if tag == 0x00 {
      AcceptedWord(rest);
    } else if tag == 0x01 {
      AcceptedBytesAreAnEncoding(rest);
      var (l, middle) := ParseBytes(rest).value;
      AcceptedBytesAreAnEncoding(middle);
      var (r, end) := ParseBytes(middle).value;
      PairText(tag, Encode(l), Encode(r), end);
    } else {
      AcceptedBytesAreAnEncoding(rest);
      var (inner, end) := ParseBytes(rest).value;
      InjectionText(tag, Encode(inner), end);
    }
  }

  lemma AcceptedWord(bytes: Bytes)
    requires |bytes| >= 8
    ensures FromBigEndian(bytes[..8]) < TWO_TO_THE_64
    ensures bytes == ToBigEndian(ToUnsigned(ToSigned(FromBigEndian(bytes[..8]))), 8) + bytes[8..]
  {
    var word := bytes[..8];
    BigEndianIsBounded(word);
    EightBytesHold64Bits();
    WritingWhatWasRead(word);
    assert ToUnsigned(ToSigned(FromBigEndian(word))) == FromBigEndian(word);
  }

  lemma PairText(tag: Byte, l: Bytes, r: Bytes, end: Bytes)
    ensures [tag] + (l + (r + end)) == ([tag] + l + r) + end
  {
  }

  lemma InjectionText(tag: Byte, inner: Bytes, end: Bytes)
    ensures [tag] + (inner + end) == ([tag] + inner) + end
  {
  }

  /** Both directions at once: the decoder accepts exactly the encodings, each as its own value. */
  lemma AcceptsExactlyTheEncodings(bytes: Bytes, e: Expr, rest: Bytes)
    ensures ParseBytes(bytes) == Success((e, rest)) <==> Payload(e) && bytes == Encode(e) + rest
  {
    if ParseBytes(bytes) == Success((e, rest)) {
      AcceptedBytesAreAnEncoding(bytes);
    } else if Payload(e) && bytes == Encode(e) + rest {
      ParsingAnEncoding(e, rest);
    }
  }

  /** No encoding is a proper prefix of another. */
  lemma EncodingsArePrefixFree(e: Expr, d: Expr, s: Bytes, t: Bytes)
    requires Payload(e) && Payload(d) && Encode(e) + s == Encode(d) + t
    ensures e == d && s == t
  {
    ParsingAnEncoding(e, s);
    ParsingAnEncoding(d, t);
  }

  // ----- hexadecimal text -----

  const PLUS: Byte := 43

  /** ASCII '0'..'9', 'a'..'f', 'A'..'F'. */
  function HexDigit(c: Byte): Option<nat> {
    if 48 <= c <= 57 then Some(c - 48)
    else if 97 <= c <= 102 then Some(c - 87)
    else if 65 <= c <= 70 then Some(c - 55)
    else None
  }

  /** One byte from two characters; the conversion also accepts a sign in front of a single digit. */
  function HexPair(hi: Byte, lo: Byte): Option<Byte> {
    if HexDigit(lo).None? then None
    else if hi == PLUS then Some(HexDigit(lo).value)
    else if HexDigit(hi).None? then None
    else Some(16 * HexDigit(hi).value + HexDigit(lo).value)
  }

  function DecodeHex(s: Bytes): Result<Bytes, AbiError> {
    if |s| % 2 != 0 then Failure(OddHexLength) else DecodePairs(s)
  }

  function DecodePairs(s: Bytes): Result<Bytes, AbiError>
    requires |s| % 2 == 0
  {
    if s == [] then Success([])
    else if HexPair(s[0], s[1]).None? then Failure(BadHexDigit)
    else
      var tail :- DecodePairs(s[2..]);
      Success([HexPair(s[0], s[1]).value] + tail)
  }

  function HexCharacter(n: nat): Byte
    requires n < 16
  {
    if n < 10 then n + 48 else n + 55
  }

  function EncodeHex(bytes: Bytes): (s: Bytes)
    ensures |s| == 2 * |bytes|
  {
    if bytes == [] then [] else [HexCharacter(bytes[0] / 16), HexCharacter(bytes[0] % 16)] + EncodeHex(bytes[1..])
  }

  function DeserializeHex(s: Bytes): Result<Expr, AbiError> {
    var bytes :- DecodeHex(s);
    var (e, remaining) :- ParseBytes(bytes);
    if remaining != [] then Failure(TrailingBytes) else Success(e)
  }

  lemma {:induction false} DecodingHexText(bytes: Bytes)
    ensures DecodeHex(EncodeHex(bytes)) == Success(bytes)
  {
    if bytes != [] {
      DecodingHexText(bytes[1..]);
      assert bytes == [bytes[0]] + bytes[1..];
      var s := EncodeHex(bytes);
      assert s[2..] == EncodeHex(bytes[1..]);
      assert HexPair(s[0], s[1]) == Some(bytes[0]);
    }
  }

  /** Every two characters spell one byte. */
  predicate Spells(s: Bytes, bytes: Bytes) {
    |s| == 2 * |bytes| && forall i :: 0 <= i < |bytes| ==> HexPair(s[2 * i], s[2 * i + 1]) == Some(bytes[i])
  }

  lemma SpellingByPairs(s: Bytes, bytes: Bytes)
    requires |s| >= 2 && bytes != []
    ensures Spells(s, bytes) <==> HexPair(s[0], s[1]) == Some(bytes[0]) && Spells(s[2..], bytes[1..])
  {
    var first := 0;
    if Spells(s, bytes) {
      assert HexPair(s[2 * first], s[2 * first + 1]) == Some(bytes[first]);
      forall i | 0 <= i < |bytes[1..]| ensures HexPair(s[2..][2 * i], s[2..][2 * i + 1]) == Some(bytes[1..][i]) {
        assert HexPair(s[2 * (i + 1)], s[2 * (i + 1) + 1]) == Some(bytes[i + 1]);
      }
    }
    if HexPair(s[0], s[1]) == Some(bytes[0]) && Spells(s[2..], bytes[1..]) {
      forall i | 0 <= i < |bytes| ensures HexPair(s[2 * i], s[2 * i + 1]) == Some(bytes[i]) {
        if i > 0 {
          assert HexPair(s[2..][2 * (i - 1)], s[2..][2 * (i - 1) + 1]) == Some(bytes[1..][i - 1]);
        }
      }
    }
  }

  /** The text is accepted as `bytes` exactly when every pair of characters spells its byte. */
  lemma {:induction false} AcceptedHexText(s: Bytes, bytes: Bytes)
    ensures DecodeHex(s) == Success(bytes) <==> Spells(s, bytes)
  {
    if |s| % 2 == 0 && s != [] && bytes != [] {
      AcceptedHexText(s[2..], bytes[1..]);
      SpellingByPairs(s, bytes);
      assert bytes == [bytes[0]] + bytes[1..];
      assert DecodeHex(s) == Success(bytes) <==>
             HexPair(s[0], s[1]) == Some(bytes[0]) && DecodeHex(s[2..]) == Success(bytes[1..]) by {
        FirstPair(s, bytes);
      }
    }
  }

  lemma FirstPair(s: Bytes, bytes: Bytes)
    requires |s| % 2 == 0 && s != [] && bytes != []
    ensures DecodeHex(s) == Success(bytes) <==>
            HexPair(s[0], s[1]) == Some(bytes[0]) && DecodeHex(s[2..]) == Success(bytes[1..])
  {
    if DecodeHex(s) == Success(bytes) {
      assert bytes == [HexPair(s[0], s[1]).value] + DecodePairs(s[2..]).value;
    }
    if HexPair(s[0], s[1]) == Some(bytes[0]) && DecodeHex(s[2..]) == Success(bytes[1..]) {
      assert bytes == [bytes[0]] + bytes[1..];
    }
  }

  /** End to end: hexadecimal text of a payload deserializes to it, and nothing else does. */
  lemma DeserializesExactlyPayloads(s: Bytes, e: Expr)
    ensures DeserializeHex(s) == Success(e) <==> Payload(e) && DecodeHex(s) == Success(Encode(e))
    ensures Payload(e) ==> DeserializeHex(EncodeHex(Encode(e))) == Success(e)
  {
    if DecodeHex(s).Success? {
      var bytes := DecodeHex(s).value;
      AcceptsExactlyTheEncodings(bytes, e, []);
      if Payload(e) {
        assert Encode(e) + [] == Encode(e);
      }
    }
    if Payload(e) {
      DecodingHexText(Encode(e));
      ParsingAnEncoding(e, []);
      assert Encode(e) + [] == Encode(e);
    }
  }
}
