/**
 What the payload decoder says of bytes and text that it does not accept: where it stops, and why; and
 which characters spell a byte.
 */
module AbiErrors {
  import opened Machine
  import opened Wrappers
  import opened Ast
  import opened Abi

  /** What stands where an item should start: nothing, an integer that is cut short, or no tag at all. */
  predicate Stops(rest: Bytes, error: AbiError) {
    match error
    case UnexpectedEnd => rest == []
    case ShortInt64 => rest != [] && rest[0] == 0 && |rest| < 9
    case UnknownTag(tag) => rest != [] && rest[0] == tag && tag > 3
    case _ => false
  }

  /** Up to `k` the decoder has read the beginning of the encoding of `e`, but not all of it; there it stops. */
  predicate StopsIn(bytes: Bytes, k: nat, e: Expr, error: AbiError) {
    && k <= |bytes| && Stops(bytes[k..], error)
    && Payload(e) && k < |Encode(e)| && bytes[..k] == Encode(e)[..k]
  }

  lemma {:induction false} WhereDecodingStops(bytes: Bytes) returns (k: nat, e: Expr)
    requires ParseBytes(bytes).Failure?
    ensures StopsIn(bytes, k, e, ParseBytes(bytes).error)
    decreases |bytes|
  {
    if bytes == [] || bytes[0] == 0 || bytes[0] > 3 {
      k, e := 0, IntLiteral(0);
    } else if ParseBytes(bytes[1..]).Failure? {
      k, e := WhereDecodingStops(bytes[1..]);
      StopsBehindATag(bytes, k, e, ParseBytes(bytes).error);
      k := k + 1;
      e := if bytes[0] == 1 then Expr.Pair(e, IntLiteral(0)) else if bytes[0] == 2 then Expr.Left(e) else Expr.Right(e);
    } else {
      var (l, middle) := ParseBytes(bytes[1..]).value;
      k, e := WhereDecodingStops(middle);
      AcceptsExactlyTheEncodings(bytes[1..], l, middle);
      StopsBehindAnOperand(bytes, l, middle, k, e, ParseBytes(bytes).error);
      k, e := 1 + |Encode(l)| + k, Expr.Pair(l, e);
    }
  }

  lemma {:induction false} StopsBehindATag(bytes: Bytes, k: nat, e: Expr, error: AbiError)
    requires bytes != [] && StopsIn(bytes[1..], k, e, error)
    ensures bytes[0] == 1 ==> StopsIn(bytes, k + 1, Expr.Pair(e, IntLiteral(0)), error)
    ensures bytes[0] == 2 ==> StopsIn(bytes, k + 1, Expr.Left(e), error)
    ensures bytes[0] == 3 ==> StopsIn(bytes, k + 1, Expr.Right(e), error)
  {
    assert bytes[k + 1..] == bytes[1..][k..];
    var inner, zero := Encode(e), Encode(IntLiteral(0));
    BehindTheTag(bytes, k + 1, inner, [bytes[0]] + inner + zero);
    BehindTheTag(bytes, k + 1, inner, [bytes[0]] + inner);
  }

  lemma {:induction false} StopsBehindAnOperand(
    bytes: Bytes, l: Expr, middle: Bytes, k: nat, e: Expr, error: AbiError)
    requires bytes != [] && bytes[0] == 1 && Payload(l) && bytes[1..] == Encode(l) + middle
    requires StopsIn(middle, k, e, error)
    ensures StopsIn(bytes, 1 + |Encode(l)| + k, Expr.Pair(l, e), error)
  {
    assert bytes == [bytes[0]] + Encode(l) + middle;
    assert bytes[1 + |Encode(l)| + k..] == middle[k..];
    BehindTheFirst(bytes, k, Encode(l), middle, Encode(e));
  }

  lemma BehindTheTag(bytes: Bytes, k: nat, inner: Bytes, all: Bytes)
    requires 0 < k <= |bytes| && k - 1 < |inner| && bytes[1..][..k - 1] == inner[..k - 1]
    requires all != [] && all[0] == bytes[0] && inner <= all[1..]
    ensures k < |all| && bytes[..k] == all[..k]
  {
    assert bytes[..k] == [bytes[0]] + bytes[1..][..k - 1];
    assert all[..k] == [all[0]] + all[1..][..k - 1];
    assert all[1..][..k - 1] == inner[..k - 1];
  }

  lemma BehindTheFirst(bytes: Bytes, k: nat, first: Bytes, middle: Bytes, second: Bytes)
    requires bytes != [] && bytes[1..] == first + middle && k <= |middle| && k < |second|
    requires middle[..k] == second[..k]
    ensures bytes[..1 + |first| + k] == ([bytes[0]] + first + second)[..1 + |first| + k]
  {
    assert bytes == [bytes[0]] + first + middle;
    assert ([bytes[0]] + first + middle)[..1 + |first| + k] == [bytes[0]] + first + middle[..k];
    assert ([bytes[0]] + first + second)[..1 + |first| + k] == [bytes[0]] + first + second[..k];
  }

  /** What is wrong with text, in the order in which it is looked at. */
  lemma {:induction false} TextErrors(s: Bytes)
    ensures |s| % 2 != 0 ==> DeserializeHex(s) == Failure(OddHexLength)
    ensures |s| % 2 == 0 && (forall bytes :: !Spells(s, bytes)) ==> DeserializeHex(s) == Failure(BadHexDigit)
    ensures forall bytes :: Spells(s, bytes) ==>
              match ParseBytes(bytes)
              case Failure(error) => DeserializeHex(s) == Failure(error)
              case Success((e, rest)) => DeserializeHex(s) == if rest == [] then Success(e) else Failure(TrailingBytes)
  {
    forall bytes ensures DecodeHex(s) == Success(bytes) <==> Spells(s, bytes) {
      AcceptedHexText(s, bytes);
    }
    if |s| % 2 == 0 && DecodeHex(s).Failure? {
      OnlyBadDigits(s);
    }
    if DecodeHex(s).Success? {
      assert Spells(s, DecodeHex(s).value);
    }
  }

  lemma {:induction false} OnlyBadDigits(s: Bytes)
    requires |s| % 2 == 0 && DecodePairs(s).Failure?
    ensures DecodePairs(s) == Failure(BadHexDigit)
    decreases |s|
  {
    if HexPair(s[0], s[1]).Some? {
      OnlyBadDigits(s[2..]);
    }
  }

  /** The character is the hexadecimal digit of that value, in either case. */
  predicate IsDigit(c: Byte, value: nat) {
    value < 16 && (c == "0123456789abcdef"[value] as int || c == "0123456789ABCDEF"[value] as int)
  }

  /** Two characters spell a byte as its two digits, or as a plus sign and one digit. */
  lemma {:induction false} PairsSpell(hi: Byte, lo: Byte, b: Byte)
    ensures HexPair(hi, lo) == Some(b) <==>
              (IsDigit(hi, b / 16) && IsDigit(lo, b % 16)) || (hi == '+' as int && IsDigit(lo, b))
  {
    DigitsBySight(hi, b / 16);
    DigitsBySight(lo, b % 16);
    DigitsBySight(lo, b);
    if HexDigit(hi).Some? && HexDigit(lo).Some? {
      TwoDigits(HexDigit(hi).value, HexDigit(lo).value, b);
    }
  }

  lemma TwoDigits(h: nat, l: nat, b: nat)
    requires l < 16
    ensures 16 * h + l == b <==> h == b / 16 && l == b % 16
  {
  }

  lemma DigitsBySight(c: Byte, value: nat)
    ensures IsDigit(c, value) <==> HexDigit(c) == Some(value)
  {
  }
}
