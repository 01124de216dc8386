/** One ledger receipt as text: the transaction hash in hexadecimal and the volume in decimal. */
module LedgerText {
  import opened Machine
  import opened Wrappers
  import opened FatLayout

  const MINUS: Byte := 45
  const ZERO: Byte := 48
  const MIN_INT32: Int32 := -TWO_TO_THE_31

  // ----- hexadecimal -----

  function HexDigit(n: nat): Byte
    requires n < 16
  {
    if n < 10 then n + 48 else n + 55
  }

  /** The last `width` hexadecimal digits. */
  function HexOf(n: nat, width: nat): (s: Bytes)
    ensures |s| == width
  {
    if width == 0 then [] else HexOf(n / 16, width - 1) + [HexDigit(n % 16)]
  }

  function HexValue(s: Bytes): Option<nat> {
    if s == [] then Some(0)
    else
      var front, c := HexValue(s[..|s| - 1]), s[|s| - 1];
      if front.None? then None
      else if 48 <= c <= 57 then Some(16 * front.value + (c - 48))
      else if 65 <= c <= 70 then Some(16 * front.value + (c - 55))
      else None
  }

  function Pow16(width: nat): nat {
    if width == 0 then 1 else 16 * Pow16(width - 1)
  }

  lemma {:induction false} HexReadsBack(n: nat, width: nat)
    requires n < Pow16(width)
    ensures HexValue(HexOf(n, width)) == Some(n)
  {
    if width > 0 {
      HexReadsBack(n / 16, width - 1);
      assert HexOf(n, width)[..width - 1] == HexOf(n / 16, width - 1);
    }
  }

  lemma SixteenDigitsHold64Bits()
    ensures Pow16(16) == TWO_TO_THE_64
  {
    assert Pow16(4) == 65536;
    assert Pow16(8) == TWO_TO_THE_32;
    assert Pow16(12) == 65536 * TWO_TO_THE_32;
  }

  /** Digits from the right, shifting the value out. */
  method HexString(value: UInt64, buffer: array<Byte>)
    requires buffer.Length >= 17
    modifies buffer
    ensures buffer[..16] == HexOf(value, 16) && buffer[16] == 0
  {
    var rest: nat := value;
    var i := 16;
    while i > 0
      invariant 0 <= i <= 16
      invariant HexOf(value, 16) == HexOf(rest, i) + buffer[i..16]
    {
      i := i - 1;
      buffer[i] := HexDigit(rest % 16);
      assert buffer[i..16] == [HexDigit(rest % 16)] + buffer[i + 1..16];
      rest := rest / 16;
    }
    assert HexOf(rest, 0) + buffer[0..16] == buffer[..16];
    buffer[16] := 0;
  }

  // ----- decimal -----

  /** Digits of a positive number; none for 0. */
  function DecimalDigits(n: nat): Bytes {
    if n == 0 then [] else DecimalDigits(n / 10) + [ZERO + n % 10]
  }

  /** Negation in 32 bits: the least number is its own negative. */
  function Negated(v: Int32): Int32 {
    if v == MIN_INT32 then v else 0 - v
  }

  /** What the loop prints: of the least number, only the sign. */
  function DecimalOf(v: Int32): Bytes {
    if v == 0 then [ZERO]
    else if v < 0 then [MINUS] + DecimalDigits(if Negated(v) > 0 then Negated(v) else 0)
    else DecimalDigits(v)
  }

  function DigitsValue(s: Bytes): Option<nat> {
    if s == [] then Some(0)
    else
      var front, c := DigitsValue(s[..|s| - 1]), s[|s| - 1];
      if front.None? || !(48 <= c <= 57) then None else Some(10 * front.value + (c - 48))
  }

  /** A decimal numeral: an optional sign and at least one digit. */
  function DecimalValue(s: Bytes): Option<int> {
    var signed := s != [] && s[0] == 45;
    var digits := if signed then s[1..] else s;
    if digits == [] || DigitsValue(digits).None? then None
    else
      var n: int := DigitsValue(digits).value;
      Some(if signed then -n else n)
  }

  lemma {:induction false} DigitsReadBack(n: nat)
    ensures DigitsValue(DecimalDigits(n)) == Some(n)
    ensures n > 0 ==> DecimalDigits(n) != [] && DecimalDigits(n)[0] != MINUS
  {
    if n > 0 {
      DigitsReadBack(n / 10);
      OneMoreDigit(DecimalDigits(n / 10), n / 10, ZERO + n % 10);
    }
  }

  lemma OneMoreDigit(s: Bytes, m: nat, c: Byte)
    requires DigitsValue(s) == Some(m) && 48 <= c <= 57
    ensures DigitsValue(s + [c]) == Some(10 * m + (c - 48))
  {
    var t := s + [c];
    assert t[..|t| - 1] == s;
  }

  /** A volume can be read back from its text exactly when it is not the least 32-bit number. */
  lemma VolumeReadsBack(v: Int32)
    ensures DecimalValue(DecimalOf(v)) == Some(v) <==> v != MIN_INT32
  {
    if v == 0 {
      ZeroReadsBack();
    } else if v > 0 {
      DigitsReadBack(v);
    } else if v == MIN_INT32 {
      assert DecimalOf(v) == [MINUS];
    } else {
      DigitsReadBack(0 - v);
      SignReadsBack(DecimalDigits(0 - v), v);
    }
  }

  lemma ZeroReadsBack()
    ensures DecimalValue([ZERO]) == Some(0)
  {
    assert DigitsValue([ZERO]) == Some(0) by {
      assert [ZERO][..0] == [];
    }
  }

  lemma SignReadsBack(digits: Bytes, v: int)
    requires v <= 0 && digits != [] && DigitsValue(digits) == Some(0 - v)
    ensures DecimalValue([MINUS] + digits) == Some(v)
  {
    assert ([MINUS] + digits)[1..] == digits;
  }

  function Pow10(width: nat): nat {
    if width == 0 then 1 else 10 * Pow10(width - 1)
  }

  lemma {:induction false} DigitsAreFew(n: nat, width: nat)
    requires n < Pow10(width)
    ensures |DecimalDigits(n)| <= width
  {
    if n > 0 {
      DigitsAreFew(n / 10, width - 1);
    }
  }

  lemma VolumesAreShort(v: Int32)
    ensures |DecimalOf(v)| <= 11
  {
    var magnitude: nat := if v < 0 then (if v == MIN_INT32 then 0 else 0 - v) else v;
    TenDigitsHold31Bits();
    DigitsAreFew(magnitude, 10);
  }

  lemma TenDigitsHold31Bits()
    ensures Pow10(10) == 10000000000
  {
    assert Pow10(5) == 100000;
  }

  function Reversed(s: Bytes): Bytes {
    if s == [] then [] else [s[|s| - 1]] + Reversed(s[..|s| - 1])
  }

  lemma {:induction false} ReversedAt(s: Bytes, k: nat)
    requires k < |s|
    ensures |Reversed(s)| == |s| && Reversed(s)[k] == s[|s| - 1 - k]
    decreases |s|
  {
    if |s| == 1 {
      assert s[..0] == [];
    } else if k > 0 {
      ReversedAt(s[..|s| - 1], k - 1);
    } else {
      ReversedAt(s[..|s| - 1], 0);
    }
  }

  /** Digits into a scratch buffer from the least significant one, then copied out in reverse. */
  method DecimalString(value: Int32, buffer: array<Byte>) returns (n: nat)
    requires buffer.Length >= 16
    modifies buffer
    ensures n == |DecimalOf(value)| <= 11
    ensures buffer[..n] == DecimalOf(value) && buffer[n] == 0
  {
    VolumesAreShort(value);
    if value == 0 {
      buffer[0], buffer[1] := ZERO, 0;
      return 1;
    }
    // A magnitude that is still negative, as that of the least number is, ends the loop at once.
    var magnitude: nat := if value > 0 then value else if Negated(value) > 0 then Negated(value) else 0;
    DigitsAreFewEnough(magnitude);
    var temp := new Byte[16];
    n := DigitsInto(magnitude, temp);
    ghost var digits := temp[..n];
    if value < 0 {
      temp[n] := MINUS;
      assert temp[..n + 1] == digits + [MINUS];
      n := n + 1;
    }
    assert DecimalOf(value) == Reversed(temp[..n]) by {
      ReversedEnd(digits, MINUS);
    }
    ReversedLength(temp[..n]);
    CopyReversed(temp, n, buffer);
  }

  method DigitsInto(magnitude: nat, temp: array<Byte>) returns (n: nat)
    requires temp.Length == 16 && |DecimalDigits(magnitude)| <= 10
    modifies temp
    ensures n <= 10 && Reversed(temp[..n]) == DecimalDigits(magnitude)
  {
    var rest := magnitude;
    n := 0;
    assert temp[..0] == [];
    while rest > 0
      invariant n + |DecimalDigits(rest)| == |DecimalDigits(magnitude)|
      invariant DecimalDigits(magnitude) == DecimalDigits(rest) + Reversed(temp[..n])
    {
      temp[n] := ZERO + rest % 10;
      assert temp[..n + 1][..n] == temp[..n];
      n := n + 1;
      rest := rest / 10;
    }
  }

  lemma ReversedEnd(s: Bytes, b: Byte)
    ensures Reversed(s + [b]) == [b] + Reversed(s)
  {
    assert (s + [b])[..|s|] == s;
  }

  lemma {:induction false} ReversedLength(s: Bytes)
    ensures |Reversed(s)| == |s|
  {
    if s != [] {
      ReversedLength(s[..|s| - 1]);
    }
  }

  lemma DigitsAreFewEnough(magnitude: nat)
    requires magnitude < TWO_TO_THE_31
    ensures |DecimalDigits(magnitude)| <= 10
  {
    TenDigitsHold31Bits();
    DigitsAreFew(magnitude, 10);
  }

  method CopyReversed(temp: array<Byte>, n: nat, buffer: array<Byte>)
    requires n <= temp.Length && n < buffer.Length && temp != buffer
    modifies buffer
    ensures buffer[..n] == Reversed(temp[..n]) && buffer[n] == 0
  {
    for i := 0 to n
      invariant forall k :: 0 <= k < i ==> buffer[k] == temp[n - 1 - k]
    {
      buffer[i] := temp[n - 1 - i];
    }
    buffer[n] := 0;
    forall k | 0 <= k < n ensures |Reversed(temp[..n])| == n && buffer[k] == Reversed(temp[..n])[k] {
      ReversedAt(temp[..n], k);
    }
    ReversedLength(temp[..n]);
  }

  // ----- the receipt -----

  /** "TX: 0x" */
  const HASH_LABEL: Bytes := [84, 88, 58, 32, 48, 120]
  /** " | VOL: " */
  const VOLUME_LABEL: Bytes := [32, 124, 32, 86, 79, 76, 58, 32]

  function Receipt(hash: UInt64, volume: Int32): Bytes {
    HASH_LABEL + HexOf(hash, 16) + VOLUME_LABEL + DecimalOf(volume)
  }

  function ReadReceipt(s: Bytes): Option<(nat, int)> {
    if |s| < 30 || s[..6] != [84, 88, 58, 32, 48, 120] || s[22..30] != [32, 124, 32, 86, 79, 76, 58, 32] then None
    else if HexValue(s[6..22]).None? || DecimalValue(s[30..]).None? then None
    else Some((HexValue(s[6..22]).value, DecimalValue(s[30..]).value))
  }

  /** Receipts fit the 64-byte context with room to spare and can be read back, save the one volume. */
  lemma ReceiptsReadBack(hash: UInt64, volume: Int32)
    ensures |Receipt(hash, volume)| <= 41
    ensures ReadReceipt(Receipt(hash, volume)) == Some((hash, volume)) <==> volume != MIN_INT32
  {
    VolumesAreShort(volume);
    ReceiptParts(HASH_LABEL, HexOf(hash, 16), VOLUME_LABEL, DecimalOf(volume));
    SixteenDigitsHold64Bits();
    HexReadsBack(hash, 16);
    VolumeReadsBack(volume);
  }

  lemma ReceiptParts(a: Bytes, b: Bytes, c: Bytes, d: Bytes)
    requires |a| == 6 && |b| == 16 && |c| == 8
    ensures var s := a + b + c + d; s[..6] == a && s[6..22] == b && s[22..30] == c && s[30..] == d
  {
  }

  lemma ReceiptsHaveNoNul(hash: UInt64, volume: Int32)
    ensures 0 !in Receipt(hash, volume)
  {
    assert 0 !in HexOf(hash, 16) by {
      HexHasNoNul(hash, 16);
    }
    assert 0 !in DecimalOf(volume) by {
      DecimalHasNoNul(if volume < 0 then (if volume == MIN_INT32 then 0 else 0 - volume) else volume);
    }
    NoNulInFour(HASH_LABEL, HexOf(hash, 16), VOLUME_LABEL, DecimalOf(volume));
  }

  lemma NoNulInFour(a: Bytes, b: Bytes, c: Bytes, d: Bytes)
    requires 0 !in a && 0 !in b && 0 !in c && 0 !in d
    ensures 0 !in a + b + c + d
  {
  }

  lemma {:induction false} HexHasNoNul(n: nat, width: nat)
    ensures 0 !in HexOf(n, width)
  {
    if width > 0 {
      HexHasNoNul(n / 16, width - 1);
    }
  }

  lemma {:induction false} DecimalHasNoNul(n: nat)
    ensures 0 !in DecimalDigits(n)
  {
    if n > 0 {
      DecimalHasNoNul(n / 10);
    }
  }
}
