/** Exactly which words the parser reads as integers and as floats. */
module NumeralLaws {
  import opened Machine
  import opened Wrappers
  import opened Numerals

  const SIGNS: set<string> := {"", "+", "-"}

  function Nulls(n: nat): (s: string)
    ensures |s| == n && AllDigits(s)
  {
    seq(n, _ => '0')
  }

  // ----- integers -----

  function Magnitude(n: int): nat {
    if n < 0 then -n else n
  }

  /** The decimal text of `n` without its sign, behind any sign that fits and any number of zeros. */
  ghost predicate Spells(w: string, n: int) {
    exists sign, zeros: nat :: SpelledWith(w, n, sign, zeros)
  }

  predicate SpelledWith(w: string, n: int, sign: string, zeros: nat) {
    && sign in SIGNS && (sign == "-" ==> n <= 0) && (sign != "-" ==> n >= 0)
    && w == sign + (Nulls(zeros) + ShowNat(Magnitude(n)))
  }

  lemma DigitsByValue(c: char)
    requires IsDigit(c)
    ensures DigitOf(DigitValue(c)) == c
  {
  }

  lemma {:induction false} OneDigitMore(front: string, c: char, s: string)
    requires AllDigits(front) && IsDigit(c) && s == front + [c]
    ensures AllDigits(s) && NatOf(s) == 10 * NatOf(front) + DigitValue(c)
    ensures NatOf(front) > 0 ==> ShowNat(NatOf(s)) == ShowNat(NatOf(front)) + [c]
    ensures NatOf(front) == 0 ==> ShowNat(NatOf(s)) == [c]
  {
    assert s[..|s| - 1] == front;
    DigitsByValue(c);
    var m, d := NatOf(front), DigitValue(c);
    assert NatOf(s) == 10 * m + d;
    ShownBehind(m, d, NatOf(s));
  }

  lemma {:induction false} ShownBehind(m: nat, d: nat, v: nat)
    requires d < 10 && v == 10 * m + d
    ensures ShowNat(v) == if m == 0 then [DigitOf(d)] else ShowNat(m) + [DigitOf(d)]
  {
    LastDigit(m, d, v);
  }

  lemma LastDigit(m: nat, d: nat, v: nat)
    requires d < 10 && v == 10 * m + d
    ensures v / 10 == m && v % 10 == d
  {
  }

  /** Digits are zeros and the decimal text of their value. */
  lemma {:induction false} DigitsAreShown(s: string) returns (zeros: nat)
    requires AllDigits(s) && s != ""
    ensures s == Nulls(zeros) + ShowNat(NatOf(s))
    decreases |s|
  {
    var front, c := s[..|s| - 1], s[|s| - 1];
    OneDigitMore(front, c, s);
    zeros := 0;
    if front != "" {
      zeros := DigitsAreShown(front);
      zeros := OneDigitBehind(front, c, s, zeros);
    }
  }

  lemma {:induction false} OneDigitBehind(front: string, c: char, s: string, zeros: nat) returns (more: nat)
    requires AllDigits(front) && IsDigit(c) && s == front + [c] && AllDigits(s)
    requires front != "" && front == Nulls(zeros) + ShowNat(NatOf(front))
    ensures s == Nulls(more) + ShowNat(NatOf(s))
  {
    OneDigitMore(front, c, s);
    if NatOf(front) == 0 {
      more := zeros + 1;
      assert Nulls(zeros) + "0" == Nulls(more);
    } else {
      more := zeros;
      assert s == Nulls(zeros) + (ShowNat(NatOf(front)) + [c]);
    }
  }

  lemma {:induction false} ZerosCountNothing(zeros: nat, s: string)
    requires AllDigits(s)
    ensures AllDigits(Nulls(zeros) + s) && NatOf(Nulls(zeros) + s) == NatOf(s)
    decreases zeros + |s|
  {
    var w := Nulls(zeros) + s;
    if s != "" {
      assert w[..|w| - 1] == Nulls(zeros) + s[..|s| - 1];
      ZerosCountNothing(zeros, s[..|s| - 1]);
    } else if zeros > 0 {
      assert w == Nulls(zeros) && w[..|w| - 1] == Nulls(zeros - 1) + "";
      ZerosCountNothing(zeros - 1, "");
    }
  }

  /** What reading a sign and digits comes to. */
  lemma {:induction false} SignedDigits(w: string, sign: string, digits: string)
    requires sign in SIGNS && w == sign + digits && digits != "" && AllDigits(digits)
    ensures var value: int := NatOf(digits);
            var n := if sign == "-" then -value else value;
            ParseInt64(w) == if -TWO_TO_THE_63 <= n < TWO_TO_THE_63 then Some(n) else None
  {
    assert IsDigit(digits[0]);
    assert sign != "" ==> w[0] == sign[0] && w[1..] == digits;
    assert sign == "" ==> w == digits;
  }

  lemma {:induction false} ReadIntegersAreSigned(w: string) returns (sign: string, digits: string)
    requires ParseInt64(w).Some?
    ensures sign in SIGNS && w == sign + digits && digits != "" && AllDigits(digits)
  {
    sign := if w[0] == '+' || w[0] == '-' then [w[0]] else "";
    digits := w[|sign|..];
  }

  /** The integers are read from exactly these words, as far as 64 bits go. */
  lemma {:induction false} IntegersAreReadExactly(w: string, n: Int64)
    ensures ParseInt64(w) == Some(n) <==> Spells(w, n)
  {
    if ParseInt64(w) == Some(n) {
      var sign, digits := ReadIntegersAreSigned(w);
      SignedDigits(w, sign, digits);
      var zeros := DigitsAreShown(digits);
      assert SpelledWith(w, n, sign, zeros);
    }
    if Spells(w, n) {
      var sign, zeros: nat :| SpelledWith(w, n, sign, zeros);
      SpelledIntegersAreRead(w, n, sign, zeros);
    }
  }

  lemma {:induction false} SpelledIntegersAreRead(w: string, n: Int64, sign: string, zeros: nat)
    requires SpelledWith(w, n, sign, zeros)
    ensures ParseInt64(w) == Some(n)
  {
    var m := Magnitude(n);
    var digits := Nulls(zeros) + ShowNat(m);
    assert AllDigits(digits) && NatOf(digits) == m by {
      ZerosCountNothing(zeros, ShowNat(m));
      ReadingAShownNat(m);
    }
    SignedDigits(w, sign, digits);
  }

  // ----- floats -----

  predicate SameLetter(a: char, b: char) {
    a == b || ('a' <= a <= 'z' && b as int == a as int - 32) || ('A' <= a <= 'Z' && b as int == a as int + 32)
  }

  predicate SameButForCase(a: string, b: string) {
    |a| == |b| && forall i :: 0 <= i < |a| ==> SameLetter(a[i], b[i])
  }

  predicate AreLetters(s: string) {
    forall i :: 0 <= i < |s| ==> 'a' <= s[i] <= 'z'
  }

  lemma {:induction false} LoweredLetters(s: string, word: string)
    requires AreLetters(word)
    ensures LowerAll(s) == word <==> SameButForCase(s, word)
  {
    if s != "" && word != "" {
      LoweredLetters(s[1..], word[1..]);
      assert Lower(s[0]) == word[0] <==> SameLetter(s[0], word[0]);
      assert word == [word[0]] + word[1..];
      assert SameButForCase(s, word) <==> SameLetter(s[0], word[0]) && SameButForCase(s[1..], word[1..]) by {
        if SameLetter(s[0], word[0]) && SameButForCase(s[1..], word[1..]) {
          forall i | 0 <= i < |s| ensures SameLetter(s[i], word[i]) {
            assert i > 0 ==> s[i] == s[1..][i - 1] && word[i] == word[1..][i - 1];
          }
        }
      }
    }
  }

  const NAMED: set<string> := {"inf", "infinity", "nan"}

  /** One of the three names, in any case. */
  ghost predicate IsNamedFloat(t: string) {
    exists name :: name in NAMED && SameButForCase(t, name)
  }

  /** Nothing, or the letter e, a sign that may be missing, and digits. */
  predicate IsPower(s: string) {
    || s == ""
    || (|s| >= 2 && (s[0] == 'e' || s[0] == 'E') && AllDigits(s[1..]))
    || (|s| >= 3 && (s[0] == 'e' || s[0] == 'E') && (s[1] == '+' || s[1] == '-') && AllDigits(s[2..]))
  }

  /** Digits, perhaps a point and digits, a power; one digit at least in front of the power. */
  predicate IsDecimal(t: string, whole: string, point: string, part: string, power: string) {
    && AllDigits(whole) && AllDigits(part) && IsPower(power) && whole + part != ""
    && (point == "." || (point == "" && part == "")) && t == whole + (point + (part + power))
  }

  ghost predicate IsFloatText(w: string) {
    exists sign, t :: sign in SIGNS && w == sign + t && IsUnsignedFloat(t)
  }

  ghost predicate IsUnsignedFloat(t: string) {
    IsNamedFloat(t) || exists whole, point, part, power :: IsDecimal(t, whole, point, part, power)
  }

  /** The part of `IsFloat64` behind the sign. */
  predicate ReadsUnsigned(t: string) {
    || LowerAll(t) == "inf" || LowerAll(t) == "infinity" || LowerAll(t) == "nan"
    || (var whole := DigitRun(t);
        var u := t[whole..];
        if u != "" && u[0] == '.' then
          var part := DigitRun(u[1..]);
          whole + part > 0 && IsExponent(u[1..][part..])
        else whole > 0 && IsExponent(u))
  }

  lemma {:induction false} NamesAreRead(t: string)
    ensures IsNamedFloat(t) <==> LowerAll(t) == "inf" || LowerAll(t) == "infinity" || LowerAll(t) == "nan"
  {
    forall name | name in NAMED ensures LowerAll(t) == name <==> SameButForCase(t, name) {
      LoweredLetters(t, name);
    }
  }

  lemma {:induction false} RunsOfDigits(digits: string, rest: string)
    requires AllDigits(digits) && (rest == "" || !IsDigit(rest[0]))
    ensures DigitRun(digits + rest) == |digits|
    decreases |digits|
  {
    if digits == "" {
      assert digits + rest == rest;
    } else {
      assert (digits + rest)[1..] == digits[1..] + rest;
      RunsOfDigits(digits[1..], rest);
    }
  }

  lemma {:induction false} DigitRunsAreDigits(s: string)
    ensures AllDigits(s[..DigitRun(s)]) && (DigitRun(s) < |s| ==> !IsDigit(s[DigitRun(s)]))
  {
    if s != "" && IsDigit(s[0]) {
      DigitRunsAreDigits(s[1..]);
      var n := DigitRun(s[1..]);
      assert s[..n + 1] == [s[0]] + s[1..][..n];
    }
  }

  lemma {:induction false} PowersAreExponents(s: string)
    ensures IsPower(s) <==> IsExponent(s)
    ensures IsPower(s) ==> s == "" || !IsDigit(s[0])
  {
    if |s| > 1 && (s[1] == '+' || s[1] == '-') {
      assert s[1..][0] == s[1] && !AllDigits(s[1..]);
      assert |s| >= 3 <==> s[2..] != "";
    }
  }

  lemma {:induction false} DecimalsAreRead(t: string, whole: string, point: string, part: string, power: string)
    requires IsDecimal(t, whole, point, part, power)
    ensures ReadsUnsigned(t)
  {
    PowersAreExponents(power);
    var u := point + (part + power);
    RunsOfDigits(whole, u);
    assert t[|whole|..] == u;
    if point == "." {
      RunsOfDigits(part, power);
      assert u[1..] == part + power && u[1..][|part|..] == power;
    } else {
      assert u == power;
    }
  }

  lemma Rejoined(t: string, n: nat, k: nat)
    requires n <= |t| && (t[n..] != "" && t[n] == '.' ==> k <= |t[n + 1..]|)
    ensures t == t[..n] + ("" + ("" + t[n..]))
    ensures t[n..] != "" && t[n] == '.' ==> t == t[..n] + ("." + (t[n + 1..][..k] + t[n + 1..][k..]))
  {
  }

  lemma {:induction false} ReadDecimals(t: string) returns (whole: string, point: string, part: string, power: string)
    requires ReadsUnsigned(t) && !IsNamedFloat(t)
    ensures IsDecimal(t, whole, point, part, power)
  {
    NamesAreRead(t);
    var n := DigitRun(t);
    var u := t[n..];
    DigitRunsAreDigits(t);
    if u != "" && u[0] == '.' {
      var v := u[1..];
      var k := DigitRun(v);
      assert v == t[n + 1..];
      DigitRunsAreDigits(v);
      PowersAreExponents(v[k..]);
      Rejoined(t, n, k);
      whole, point, part, power := t[..n], ".", v[..k], v[k..];
    } else {
      PowersAreExponents(u);
      Rejoined(t, n, 0);
      whole, point, part, power := t[..n], "", "", u;
    }
  }

  lemma {:induction false} UnsignedFloatsAreReadExactly(t: string)
    ensures ReadsUnsigned(t) <==> IsUnsignedFloat(t)
    ensures IsUnsignedFloat(t) ==> t != "" && t[0] != '+' && t[0] != '-'
  {
    NamesAreRead(t);
    if IsNamedFloat(t) {
      var name :| name in NAMED && SameButForCase(t, name);
      assert SameLetter(t[0], name[0]);
    } else if ReadsUnsigned(t) {
      var whole, point, part, power := ReadDecimals(t);
    }
    if exists whole, point, part, power :: IsDecimal(t, whole, point, part, power) {
      var whole, point, part, power :| IsDecimal(t, whole, point, part, power);
      DecimalsAreRead(t, whole, point, part, power);
      assert t[0] == if whole != "" then whole[0] else point[0];
    }
  }

  /** The floats are exactly these words. */
  lemma {:induction false} FloatsAreReadExactly(w: string)
    ensures IsFloat64(w) <==> IsFloatText(w)
  {
    var sign := if w != "" && (w[0] == '+' || w[0] == '-') then [w[0]] else "";
    var t := w[|sign|..];
    assert w == sign + t;
    UnsignedFloatsAreReadExactly(t);
    assert IsFloat64(w) <==> ReadsUnsigned(t);
    if IsFloatText(w) {
      var sign', t' :| sign' in SIGNS && w == sign' + t' && IsUnsignedFloat(t');
      UnsignedFloatsAreReadExactly(t');
      SignsAreOne(w, sign, t, sign', t');
    }
  }

  lemma {:induction false} SignsAreOne(w: string, sign: string, t: string, sign': string, t': string)
    requires sign in SIGNS && sign' in SIGNS && w == sign + t == sign' + t'
    requires sign == "" ==> w == "" || (w[0] != '+' && w[0] != '-')
    requires t' != "" && t'[0] != '+' && t'[0] != '-'
    ensures t == t'
  {
    assert sign != "" ==> w[0] == sign[0] && t == w[1..];
    assert sign' != "" ==> w[0] == sign'[0] && t' == w[1..];
    assert sign' == "" ==> w == t';
    assert sign == "" ==> w == t;
  }
}
