/** File names as the directory stores them: eight and three bytes, upper case, padded with blanks. */
module FatNames {
  import opened Machine
  import opened FatLayout

  const BLANK: Byte := 32
  const DOT: Byte := 46

  function Upper(c: Byte): Byte {
    if 97 <= c <= 122 then c - 32 else c
  }

  function UpperAll(s: Bytes): (r: Bytes)
    ensures |r| == |s| && forall i :: 0 <= i < |s| ==> r[i] == Upper(s[i])
  {
    if s == [] then [] else [Upper(s[0])] + UpperAll(s[1..])
  }

  /** Where the extension starts: the first dot, or the end. */
  function DotAt(s: Bytes): (d: nat)
    ensures d <= |s| && (d < |s| ==> s[d] == DOT) && forall i :: 0 <= i < d ==> s[i] != DOT
  {
    if s == [] || s[0] == DOT then 0 else 1 + DotAt(s[1..])
  }

  /** `s`, cut or padded with blanks to `n` bytes, in upper case. */
  function Field(s: Bytes, n: nat): (r: Bytes)
    ensures |r| == n
  {
    if |s| >= n then UpperAll(s[..n]) else UpperAll(s) + seq(n - |s|, _ => BLANK)
  }

  lemma FieldOf(r: Bytes, s: Bytes, n: nat)
    requires |r| == n
    requires forall k :: 0 <= k < n ==> r[k] == if k < |s| then Upper(s[k]) else BLANK
    ensures r == Field(s, n)
  {
    if |s| >= n {
      assert UpperAll(s[..n]) == r;
    } else {
      assert UpperAll(s) + seq(n - |s|, _ => BLANK) == r;
    }
  }

  /** The stored name of a C string without its NUL. Dots behind the first belong to the extension. */
  function FatName(s: Bytes): (name: Bytes)
    ensures |name| == 11
  {
    var d := DotAt(s);
    Field(s[..d], 8) + Field(if d < |s| then s[d + 1..] else [], 3)
  }

  /** The first part, over a blank buffer: up to eight bytes before the first dot, which it finds. */
  method CopyBase(input: Bytes, output: array<Byte>) returns (i: nat)
    requires output.Length == 11 && forall k :: 0 <= k < 11 ==> output[k] == BLANK
    modifies output
    ensures i == DotAt(input)
    ensures output[..8] == Field(input[..i], 8) && forall k :: 8 <= k < 11 ==> output[k] == BLANK
  {
    i := 0;
    var j := 0;
    while i < |input| && input[i] != DOT && j < 8
      invariant i == j <= 8 && i <= DotAt(input)
      invariant forall k :: 0 <= k < j ==> output[k] == Upper(input[k])
      invariant forall k :: j <= k < 11 ==> output[k] == BLANK
    {
      output[j] := Upper(input[i]);
      j := j + 1;
      i := i + 1;
    }
    while i < |input| && input[i] != DOT
      invariant j <= i <= DotAt(input) && (i == j || j == 8)
    {
      i := i + 1;
    }
    FieldOf(output[..8], input[..i], 8);
  }

  /** The second part: up to three bytes from `start` on, dots included. */
  method CopyExtension(input: Bytes, start: nat, output: array<Byte>)
    requires output.Length == 11 && start <= |input| && forall k :: 8 <= k < 11 ==> output[k] == BLANK
    modifies output
    ensures output[..8] == old(output[..8]) && output[8..] == Field(input[start..], 3)
  {
    var i, j := start, 8;
    while i < |input| && j < 11
      invariant 8 <= j <= 11 && i == start + (j - 8) <= |input|
      invariant forall k :: 0 <= k < 8 ==> output[k] == old(output[k])
      invariant forall k :: 8 <= k < j ==> output[k] == Upper(input[start + (k - 8)])
      invariant forall k :: j <= k < 11 ==> output[k] == BLANK
    {
      output[j] := Upper(input[i]);
      j := j + 1;
      i := i + 1;
    }
    FieldOf(output[8..], input[start..], 3);
  }

  /** Formatting in place. */
  method FormatFatName(input: Bytes, output: array<Byte>)
    requires output.Length == 11
    modifies output
    ensures output[..] == FatName(input)
  {
    for k := 0 to 11
      invariant forall i :: 0 <= i < k ==> output[i] == BLANK
    {
      output[k] := BLANK;
    }
    var i := CopyBase(input, output);
    if i < |input| {
      CopyExtension(input, i + 1, output);
    } else {
      FieldOf(output[8..], [], 3);
    }
    assert output[..] == output[..8] + output[8..];
  }

  // ----- what a stored name is -----

  /** The byte stored for place `k` of a text: its letter in capitals, or a blank behind its end. */
  predicate IsStored(c: Byte, text: Bytes, k: nat) {
    if k >= |text| then c == 32
    else if 97 <= text[k] <= 122 then c == text[k] - 32
    else c == text[k]
  }

  /** What of a text a file name is made of: the part before its first dot, and the part behind it. */
  ghost predicate InTwoParts(text: Bytes, base: Bytes, extension: Bytes) {
    && 46 !in base
    && (text == base + [46] + extension || (text == base && extension == []))
  }

  lemma {:induction false} StoredNames(text: Bytes, base: Bytes, extension: Bytes)
    requires InTwoParts(text, base, extension)
    ensures forall k: nat :: k < 8 ==> IsStored(FatName(text)[k], base, k)
    ensures forall k: nat :: k < 3 ==> IsStored(FatName(text)[8..][k], extension, k)
  {
    var d := DotAt(text);
    TheFirstDot(text, base, extension);
    assert text[..d] == base && (if d < |text| then text[d + 1..] else []) == extension;
    forall k: nat | k < 8 ensures IsStored(Field(base, 8)[k], base, k) {
      StoredFields(base, 8, k);
    }
    assert FatName(text)[8..] == Field(extension, 3);
    forall k: nat | k < 3 ensures IsStored(FatName(text)[8..][k], extension, k) {
      StoredFields(extension, 3, k);
    }
  }

  lemma {:induction false} TheFirstDot(text: Bytes, base: Bytes, extension: Bytes)
    requires InTwoParts(text, base, extension)
    ensures DotAt(text) == |base| && (text == base || DotAt(text) < |text|)
  {
    assert forall i :: 0 <= i < |base| ==> text[i] == base[i] && base[i] in base;
    assert text != base ==> text[|base|] == DOT;
  }

  lemma {:induction false} StoredFields(s: Bytes, n: nat, k: nat)
    requires k < n
    ensures IsStored(Field(s, n)[k], s, k)
  {
    if |s| >= n {
      assert s[..n][k] == s[k];
    }
  }

  /** The same letter, capital or small. */
  predicate SameLetter(a: Byte, b: Byte) {
    a == b || (65 <= a <= 90 && b == a + 32) || (97 <= a <= 122 && b == a - 32)
  }

  predicate SameButForCase(a: Bytes, b: Bytes) {
    |a| == |b| && forall i :: 0 <= i < |a| ==> SameLetter(a[i], b[i])
  }

  /** Texts that differ in the case of letters alone are one name. */
  lemma {:induction false} NamesIgnoreCase(a: Bytes, b: Bytes)
    requires SameButForCase(a, b)
    ensures FatName(a) == FatName(b)
  {
    var d := DotAt(a);
    SameDot(a, b);
    FieldsIgnoreCase(a[..d], b[..d], 8);
    if d < |a| {
      FieldsIgnoreCase(a[d + 1..], b[d + 1..], 3);
    }
  }

  lemma {:induction false} SameDot(a: Bytes, b: Bytes)
    requires SameButForCase(a, b)
    ensures DotAt(a) == DotAt(b)
  {
    assert forall i :: 0 <= i < |a| ==> (a[i] == DOT <==> b[i] == DOT);
  }

  lemma {:induction false} FieldsIgnoreCase(a: Bytes, b: Bytes, n: nat)
    requires SameButForCase(a, b)
    ensures Field(a, n) == Field(b, n)
  {
    forall k | 0 <= k < n ensures Field(a, n)[k] == Field(b, n)[k] {
      StoredFields(a, n, k);
      StoredFields(b, n, k);
      assert k < |a| ==> SameLetter(a[k], b[k]);
    }
  }

  /** A C string the driver can look up: no NUL inside, not empty, not the deleted-entry mark. */
  predicate IsFileName(file: Bytes) {
    0 !in file && file != [] && file[0] != DELETED
  }

  /** A formatted name never looks unused, and looks deleted only if the string starts with that byte. */
  lemma FormattedNamesAreVisible(s: Bytes)
    requires 0 !in s
    ensures FatName(s)[0] != 0
    ensures FatName(s)[0] == DELETED <==> s != [] && s[0] == DELETED
  {
    var d := DotAt(s);
    assert FatName(s)[0] == Field(s[..d], 8)[0];
    if d > 0 {
      assert s[..d][0] == s[0] && (|s[..d]| >= 8 ==> s[..d][..8][0] == s[0]);
      assert Field(s[..d], 8)[0] == Upper(s[0]);
      assert s[0] in s;
    }
  }
}
