/**
 * Short-code encoding: `base62_encode` and `generate_code`.
 *
 * A value is written in base 62 over the alphabet 0-9, A-Z, a-z (most
 * significant symbol first, zero written as "0") and then padded on the left
 * with '0' up to a minimum length. Generated codes are the encoding of a
 * random value below 62^7, padded to 7 symbols.
 */
module Base62 {

  const Digits: string := "0123456789"
  const Upper: string := "ABCDEFGHIJKLMNOPQRSTUVWXYZ"
  const Lower: string := "abcdefghijklmnopqrstuvwxyz"

  /** BASE62_ALPHABET: the symbol for digit d is Alphabet[d]. */
  const Alphabet: string := Digits + Upper + Lower

  /** CODE_LENGTH */
  const CodeLength: nat := 7

  /** 62^CODE_LENGTH: generated values are drawn from [0, CodeSpace). */
  const CodeSpace: nat := 3521614606208

  /** A value `secrets.randbelow(62 ** CODE_LENGTH)` can return. */
  type Draw = v: nat | v < CodeSpace

  function Pow62(n: nat): (r: nat)
    ensures r >= 1
  {
    if n == 0 then 1 else 62 * Pow62(n - 1)
  }

  function Max(a: nat, b: nat): nat {
    if a < b then b else a
  }

  /** The base-62 numeral of `v` without padding; zero is the single symbol "0". */
  function Numeral(v: nat): (s: string)
    ensures |s| >= 1
    decreases v
  {
    if v < 62 then [Alphabet[v]] else Numeral(v / 62) + [Alphabet[v % 62]]
  }

  /** The numeral of `v` with no symbol at all for zero: what the digit loop builds. */
  function LoopDigits(v: nat): string {
    if v == 0 then [] else Numeral(v)
  }

  /** `n` copies of the zero symbol. */
  function Zeros(n: nat): (s: string)
    ensures |s| == n
    ensures forall i :: 0 <= i < n ==> s[i] == '0'
  {
    seq(n, _ => '0')
  }

  /** `base62_encode(value, min_length)`, as a recursive definition. */
  function Encode(value: nat, minLength: nat): (s: string)
    ensures |s| == Max(minLength, |Numeral(value)|)
  {
    var digits := Numeral(value);
    if |digits| < minLength then Zeros(minLength - |digits|) + digits else digits
  }

  /** `generate_code()` for the random value `draw`: a code of exactly CODE_LENGTH symbols. */
  function GenerateCode(draw: Draw): (code: string)
    ensures |code| == CodeLength
  {
    assert Pow62(CodeLength) == CodeSpace;
    NumeralFits(draw, CodeLength);
    Encode(draw, CodeLength)
  }

  /**
   * `base62_encode` as the source computes it: the digit loop (or "0" for
   * zero), then left-padding with '0' up to `minLength`.
   */
  method Base62Encode(value: nat, minLength: nat) returns (encoded: string)
    ensures encoded == Encode(value, minLength)
    ensures Decode(encoded) == value
  {
    if value == 0 {
      encoded := "0";
    } else {
      encoded := RemainderDigits(value);
    }
    assert encoded == Numeral(value);
    if |encoded| < minLength {
      encoded := Zeros(minLength - |encoded|) + encoded;
    }
    EncodeDecodes(value, minLength);
  }

  /**
   * The `while value > 0` loop: peel off remainders by repeated division.
   * Prepending each symbol is the reversed join of the appended remainders.
   */
  method RemainderDigits(value: nat) returns (digits: string)
    ensures digits == LoopDigits(value)
  {
    digits := [];
    var v := value;
    while v > 0
      invariant LoopDigits(v) + digits == LoopDigits(value)
      decreases v
    {
      var q, rem := v / 62, v % 62;
      LoopDigitsStep(v);
      AppendAssociative(LoopDigits(q), [Alphabet[rem]], digits);
      digits := [Alphabet[rem]] + digits;
      v := q;
    }
    assert LoopDigits(0) == [];
  }

  lemma AppendAssociative(a: string, b: string, c: string)
    ensures (a + b) + c == a + (b + c)
  {
  }

  /** One pass of the digit loop: the last symbol is the remainder, the rest is the quotient's. */
  lemma LoopDigitsStep(v: nat)
    requires v > 0
    ensures LoopDigits(v) == LoopDigits(v / 62) + [Alphabet[v % 62]]
  {
    if v < 62 {
      assert v / 62 == 0 && v % 62 == v;
    }
  }

  // ---------------------------------------------------------------------------
  // Decoding: the inverse used to state what an encoding means.

  /** Position of an alphabet symbol in Alphabet. */
  function DigitValue(c: char): nat {
    if '0' <= c <= '9' then c as int - '0' as int
    else if 'A' <= c <= 'Z' then c as int - 'A' as int + 10
    else if 'a' <= c <= 'z' then c as int - 'a' as int + 36
    else 0
  }

  /** The value of a base-62 numeral, most significant symbol first. */
  function Decode(s: string): nat {
    if s == [] then 0 else Decode(s[..|s| - 1]) * 62 + DigitValue(s[|s| - 1])
  }

  lemma DigitValueOfSymbol(d: nat)
    requires d < 62
    ensures DigitValue(Alphabet[d]) == d
    ensures IsSymbol(Alphabet[d])
  {
    AlphabetInOrder(d);
  }

  /** The alphabet lists the digits, then the upper-case, then the lower-case letters, each in code-point order. */
  lemma AlphabetInOrder(d: nat)
    requires d < 62
    ensures d < 10 ==> Alphabet[d] as int == '0' as int + d
    ensures 10 <= d < 36 ==> Alphabet[d] as int == 'A' as int + (d - 10)
    ensures 36 <= d ==> Alphabet[d] as int == 'a' as int + (d - 36)
  {
    if d < 10 {
      assert Alphabet[d] == Digits[d];
      DigitsInOrder(d);
    } else if d < 36 {
      assert Alphabet[d] == Upper[d - 10];
      UpperInOrder(d - 10);
    } else {
      assert Alphabet[d] == Lower[d - 36];
      LowerInOrder(d - 36);
    }
  }

  lemma DigitsInOrder(k: nat)
    requires k < |Digits|
    ensures Digits[k] as int == '0' as int + k
  {
  }

  lemma UpperInOrder(k: nat)
    requires k < |Upper|
    ensures Upper[k] as int == 'A' as int + k
  {
  }

  lemma LowerInOrder(k: nat)
    requires k < |Lower|
    ensures Lower[k] as int == 'a' as int + k
  {
  }

  lemma SymbolOfDigitValue(c: char)
    requires IsSymbol(c)
    ensures DigitValue(c) < 62 && Alphabet[DigitValue(c)] == c
  {
    AlphabetInOrder(DigitValue(c));
  }

  /** The symbols of the alphabet are exactly the ASCII letters and digits. */
  predicate IsSymbol(c: char) {
    ('0' <= c <= '9') || ('A' <= c <= 'Z') || ('a' <= c <= 'z')
  }

  lemma SymbolIsInAlphabet(c: char)
    ensures IsSymbol(c) <==> c in Alphabet
  {
    if IsSymbol(c) {
      SymbolOfDigitValue(c);
    } else if c in Alphabet {
      var d :| 0 <= d < |Alphabet| && Alphabet[d] == c;
      DigitValueOfSymbol(d);
    }
  }

  lemma {:induction false} NumeralUsesAlphabet(v: nat)
    ensures forall i :: 0 <= i < |Numeral(v)| ==> Numeral(v)[i] in Alphabet
    decreases v
  {
    if v >= 62 {
      NumeralUsesAlphabet(v / 62);
    }
  }

  /** `base62_encode` only emits characters of BASE62_ALPHABET. */
  lemma EncodeUsesAlphabet(value: nat, minLength: nat)
    ensures forall i :: 0 <= i < |Encode(value, minLength)| ==> Encode(value, minLength)[i] in Alphabet
  {
    NumeralUsesAlphabet(value);
    var digits := Numeral(value);
    if |digits| < minLength {
      var s := Zeros(minLength - |digits|) + digits;
      assert Alphabet[0] == '0';
      forall i | 0 <= i < |s|
        ensures s[i] in Alphabet
      {
        if i >= minLength - |digits| {
          assert s[i] == digits[i - (minLength - |digits|)];
        }
      }
    }
  }

  /** Decoding the numeral of `v` gives back `v`. */
  lemma {:induction false} NumeralDecodes(v: nat)
    ensures Decode(Numeral(v)) == v
    decreases v
  {
    var s := Numeral(v);
    if v < 62 {
      DigitValueOfSymbol(v);
      assert s[..|s| - 1] == [];
    } else {
      NumeralDecodes(v / 62);
      DigitValueOfSymbol(v % 62);
      assert s[..|s| - 1] == Numeral(v / 62);
    }
  }

  /** Leading zero symbols do not change a numeral's value. */
  lemma {:induction false} DecodeIgnoresLeadingZeros(n: nat, s: string)
    ensures Decode(Zeros(n) + s) == Decode(s)
    decreases |s|, n
  {
    if s == [] {
      if n > 0 {
        assert (Zeros(n) + s)[..n - 1] == Zeros(n - 1) + s;
        DecodeIgnoresLeadingZeros(n - 1, s);
      } else {
        assert Zeros(n) + s == [];
      }
    } else {
      var t := Zeros(n) + s;
      assert t[..|t| - 1] == Zeros(n) + s[..|s| - 1];
      DecodeIgnoresLeadingZeros(n, s[..|s| - 1]);
    }
  }

  /** Round trip: decoding `base62_encode(value, m)` in base 62 gives back `value`. */
  lemma EncodeDecodes(value: nat, minLength: nat)
    ensures Decode(Encode(value, minLength)) == value
  {
    var digits := Numeral(value);
    NumeralDecodes(value);
    if |digits| < minLength {
      DecodeIgnoresLeadingZeros(minLength - |digits|, digits);
    }
  }

  /** Encodings padded to the same length are equal only for equal values. */
  lemma EncodeInjective(v: nat, w: nat, minLength: nat)
    requires Encode(v, minLength) == Encode(w, minLength)
    ensures v == w
  {
    EncodeDecodes(v, minLength);
    EncodeDecodes(w, minLength);
  }

  // ---------------------------------------------------------------------------
  // Length: |Numeral(v)| is the number of base-62 digits of v.

  lemma {:induction false} Pow62Monotone(a: nat, b: nat)
    requires a <= b
    ensures Pow62(a) <= Pow62(b)
    decreases b - a
  {
    if a < b {
      Pow62Monotone(a, b - 1);
    }
  }

  /**
   * The numeral of `v` has n symbols where n is the number of base-62 digits
   * of v: v < 62^n, and (for v > 0) 62^(n-1) <= v.
   */
  lemma {:induction false} NumeralLength(v: nat)
    ensures v < Pow62(|Numeral(v)|)
    ensures v > 0 ==> Pow62(|Numeral(v)| - 1) <= v
    decreases v
  {
    if v >= 62 {
      var q := v / 62;
      NumeralLength(q);
      var n := |Numeral(q)|;
      assert |Numeral(v)| == n + 1;
      LengthStep(v, q, n);
    }
  }

  lemma LengthStep(v: nat, q: nat, n: nat)
    requires v >= 62 && q == v / 62 && n >= 1
    requires q < Pow62(n) && Pow62(n - 1) <= q
    ensures v < Pow62(n + 1) && Pow62(n) <= v
  {
    var r := v % 62;
    assert v == 62 * q + r && r < 62;
    assert q + 1 <= Pow62(n);
    assert 62 * (q + 1) <= 62 * Pow62(n);
    assert 62 * Pow62(n - 1) <= 62 * q;
  }

  /** A value below 62^n has at most n base-62 digits. */
  lemma NumeralFits(v: nat, n: nat)
    requires n >= 1
    requires v < Pow62(n)
    ensures |Numeral(v)| <= n
  {
    NumeralLength(v);
    var k := |Numeral(v)|;
    if k > n {
      Pow62Monotone(n, k - 1);
    }
  }

  lemma DivideByBase(q: nat, d: nat)
    requires d < 62
    ensures (q * 62 + d) / 62 == q && (q * 62 + d) % 62 == d
  {
  }

  /** An encoding that needs padding is the zeros followed by the numeral. */
  lemma EncodeIsPadded(v: nat, m: nat)
    requires |Numeral(v)| <= m
    ensures Encode(v, m) == Zeros(m - |Numeral(v)|) + Numeral(v)
  {
    if |Numeral(v)| == m {
      assert Zeros(0) + Numeral(v) == Numeral(v);
    }
  }

  lemma NumeralAppend(v: nat, d: nat)
    requires d < 62
    ensures v == 0 ==> Numeral(v * 62 + d) == [Alphabet[d]]
    ensures v > 0 ==> Numeral(v * 62 + d) == Numeral(v) + [Alphabet[d]]
  {
    var w := v * 62 + d;
    DivideByBase(v, d);
    assert w / 62 == v && w % 62 == d;
    if v > 0 {
      assert w >= 62;
      assert Numeral(w) == Numeral(w / 62) + [Alphabet[w % 62]];
    } else {
      assert w == d;
    }
  }

  /** Appending one symbol to an encoding multiplies its value by 62 and adds the digit. */
  lemma EncodeAppend(v: nat, d: nat, m: nat)
    requires d < 62
    requires |Numeral(v)| <= m
    ensures Encode(v * 62 + d, m + 1) == Encode(v, m) + [Alphabet[d]]
  {
    var w := v * 62 + d;
    NumeralAppend(v, d);
    if v == 0 {
      assert Numeral(w) == [Alphabet[d]];
      EncodeAppendZero(d, m, w);
      assert Encode(w, m + 1) == Encode(0, m) + [Alphabet[d]];
    } else {
      assert Numeral(w) == Numeral(v) + [Alphabet[d]];
      EncodeAppendPositive(v, Alphabet[d], m, w);
    }
  }

  lemma EncodeAppendZero(d: nat, m: nat, w: nat)
    requires d < 62 && m >= 1
    requires Numeral(w) == [Alphabet[d]]
    ensures Encode(w, m + 1) == Encode(0, m) + [Alphabet[d]]
  {
    EncodeIsPadded(0, m);
    EncodeIsPadded(w, m + 1);
    assert Numeral(0) == "0";
    assert Zeros(m - 1) + "0" == Zeros(m);
  }

  lemma EncodeAppendPositive(v: nat, c: char, m: nat, w: nat)
    requires |Numeral(v)| <= m
    requires Numeral(w) == Numeral(v) + [c]
    ensures Encode(w, m + 1) == Encode(v, m) + [c]
  {
    EncodeIsPadded(v, m);
    EncodeIsPadded(w, m + 1);
    var z := Zeros(m - |Numeral(v)|);
    assert z + (Numeral(v) + [c]) == (z + Numeral(v)) + [c];
  }

  lemma DecodeSnoc(p: string, c: char)
    ensures Decode(p + [c]) == Decode(p) * 62 + DigitValue(c)
  {
    assert (p + [c])[..|p|] == p;
  }

  lemma BoundStep(v: nat, d: nat, n: nat)
    requires v < Pow62(n) && d < 62
    ensures v * 62 + d < Pow62(n + 1)
  {
    assert v + 1 <= Pow62(n);
    assert (v + 1) * 62 <= Pow62(n) * 62;
  }

  /** Every string of n >= 1 alphabet symbols is the n-symbol encoding of its value. */
  lemma {:induction false} EncodeOfDecode(s: string)
    requires |s| >= 1
    requires forall i :: 0 <= i < |s| ==> IsSymbol(s[i])
    ensures Decode(s) < Pow62(|s|)
    ensures Encode(Decode(s), |s|) == s
    decreases |s|
  {
    var p, c := s[..|s| - 1], s[|s| - 1];
    if |s| == 1 {
      assert s == [c];
      EncodeOfSymbol(c);
    } else {
      assert forall i :: 0 <= i < |p| ==> IsSymbol(p[i]);
      EncodeOfDecode(p);
      SymbolOfDigitValue(c);
      var v, d := Decode(p), DigitValue(c);
      assert Decode(s) == v * 62 + d;
      EncodeSnoc(p, v, d);
      assert p + [Alphabet[d]] == s;
    }
  }

  lemma EncodeOfSymbol(c: char)
    requires IsSymbol(c)
    ensures Decode([c]) < Pow62(1)
    ensures Encode(Decode([c]), 1) == [c]
  {
    SymbolOfDigitValue(c);
    var d := DigitValue(c);
    DecodeSnoc([], c);
    assert [] + [c] == [c];
    assert Decode([c]) == d;
    assert Numeral(d) == [c];
  }

  lemma EncodeSnoc(p: string, v: nat, d: nat)
    requires |p| >= 1 && d < 62
    requires v < Pow62(|p|) && Encode(v, |p|) == p
    ensures v * 62 + d < Pow62(|p| + 1)
    ensures Encode(v * 62 + d, |p| + 1) == p + [Alphabet[d]]
  {
    assert |Numeral(v)| <= |p| by {
      assert |Encode(v, |p|)| == Max(|p|, |Numeral(v)|);
    }
    EncodeAppend(v, d, |p|);
    BoundStep(v, d, |p|);
  }

  /**
   * `generate_code` is a bijection between the draws [0, 62^7) and the strings
   * of seven alphabet symbols: every such string is generated by exactly one draw.
   */
  lemma EveryCodeIsGenerated(code: string)
    requires |code| == CodeLength
    requires forall i :: 0 <= i < |code| ==> code[i] in Alphabet
    ensures Decode(code) < CodeSpace
    ensures GenerateCode(Decode(code) as Draw) == code
    ensures forall draw: Draw :: GenerateCode(draw) == code ==> draw == Decode(code)
  {
    assert Pow62(CodeLength) == CodeSpace;
    forall i | 0 <= i < |code|
      ensures IsSymbol(code[i])
    {
      SymbolIsInAlphabet(code[i]);
    }
    EncodeOfDecode(code);
    forall draw: Draw | GenerateCode(draw) == code
      ensures draw == Decode(code)
    {
      EncodeInjective(draw, Decode(code), CodeLength);
    }
  }
}
