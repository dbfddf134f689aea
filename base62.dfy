/**
 * The base-62 key encoder (src/base62.rs).
 *
 * `ToBase62` is the source's `to_base62` loop on a `u64`; it is proved equal to
 * the recursive specification `Encode`. `Decode`, the most-significant-first
 * reading of a string over the same alphabet, is not part of the program: it is
 * the reference against which the encoder's round trip, injectivity, length and
 * ordering are stated.
 */
module Base62 {
  import opened Wrappers

  /** The only width the program encodes (`as_secs()` and `DefaultHasher::finish` both give a `u64`). */
  type u64 = x: int | 0 <= x < 0x1_0000_0000_0000_0000

  /** The three runs of the alphabet, in order. */
  const Digits: string := "0123456789"
  const Upper: string := "ABCDEFGHIJKLMNOPQRSTUVWXYZ"
  const Lower: string := "abcdefghijklmnopqrstuvwxyz"

  /** `ALPHABET`: the symbol at index d stands for the base-62 digit d. */
  const Alphabet: string := Digits + Upper + Lower

  /** 62 to the power k. */
  function Pow62(k: nat): (p: nat)
    ensures p >= 1
  {
    if k == 0 then 1 else 62 * Pow62(k - 1)
  }

  /** c is a symbol of the alphabet: a decimal digit or an ASCII letter (see SymbolInAlphabet). */
  predicate IsSymbol(c: char)
  {
    || ('0' <= c <= '9')
    || ('A' <= c <= 'Z')
    || ('a' <= c <= 'z')
  }

  /** Every character of s is a symbol of the alphabet. */
  predicate IsBase62(s: string)
  {
    forall i :: 0 <= i < |s| ==> IsSymbol(s[i])
  }

  /** The character code of the symbol for digit d: the three runs are contiguous in ASCII. */
  lemma AlphabetCode(d: nat)
    requires d < 62
    ensures Alphabet[d] as int ==
      if d < 10 then '0' as int + d
      else if d < 36 then 'A' as int + (d - 10)
      else 'a' as int + (d - 36)
  {
    if d < 10 {
      assert Alphabet[d] == Digits[d];
    } else if d < 36 {
      assert Alphabet[d] == Upper[d - 10];
    } else {
      assert Alphabet[d] == Lower[d - 36];
    }
  }

  /** `ALPHABET` is strictly increasing by character code. */
  lemma AlphabetIncreasing(i: nat, j: nat)
    requires i < j < 62
    ensures Alphabet[i] < Alphabet[j]
  {
    AlphabetCode(i);
    AlphabetCode(j);
  }

  /** The digit a symbol stands for: its index in the alphabet. */
  function DigitValue(c: char): (d: nat)
    requires IsSymbol(c)
    ensures d < 62 && Alphabet[d] == c
  {
    var d := if '0' <= c <= '9' then c as int - '0' as int
             else if 'A' <= c <= 'Z' then c as int - 'A' as int + 10
             else c as int - 'a' as int + 36;
    AlphabetCode(d);
    d
  }

  /** The symbols are exactly the characters of `ALPHABET`. */
  lemma SymbolInAlphabet(c: char)
    ensures IsSymbol(c) <==> c in Alphabet
  {
    if c in Alphabet {
      var j :| 0 <= j < |Alphabet| && Alphabet[j] == c;
      AlphabetCode(j);
    }
    if IsSymbol(c) {
      var d := DigitValue(c);
      assert Alphabet[d] == c;
    }
  }

  /** The symbol for digit d stands for d. */
  lemma DigitValueOf(d: nat)
    requires d < 62
    ensures DigitValue(Alphabet[d]) == d
  {
    var e := DigitValue(Alphabet[d]);
    if e < d { AlphabetIncreasing(e, d); }
    if d < e { AlphabetIncreasing(d, e); }
  }

  /** A larger symbol stands for a larger digit. */
  lemma DigitValueMonotone(x: char, y: char)
    requires IsSymbol(x) && IsSymbol(y) && x < y
    ensures DigitValue(x) < DigitValue(y)
  {
    var dx, dy := DigitValue(x), DigitValue(y);
    if dy < dx {
      AlphabetIncreasing(dy, dx);
    }
  }

  /** The number a base-62 numeral stands for, most significant digit first. */
  function Value(s: string): (n: nat)
    requires IsBase62(s)
  {
    if s == [] then 0 else Value(s[..|s| - 1]) * 62 + DigitValue(s[|s| - 1])
  }

  /** Read a string as a base-62 numeral; None when a character is not a symbol. */
  function Decode(s: string): (r: Option<nat>)
    ensures r.Some? <==> IsBase62(s)
  {
    if IsBase62(s) then Some(Value(s)) else None
  }

  /**
   * `to_base62` as a value: the minimal most-significant-first base-62
   * representation of n; 0 has no digits at all.
   */
  function Encode(n: nat): (s: string)
    ensures IsBase62(s)
  {
    if n == 0 then [] else Encode(n / 62) + [Alphabet[n % 62]]
  }

  /** The loop's n after i iterations: value divided by 62, i times over. */
  ghost function Shifted(value: nat, i: nat): nat
  {
    if i == 0 then value else Shifted(value, i - 1) / 62
  }

  /** The loop's encoded after i iterations: the symbols of the i remainders, last one first. */
  ghost function LowDigits(value: nat, i: nat): string
  {
    if i == 0 then [] else [Alphabet[Shifted(value, i - 1) % 62]] + LowDigits(value, i - 1)
  }

  /** Every character of the output is drawn from `ALPHABET`. */
  lemma EncodeInAlphabet(n: nat)
    ensures forall i :: 0 <= i < |Encode(n)| ==> Encode(n)[i] in Alphabet
  {
    forall i | 0 <= i < |Encode(n)| ensures Encode(n)[i] in Alphabet {
      SymbolInAlphabet(Encode(n)[i]);
    }
  }

  /** `to_base62` (src/base62.rs:45-58): the division loop, prepending one symbol per step. */
  method ToBase62(value: u64) returns (encoded: string)
    ensures encoded == Encode(value)
  {
    var len := |Alphabet|;
    encoded := [];
    var n := value;
    ghost var i: nat := 0;
    while n > 0
      invariant n == Shifted(value, i) && encoded == LowDigits(value, i)
      invariant Encode(n) + encoded == Encode(value)
    {
      var quo, rem := n / len, n % len;
      assert Encode(n) == Encode(quo) + [Alphabet[rem]];
      n := quo;
      encoded := [Alphabet[rem]] + encoded;
      i := i + 1;
    }
  }

  /**
   * What the loop's state means: after i iterations n is value / 62^i, and
   * encoded is the i-digit base-62 numeral (leading zero symbols kept) of value % 62^i.
   */
  lemma {:induction false} LoopState(value: nat, i: nat)
    ensures Shifted(value, i) == value / Pow62(i)
    ensures |LowDigits(value, i)| == i && IsBase62(LowDigits(value, i))
    ensures Value(LowDigits(value, i)) == value % Pow62(i)
  {
    if i > 0 {
      LoopState(value, i - 1);
      var p := Pow62(i - 1);
      var q, r := Shifted(value, i - 1), Value(LowDigits(value, i - 1));
      var q1, q0 := q / 62, q % 62;
      DivMod(value, p);
      AlphabetCode(q0);
      ValuePrepend(Alphabet[q0], LowDigits(value, i - 1));
      DigitValueOf(q0);
      assert q == 62 * q1 + q0;
      MulStep(q1, q0, p);
      MulMonotone(q0, 61, p);
      assert Pow62(i) == 62 * p;
      DivModUnique(value, Pow62(i), q1, q0 * p + r);
    }
  }

  // ---------------------------------------------------------------------------
  // Arithmetic facts, each small enough for the solver

  lemma MulDistrib(a: int, b: int, p: int)
    ensures (a + b) * p == a * p + b * p
  {}

  lemma MulNonNegative(x: nat, p: nat)
    ensures x * p >= 0
  {}

  lemma MulMonotone(x: nat, y: nat, p: nat)
    requires x <= y
    ensures x * p <= y * p
  {
    MulDistrib(x, y - x, p);
    MulNonNegative(y - x, p);
  }

  /** One more digit: a quotient by 62 and its remainder, scaled by p. */
  lemma MulStep(q: nat, r: nat, p: nat)
    ensures (62 * q + r) * p == q * (62 * p) + r * p
  {}

  lemma MulOne(x: nat, p: nat)
    requires p == 1
    ensures x * p == x
  {}

  lemma MulShift(x: nat, p: nat)
    ensures (x * p) * 62 == x * (62 * p)
  {}

  lemma DivMod(a: nat, d: nat)
    requires d > 0
    ensures a == (a / d) * d + a % d && a % d < d
  {}

  /** Division with remainder determines quotient and remainder. */
  lemma DivModUnique(a: nat, d: nat, q: nat, r: nat)
    requires 0 <= r < d && a == q * d + r
    ensures a / d == q && a % d == r
  {
    var q', r' := a / d, a % d;
    assert a == q' * d + r';
    if q' < q {
      MulMonotone(q' + 1, q, d);
      MulDistrib(q', 1, d);
    } else if q < q' {
      MulMonotone(q + 1, q', d);
      MulDistrib(q, 1, d);
    }
  }

  // ---------------------------------------------------------------------------
  // Numerals

  /** A numeral with k digits stands for less than 62^k. */
  lemma {:induction false} ValueBound(s: string)
    requires IsBase62(s)
    ensures Value(s) < Pow62(|s|)
  {
    if s != [] {
      var p := s[..|s| - 1];
      ValueBound(p);
      assert Value(s) <= (Pow62(|p|) - 1) * 62 + 61;
    }
  }

  lemma PrependBase62(c: char, s: string)
    requires IsSymbol(c) && IsBase62(s)
    ensures IsBase62([c] + s)
  {
    var t := [c] + s;
    forall i | 0 <= i < |t| ensures IsSymbol(t[i]) {
      if i > 0 { assert t[i] == s[i - 1]; }
    }
  }

  /** The leading symbol of a numeral weighs 62^(number of digits after it). */
  lemma {:induction false} ValuePrepend(c: char, s: string)
    requires IsSymbol(c) && IsBase62(s)
    ensures IsBase62([c] + s)
    ensures Value([c] + s) == DigitValue(c) * Pow62(|s|) + Value(s)
  {
    PrependBase62(c, s);
    if s != [] {
      var t := [c] + s;
      var q, x := s[..|s| - 1], s[|s| - 1];
      assert t[..|t| - 1] == [c] + q && t[|t| - 1] == x;
      ValuePrepend(c, q);
      var dc, pq := DigitValue(c), Pow62(|q|);
      assert Value(t) == (dc * pq) * 62 + (Value(q) * 62 + DigitValue(x));
      assert Value(s) == Value(q) * 62 + DigitValue(x);
      assert Pow62(|s|) == 62 * pq;
      MulShift(dc, pq);
    } else {
      assert ([c] + s)[..0] == [];
      MulOne(DigitValue(c), Pow62(|s|));
    }
  }

  // ---------------------------------------------------------------------------
  // Round trip and injectivity

  /** Decoding the output most-significant-first with the alphabet's index values gives back n. */
  lemma {:induction false} EncodeDecode(n: nat)
    ensures Decode(Encode(n)) == Some(n)
  {
    if n > 0 {
      var s := Encode(n);
      assert s[..|s| - 1] == Encode(n / 62);
      EncodeDecode(n / 62);
      DigitValueOf(n % 62);
    }
  }

  /** Distinct inputs give distinct strings. */
  lemma EncodeInjective(m: nat, n: nat)
    requires m != n
    ensures Encode(m) != Encode(n)
  {
    EncodeDecode(m);
    EncodeDecode(n);
  }

  /** For n > 0 the output never starts with the zero symbol. */
  lemma {:induction false} NoLeadingZero(n: nat)
    requires n > 0
    ensures |Encode(n)| > 0 && Encode(n)[0] != '0'
  {
    if n / 62 > 0 {
      NoLeadingZero(n / 62);
    } else {
      assert Encode(n) == [Alphabet[n]];
      AlphabetIncreasing(0, n);
    }
  }

  /** The output is canonical: empty, or led by a nonzero symbol. */
  lemma EncodeCanonical(n: nat)
    ensures Encode(n) == [] || Encode(n)[0] != '0'
  {
    if n > 0 { NoLeadingZero(n); }
  }

  /** A numeral without leading zero symbols stands for at least 62^(digits - 1). */
  lemma {:induction false} CanonicalValueBound(s: string)
    requires IsBase62(s) && s != [] && s[0] != '0'
    ensures Value(s) >= Pow62(|s| - 1)
  {
    var p := s[..|s| - 1];
    if p == [] {
      assert s == [s[0]];
      assert Alphabet[0] == '0';
    } else {
      CanonicalValueBound(p);
    }
  }

  /**
   * The converse round trip: every numeral without leading zero symbols is the
   * encoding of its value, so Encode is a bijection onto those numerals.
   */
  lemma {:induction false} DecodeEncode(s: string)
    requires IsBase62(s) && (s == [] || s[0] != '0')
    ensures Encode(Value(s)) == s
  {
    if s != [] {
      var p := s[..|s| - 1];
      var d := DigitValue(s[|s| - 1]);
      var v := Value(s);
      CanonicalValueBound(s);
      assert v == Value(p) * 62 + d && v > 0;
      assert v / 62 == Value(p) && v % 62 == d;
      if p != [] { assert p[0] == s[0]; }
      DecodeEncode(p);
      assert Encode(v) == Encode(Value(p)) + [Alphabet[d]];
      assert s == p + [s[|s| - 1]];
    }
  }

  // ---------------------------------------------------------------------------
  // Length

  /** The output has the fewest digits that can hold n: 62^(k-1) <= n < 62^k for its length k. */
  lemma {:induction false} EncodeLength(n: nat)
    ensures n < Pow62(|Encode(n)|)
    ensures n > 0 ==> Pow62(|Encode(n)| - 1) <= n
  {
    if n > 0 {
      EncodeLength(n / 62);
    }
  }

  /** Every n < 62^k encodes in at most k symbols. */
  lemma {:induction false} LengthBound(n: nat, k: nat)
    requires n < Pow62(k)
    ensures |Encode(n)| <= k
  {
    if n > 0 {
      LengthBound(n / 62, k - 1);
    }
  }

  /** Every n >= 62^(k-1) takes at least k symbols. */
  lemma {:induction false} LengthAtLeast(n: nat, k: nat)
    requires k > 0 && Pow62(k - 1) <= n
    ensures |Encode(n)| >= k
  {
    if k > 1 {
      LengthAtLeast(n / 62, k - 1);
    }
  }

  /** For n > 0 the output has length k exactly when 62^(k-1) <= n < 62^k. */
  lemma LengthIff(n: nat, k: nat)
    requires k > 0
    ensures |Encode(n)| == k <==> Pow62(k - 1) <= n < Pow62(k)
  {
    EncodeLength(n);
    if Pow62(k - 1) <= n < Pow62(k) {
      LengthBound(n, k);
      LengthAtLeast(n, k);
    }
  }

  /** A larger number never has a shorter encoding. */
  lemma LengthMonotone(m: nat, n: nat)
    requires m <= n
    ensures |Encode(m)| <= |Encode(n)|
  {
    EncodeLength(n);
    LengthBound(m, |Encode(n)|);
  }

  // ---------------------------------------------------------------------------
  // Order

  /**
   * Lexicographic order on strings by character code (the order of Rust's
   * `str`, since UTF-8 preserves code point order).
   */
  predicate LexLess(a: string, b: string)
  {
    b != [] && (a == [] || a[0] < b[0] || (a[0] == b[0] && LexLess(a[1..], b[1..])))
  }

  lemma {:induction false} LexTotal(a: string, b: string)
    requires |a| == |b| && a != b
    ensures LexLess(a, b) || LexLess(b, a)
  {
    if a[0] == b[0] {
      assert a == [a[0]] + a[1..] && b == [b[0]] + b[1..];
      LexTotal(a[1..], b[1..]);
    }
  }

  /** On numerals of equal length, lexicographic order implies numeric order. */
  lemma {:induction false} LexLessValue(a: string, b: string)
    requires IsBase62(a) && IsBase62(b) && |a| == |b| && LexLess(a, b)
    ensures Value(a) < Value(b)
  {
    var a', b' := a[1..], b[1..];
    assert a == [a[0]] + a' && b == [b[0]] + b';
    assert IsBase62(a') && IsBase62(b') by {
      forall i | 0 <= i < |a'| ensures IsSymbol(a'[i]) && IsSymbol(b'[i]) {
        assert a'[i] == a[i + 1] && b'[i] == b[i + 1];
      }
    }
    ValuePrepend(a[0], a');
    ValuePrepend(b[0], b');
    var p := Pow62(|a'|);
    if a[0] < b[0] {
      DigitValueMonotone(a[0], b[0]);
      ValueBound(a');
      MulDistrib(DigitValue(a[0]), 1, p);
      MulMonotone(DigitValue(a[0]) + 1, DigitValue(b[0]), p);
    } else {
      LexLessValue(a', b');
    }
  }

  /** For two outputs of equal length, lexicographic order agrees with numeric order. */
  lemma OrderAgrees(m: nat, n: nat)
    requires |Encode(m)| == |Encode(n)|
    ensures m < n <==> LexLess(Encode(m), Encode(n))
  {
    EncodeDecode(m);
    EncodeDecode(n);
    if LexLess(Encode(m), Encode(n)) {
      LexLessValue(Encode(m), Encode(n));
    }
    if m < n {
      EncodeInjective(m, n);
      LexTotal(Encode(m), Encode(n));
      if LexLess(Encode(n), Encode(m)) {
        LexLessValue(Encode(n), Encode(m));
      }
    }
  }

  // ---------------------------------------------------------------------------
  // Known outputs

  /** The test vectors of src/base62.rs:67-72, the empty output for 0, and the edge digits. */
  lemma Vectors()
    ensures Encode(0) == ""
    ensures Encode(1) == "1" && Encode(2) == "2" && Encode(3) == "3"
    ensures Encode(61) == "z"
    ensures Encode(62) == "10" && Encode(63) == "11" && Encode(64) == "12"
    ensures Encode(3843) == "zz"
  {
    assert Encode(1) == Encode(0) + [Alphabet[1]];
    assert Encode(2) == Encode(0) + [Alphabet[2]];
    assert Encode(3) == Encode(0) + [Alphabet[3]];
    assert Encode(61) == Encode(0) + [Alphabet[61]];
    assert Encode(62) == Encode(1) + [Alphabet[0]];
    assert Encode(63) == Encode(1) + [Alphabet[1]];
    assert Encode(64) == Encode(1) + [Alphabet[2]];
    assert Encode(3843) == Encode(61) + [Alphabet[61]];
  }
}
