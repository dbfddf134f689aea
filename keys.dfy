/**
 * Keys of shortened URLs (src/key.rs).
 *
 * A key is a string newtype. `Key::gen` encodes the whole seconds elapsed since
 * the Unix epoch; `From<T>` encodes a 64-bit hash of a value; `as_ref` exposes
 * the key's UTF-8 bytes, which the store uses as its lookup key. The clock and
 * the hasher are outside the model: the elapsed time and the hash are parameters.
 */
module Keys {
  import opened Wrappers
  import opened Base62

  /** A byte. */
  type u8 = x: int | 0 <= x < 0x100

  /** `Key(String)`. */
  datatype Key = Key(value: string)

  /**
   * One past the largest time a `Duration` can hold, in nanoseconds: its whole
   * seconds are a `u64` and a second has 1_000_000_000 nanoseconds.
   */
  const DurationLimit: nat := 18_446_744_073_709_551_616_000_000_000

  /**
   * `Key::gen` once the clock has been read: the key of second `secs`. It is a
   * canonical base-62 numeral (no leading zero symbol) that decodes to `secs`,
   * which determines it (see Base62.DecodeEncode).
   */
  function Gen(secs: u64): (k: Key)
    ensures IsBase62(k.value) && Decode(k.value) == Some(secs)
    ensures k.value == [] || k.value[0] != '0'
  {
    EncodeDecode(secs);
    EncodeCanonical(secs);
    Key(Encode(secs))
  }

  /**
   * `Key::gen` with its clock read: `now` is the time elapsed since the Unix
   * epoch in nanoseconds, negative when the clock is set before the epoch.
   * `duration_since` then fails and the `unwrap` panics, which is None here;
   * otherwise `as_secs` drops the fractional second.
   */
  function GenAt(now: int): (r: Option<Key>)
    requires now < DurationLimit
    ensures r.None? <==> now < 0
    ensures r.Some? ==> Decode(r.value.value) == Some(now / 1_000_000_000)
  {
    if now < 0 then None else Some(Gen(now / 1_000_000_000))
  }

  /** The encode step of `From<T>`: the key of a 64-bit hash, at most 11 symbols long. */
  function FromHash(hash: u64): (k: Key)
    ensures IsBase62(k.value) && Decode(k.value) == Some(hash)
    ensures |k.value| <= 11
  {
    EncodeDecode(hash);
    LengthBound(hash, 11);
    Key(Encode(hash))
  }

  // ---------------------------------------------------------------------------
  // Time-based keys

  /** Distinct seconds give distinct keys: no collisions over time. */
  lemma GenInjective(s1: u64, s2: u64)
    requires s1 != s2
    ensures Gen(s1) != Gen(s2)
  {
    EncodeInjective(s1, s2);
  }

  /**
   * Two readings of the clock after the epoch give the same key exactly when
   * they fall in the same second: the key changes once per second.
   */
  lemma SameKeyIffSameSecond(t1: int, t2: int)
    requires 0 <= t1 < DurationLimit && 0 <= t2 < DurationLimit
    ensures GenAt(t1) == GenAt(t2) <==> t1 / 1_000_000_000 == t2 / 1_000_000_000
  {
    if t1 / 1_000_000_000 != t2 / 1_000_000_000 {
      GenInjective(t1 / 1_000_000_000, t2 / 1_000_000_000);
    }
  }

  /** Keys never get shorter as time goes on. */
  lemma GenLengthMonotone(s1: u64, s2: u64)
    requires s1 <= s2
    ensures |Gen(s1).value| <= |Gen(s2).value|
  {
    LengthMonotone(s1, s2);
  }

  /** A key has 6 symbols exactly for the seconds in [62^5, 62^6). */
  lemma SixCharacters(secs: u64)
    ensures |Gen(secs).value| == 6 <==> Pow62(5) <= secs < Pow62(6)
  {
    LengthIff(secs, 6);
  }

  /**
   * In Unix time, [62^5, 62^6) runs from 916132832 (January 1999) to
   * 56800235584 (past the year 3700): every key generated in that span has 6 symbols.
   */
  lemma SixCharactersNow(secs: u64)
    requires 916_132_832 <= secs < 56_800_235_584
    ensures |Gen(secs).value| == 6
  {
    assert Pow62(5) == 916_132_832 && Pow62(6) == 56_800_235_584;
    SixCharacters(secs);
  }

  /**
   * Among keys of equal length, the later second has the lexicographically
   * greater key, and conversely; its key also decodes to the greater number.
   */
  lemma LaterKeyGreater(s1: u64, s2: u64)
    requires |Gen(s1).value| == |Gen(s2).value|
    ensures s1 < s2 <==> LexLess(Gen(s1).value, Gen(s2).value)
  {
    OrderAgrees(s1, s2);
  }

  /** Over the 6-symbol span, key order is time order. */
  lemma KeysOrderedOverSixCharacterSpan(s1: u64, s2: u64)
    requires Pow62(5) <= s1 < s2 < Pow62(6)
    ensures LexLess(Gen(s1).value, Gen(s2).value)
  {
    SixCharacters(s1);
    SixCharacters(s2);
    OrderAgrees(s1, s2);
  }

  /** Seconds 1000 and 1001 have the keys "G8" and "G9". */
  lemma ConsecutiveSeconds()
    ensures Gen(1000) == Key("G8") && Gen(1001) == Key("G9")
  {
    assert Encode(16) == Encode(0) + [Alphabet[16]];
    assert Encode(1000) == Encode(16) + [Alphabet[8]];
    assert Encode(1001) == Encode(16) + [Alphabet[9]];
  }

  /** A clock reading one nanosecond into second 1000 gives the key of second 1000. */
  lemma ClockReadingTruncates()
    ensures GenAt(1_000_000_000_001) == Some(Gen(1000))
  {
    assert 1_000_000_000_001 / 1_000_000_000 == 1000;
  }

  // ---------------------------------------------------------------------------
  // Hash-based keys

  /** The 11-symbol bound is reached: the largest hash takes all 11 symbols. */
  lemma HashKeyLongest()
    ensures |FromHash(0xFFFF_FFFF_FFFF_FFFF).value| == 11
  {
    assert Pow62(10) <= 0xFFFF_FFFF_FFFF_FFFF < Pow62(11);
    LengthIff(0xFFFF_FFFF_FFFF_FFFF, 11);
  }

  /** Distinct hashes give distinct keys. */
  lemma FromHashInjective(h1: u64, h2: u64)
    requires h1 != h2
    ensures FromHash(h1) != FromHash(h2)
  {
    EncodeInjective(h1, h2);
  }

  // ---------------------------------------------------------------------------
  // The byte view

  /** The UTF-8 encoding of one Unicode scalar value. */
  function Utf8(c: char): (b: seq<u8>)
    ensures 1 <= |b| <= 4
    ensures |b| == 1 <==> c as int < 0x80
  {
    var cp := c as int;
    if cp < 0x80 then [cp]
    else if cp < 0x800 then [0xC0 + cp / 0x40, 0x80 + cp % 0x40]
    else if cp < 0x1_0000 then [0xE0 + cp / 0x1000, 0x80 + (cp / 0x40) % 0x40, 0x80 + cp % 0x40]
    else [0xF0 + cp / 0x4_0000, 0x80 + (cp / 0x1000) % 0x40, 0x80 + (cp / 0x40) % 0x40, 0x80 + cp % 0x40]
  }

  /** The UTF-8 encoding of a string: the concatenated encodings of its characters. */
  function Utf8Encode(s: string): (b: seq<u8>)
    ensures |b| >= |s|
  {
    if s == [] then [] else Utf8(s[0]) + Utf8Encode(s[1..])
  }

  /** Every character is ASCII. */
  predicate IsAscii(s: string)
  {
    forall i :: 0 <= i < |s| ==> s[i] as int < 0x80
  }

  /** `as_ref`: the bytes of the key's string. */
  function AsBytes(k: Key): (b: seq<u8>)
    ensures |b| >= |k.value|
  {
    Utf8Encode(k.value)
  }

  /** The byte length equals the character count exactly when every character is ASCII. */
  lemma {:induction false} ByteLengthIff(s: string)
    ensures |Utf8Encode(s)| == |s| <==> IsAscii(s)
  {
    if s != [] {
      ByteLengthIff(s[1..]);
      assert IsAscii(s) <==> s[0] as int < 0x80 && IsAscii(s[1..]) by {
        if IsAscii(s[1..]) && s[0] as int < 0x80 {
          forall i | 0 <= i < |s| ensures s[i] as int < 0x80 {
            if i > 0 { assert s[i] == s[1..][i - 1]; }
          }
        }
      }
    }
  }

  /** An ASCII string's bytes are its character codes, one per character. */
  lemma {:induction false} AsciiBytes(s: string)
    requires IsAscii(s)
    ensures |Utf8Encode(s)| == |s|
    ensures forall i :: 0 <= i < |s| ==> Utf8Encode(s)[i] == s[i] as int
  {
    if s != [] {
      assert IsAscii(s[1..]) by {
        forall i | 0 <= i < |s| - 1 ensures s[1..][i] as int < 0x80 {
          assert s[1..][i] == s[i + 1];
        }
      }
      AsciiBytes(s[1..]);
      forall i | 0 <= i < |s| ensures Utf8Encode(s)[i] == s[i] as int {
        if i > 0 { assert s[i] == s[1..][i - 1]; }
      }
    }
  }

  /** Base-62 numerals are ASCII. */
  lemma Base62IsAscii(s: string)
    requires IsBase62(s)
    ensures IsAscii(s)
  {
    forall i | 0 <= i < |s| ensures s[i] as int < 0x80 {
      assert IsSymbol(s[i]);
    }
  }

  /** A generated key has as many bytes as characters, each byte the character's code. */
  lemma GenBytes(secs: u64)
    ensures |AsBytes(Gen(secs))| == |Gen(secs).value|
    ensures forall i :: 0 <= i < |Gen(secs).value| ==> AsBytes(Gen(secs))[i] == Gen(secs).value[i] as int
  {
    Base62IsAscii(Gen(secs).value);
    AsciiBytes(Gen(secs).value);
  }

  /** Distinct seconds give distinct storage keys. */
  lemma GenBytesInjective(s1: u64, s2: u64)
    requires s1 != s2
    ensures AsBytes(Gen(s1)) != AsBytes(Gen(s2))
  {
    GenBytes(s1);
    GenBytes(s2);
    GenInjective(s1, s2);
    var a, b := Gen(s1).value, Gen(s2).value;
    if |a| == |b| {
      var j :| 0 <= j < |a| && a[j] != b[j];
      assert AsBytes(Gen(s1))[j] != AsBytes(Gen(s2))[j];
    }
  }
}
