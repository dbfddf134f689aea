# bref: the base-62 key encoder and time-based keys

bref is a small URL shortener. A shortened URL is stored under a *key*: the
number of whole seconds since the Unix epoch, written in base 62 over the
alphabet `0-9`, `A-Z`, `a-z` (digit value 0 to 61, in that order). This
project models that key derivation in Dafny and proves what its documentation
promises.

- `wrappers.dfy`: module `Wrappers`, an `Option` datatype.
- `base62.dfy`: module `Base62`, the encoder of `src/base62.rs`. It holds the
  alphabet, the recursive specification `Encode`, and the loop itself as the
  method `ToBase62` over `u64`, proved equal to `Encode`. It also holds a
  reference decoder (`Decode`, most significant digit first). The source has no
  decoder; this one exists so that the round trip, injectivity, length and
  ordering claims can be stated.
- `keys.dfy`: module `Keys`, the `Key` newtype of `src/key.rs`. It has
  `Key::gen` with the seconds passed in (`Gen`), the same with the clock reading
  passed in (`GenAt`), the encode step of `From<T>` on a 64-bit hash
  (`FromHash`), and the byte view `as_ref` as the UTF-8 encoding of the key
  (`AsBytes`).

Notes on how the code was modelled:

- Zero encodes to the empty string, because the loop never runs for 0; the
  model keeps this (`Base62.Vectors`).
- The alphabet is written as the concatenation of its three runs
  (`"0123456789"`, `"A…Z"`, `"a…z"`). This is the same 62-symbol sequence as
  `ALPHABET`. The solver cannot index a single 62-character literal at a
  symbolic position, which is why it is split.
- The loop's invariant is stated with two recursive ghost functions.
  `Shifted(value, i)` is `value` divided by 62, `i` times. `LowDigits(value, i)`
  is the `i` symbols prepended so far. The lemma `LoopState` proves that they
  are `value / 62^i` and the `i`-digit numeral of `value % 62^i`.
- A clock set before the epoch makes `duration_since` fail, and `.unwrap()`
  then panics. In `GenAt` that case is `None`.
- The `From<T>` path is modelled only from the hash value on: `FromHash(hash)`.

## Model

| member | source | states |
|---|---|---|
| `Base62.Alphabet` | src/base62.rs:5-11 | the 62 symbols `0`-`9`, `A`-`Z`, `a`-`z` in that order; the symbol at index d stands for digit d |
| `Base62.AlphabetIncreasing` | src/base62.rs:5-11 | `ALPHABET` is strictly increasing by character code |
| `Base62.AlphabetCode` | src/base62.rs:5-11 | the symbol for digit d is `'0'+d`, `'A'+(d-10)` or `'a'+(d-36)` by range, so digit values follow the digits/upper/lower order |
| `Base62.SymbolInAlphabet` | src/base62.rs:5-11 | a character is a digit or an ASCII letter exactly when it occurs in `ALPHABET` |
| `Base62.DigitValue` | src/base62.rs:5-11 | every symbol stands for a digit below 62, and that digit indexes back to the same symbol |
| `Base62.DigitValueOf` | src/base62.rs:5-11 | the symbol at index d stands for d (the alphabet has no repeated symbol) |
| `Base62.Encode` | src/base62.rs:44-58 | the output consists of alphabet symbols only |
| `Base62.ToBase62` | src/base62.rs:45-58 | the `while n > 0` loop that prepends `ALPHABET[n % 62]` and divides `n` by 62 returns exactly `Encode(value)` for every `u64` |
| `Base62.LoopState` | src/base62.rs:48-55 | after i iterations, `n` is `value / 62^i` and `encoded` is the i-digit numeral (zero symbols kept) of `value % 62^i` |
| `Base62.EncodeInAlphabet` | src/base62.rs:52-54 | every character of the output is drawn from `ALPHABET` |
| `Base62.EncodeDecode` | src/base62.rs:50-55 | decoding the output most significant digit first gives back n |
| `Base62.DecodeEncode` | src/base62.rs:50-55 | every numeral without a leading zero symbol is the output for its value, so the encoder is a bijection onto those numerals |
| `Base62.EncodeInjective` | src/base62.rs:51-54 | distinct inputs give distinct outputs |
| `Base62.NoLeadingZero` | src/base62.rs:51-54 | for n > 0 the output is non-empty and does not start with `'0'` |
| `Base62.EncodeCanonical` | src/base62.rs:51-54 | the output is empty or starts with a non-zero symbol |
| `Base62.EncodeLength` | src/base62.rs:51-55 | for output length k, n < 62^k, and 62^(k-1) <= n when n > 0 |
| `Base62.LengthIff` | src/base62.rs:51-55 | for k > 0, the output has length k exactly when 62^(k-1) <= n < 62^k |
| `Base62.LengthBound` | src/base62.rs:51-55 | every n < 62^k encodes in at most k symbols |
| `Base62.LengthAtLeast` | src/base62.rs:51-55 | every n >= 62^(k-1) takes at least k symbols |
| `Base62.LengthMonotone` | src/base62.rs:51-55 | a larger number never has a shorter output |
| `Base62.ValueBound` | src/base62.rs:50-55 | a k-digit numeral stands for less than 62^k |
| `Base62.LexLessValue` | src/base62.rs:5-11 | on numerals of equal length, lexicographic order implies numeric order |
| `Base62.OrderAgrees` | src/base62.rs:5-11 | for outputs of equal length, m < n exactly when the output for m is lexicographically smaller |
| `Base62.Vectors` | src/base62.rs:66-73 | 1→"1", 2→"2", 3→"3", 62→"10", 63→"11", 64→"12", and also 0→"", 61→"z", 3843→"zz" |
| `Keys.Key` | src/key.rs:10 | a key is a wrapper around one string |
| `Keys.Gen` | src/key.rs:31-39 | the key of second `secs` is a canonical base-62 numeral that decodes to `secs` |
| `Keys.GenAt` | src/key.rs:32-38 | a clock reading before the epoch yields no key (the `unwrap` panic); otherwise the key decodes to the whole seconds elapsed |
| `Keys.FromHash` | src/key.rs:42-48 | the key of a 64-bit hash decodes to that hash and has at most 11 symbols |
| `Keys.GenInjective` | src/key.rs:19-21 | distinct seconds give distinct keys (no collisions over time) |
| `Keys.SameKeyIffSameSecond` | src/key.rs:14-17 | two clock readings after the epoch give equal keys exactly when they fall in the same second |
| `Keys.GenLengthMonotone` | src/key.rs:26-27 | keys never get shorter as time goes on |
| `Keys.SixCharacters` | src/key.rs:13 | the key has 6 symbols exactly when 62^5 <= secs < 62^6 |
| `Keys.SixCharactersNow` | src/key.rs:13 | every second from 916132832 (1999) up to 56800235584 has a 6-symbol key |
| `Keys.LaterKeyGreater` | src/key.rs:19-20 | among keys of equal length, s1 < s2 exactly when the key of s1 is lexicographically smaller |
| `Keys.KeysOrderedOverSixCharacterSpan` | src/key.rs:19-20 | within [62^5, 62^6) a later second always has the lexicographically greater key |
| `Keys.ConsecutiveSeconds` | src/key.rs:31-38 | seconds 1000 and 1001 have keys "G8" and "G9" |
| `Keys.ClockReadingTruncates` | src/key.rs:33-36 | a reading one nanosecond into second 1000 gives the key of second 1000 |
| `Keys.HashKeyLongest` | src/key.rs:28-30 | the largest 64-bit hash takes exactly 11 symbols |
| `Keys.FromHashInjective` | src/key.rs:42-48 | distinct hashes give distinct keys |
| `Keys.Utf8` | src/key.rs:53 | one character's UTF-8 encoding has 1 to 4 bytes, and exactly 1 when the character is ASCII |
| `Keys.Utf8Encode` | src/key.rs:51-55 | a string has at least as many bytes as characters |
| `Keys.AsBytes` | src/key.rs:51-55 | a key has at least as many bytes as characters |
| `Keys.ByteLengthIff` | src/key.rs:51-55 | the byte length equals the character count exactly when every character is ASCII |
| `Keys.AsciiBytes` | src/key.rs:51-55 | the bytes of an ASCII string are its character codes, one per character |
| `Keys.GenBytes` | src/key.rs:51-55 | a generated key has one byte per character, and each byte is that character's code |
| `Keys.GenBytesInjective` | src/key.rs:51-55 | distinct seconds give distinct byte keys, so the store never sees two seconds under one key |

## Left out

- `src/store.rs`: the key-value store wraps the `sled` embedded database. Its insert and get, its durability and its concurrency all belong to that library. `String::from_utf8_lossy` is also foreign code.
- `src/server.rs`, `src/lib.rs` and `src/main.rs` are HTTP routing, the command line, directory lookup, tracing and the async entry point. All of it is I/O.
- `SystemTime::now()` is not modelled. `Gen` takes the seconds as a parameter and `GenAt` takes the elapsed nanoseconds. `GenAt` requires a reading below 2^64 seconds, the largest a `Duration` can hold.
- `DefaultHasher` is not modelled, because the hash function is foreign and unspecified. Only the encoding of an arbitrary `u64` hash is modelled.
- The generic `T: Copy + Integer + NumCast` impl is not modelled. The domain is fixed to `u64`, the only width the program uses. Signed types, for which negative inputs also encode to "", are not covered.
- `rem.to_usize().unwrap()` is modelled as a plain index. It cannot fail, because every remainder is below 62.
- The `Serialize`/`Deserialize` derives on `Key` are not modelled.
- HashKeyLongest: shows only that 11 symbols are enough for every 64-bit hash and that one hash needs all 11. The source's remark that a collision-free hash key needs at least 11 characters would need a counting argument over all shorter strings. That argument is not proved.
