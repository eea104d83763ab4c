# rand-utf8, modelled in Dafny

`rand_utf8(rng, len)` builds a random, valid UTF-8 string whose encoding is
exactly `len` bytes. Two samplers supply the characters:

- the small-range sampler `CharUtf8Kind` decodes a 32-byte random buffer
  lossily and queues every decoded character except NUL and U+FFFD;
- the full-range sampler `CharU32Kind` draws from `1..=0x110000` until
  `char::from_u32` accepts the draw.

The orchestrator always uses the small sampler when fewer than 4 bytes are
left. Otherwise it draws `random_range(0..=4)`: 0 to 3 pick the small sampler
and 4 picks the full-range one. It discards a small-sampler character that
would overshoot the budget. The full-range character is added unchecked. At
the end it shuffles the collected characters and concatenates their
encodings.

The project has four modules:

- `Wrappers` (`utf8.dfy`) holds the `Option` type. It stands for Rust's
  `Option`, as returned by `char::from_u32` and `VecDeque::pop_front`, and for
  the answer of a retry loop that ran out of fuel.

- `Utf8` (`utf8.dfy`) holds the pure UTF-8 semantics the generator relies on.
  These are `char::len_utf8`, the encoding used by `String::from_iter`,
  `char::from_u32`, the strict decoder `str::from_utf8` and the lossy decoder
  `String::from_utf8_lossy`. Encoding follows section 3 of RFC 3629. Decoding
  accepts exactly the well-formed sequences of Table 3-7 in section 3.9 of the
  Unicode Standard. The lossy decoder puts one U+FFFD in place of each maximal
  ill-formed subpart. Dafny's `char` is a Unicode scalar value, as Rust's is.
  The module proves that decoding inverts encoding in both directions, and
  that the byte length depends only on the multiset of characters.
- `Random` (`random.dfy`) models the random source. It is a class `Rng` with
  `Fill` and `RandomRange`, plus `Shuffle`. Their contracts promise only what
  the `rand` crate promises: the inclusive range bound, and that a shuffle is a
  permutation.
- `RandUtf8` (`rand_utf8.dfy`) holds the generator:
  - the class `CharUtf8Kind`, whose fields are the byte buffer and the pending
    queue;
  - the class `CharU32Kind`, which has no fields, like the Rust unit struct;
  - the method `RandUtf8`, with the source's `while` loop and its invariant
    `byte_count == Σ len_utf8(chars) <= len`.

`RandUtf8` returns the output's bytes, which is what `Box<str>` holds. A ghost
out-parameter `chosen` gives the characters collected before the shuffle.

The output holds no U+FFFD produced by decoding: the lossy decoder
substitutes nothing in it. U+FFFD can still appear as a generated character.
The full-range sampler may draw 0xFFFD, because it is a valid scalar value.
Only the small sampler filters U+FFFD out.

## Model

| member | source | states |
|---|---|---|
| `Utf8.FromU32` | src/lib.rs:62 | `char::from_u32` gives a character exactly when the value is at most 0x10FFFF and not a surrogate; that character has the value drawn. Its partner is Dafny's own `char` type, through `FromU32Inverse` |
| `Utf8.FromU32Inverse` | src/lib.rs:62 | `from_u32` inverts `c as u32`: every character's code point converts back to that same character |
| `Utf8.FromU32Rejects` | src/lib.rs:61-62 | the draws 0x110000 and 0xD800..=0xDFFF are rejected by `from_u32`, so the full-range loop draws again |
| `Utf8.LenUtf8` | src/lib.rs:96 | `len_utf8` is between 1 and 4 and equals the length of the character's UTF-8 encoding |
| `Utf8.EncodeChar` | src/lib.rs:114 | the encoding of a character is 1 to 4 bytes; it is one byte exactly for code points below 0x80; every byte after the first is a continuation byte 0x80..0xBF |
| `Utf8.EncodeString` | src/lib.rs:114 | `String::from_iter` over characters gives between one and four bytes per character. Its exact length is `EncodeStringLength`, and its inverse is `FromUtf8EncodeString`/`FromUtf8Sound` |
| `Utf8.Utf8Len` | src/lib.rs:100-106 | the byte count that the loop adds up is between one and four bytes per character. It is additive (`Utf8LenAppend`) and unchanged by permutation (`Utf8LenPermutation`) |
| `Utf8.FromUtf8Lossy` | src/lib.rs:39 | `String::from_utf8_lossy` gives at most one character per input byte, and at least one for non-empty input. Each step is `DecodeFirst`. `LossyAgreesOnValid`, `DecodeFirstEncode` and `DecodeFirstSound` carry its agreement with the strict decoder and with the encoding |
| `Utf8.DecodeFirst` | src/lib.rs:39 | one decoding step consumes between 1 and 4 bytes and never runs past the input, whether it decodes a character or skips an ill-formed subpart |
| `Utf8.DecodeFirstEncode` | src/lib.rs:39 | decoding the front of a character's encoding gives that character and consumes `len_utf8` bytes, whatever bytes follow |
| `Utf8.DecodeFirstSound` | src/lib.rs:39 | any byte run the decoder accepts is the canonical encoding of the decoded character: no overlong form, no surrogate, nothing above U+10FFFF |
| `Utf8.EncodeStringLength` | src/lib.rs:114 | the encoded string has exactly Σ `len_utf8` bytes |
| `Utf8.FromUtf8EncodeString` | src/lib.rs:114 | the encoding of any string decodes without error back to that string, so the output is valid UTF-8 |
| `Utf8.FromUtf8Sound` | src/lib.rs:114 | bytes that decode without error are exactly the encoding of the decoded string |
| `Utf8.LossyAgreesOnValid` | src/lib.rs:39 | on valid UTF-8 the lossy decoder gives the same string as the strict one and inserts no U+FFFD |
| `Utf8.Utf8LenAppend` | src/lib.rs:100 | byte length is additive over concatenation |
| `Utf8.Utf8LenPermutation` | src/lib.rs:112-114 | any two strings that are permutations of each other have the same byte length, so shuffling keeps the total |
| `RandUtf8.Admitted` | src/lib.rs:40-42 | the refill filter keeps only characters that are neither NUL nor U+FFFD, and never adds any |
| `RandUtf8.AdmittedMembers` | src/lib.rs:40-42 | a character survives the refill filter if and only if it was decoded and is neither NUL nor U+FFFD |
| `RandUtf8.CharUtf8Kind.constructor` | src/lib.rs:29-34 | `new` makes a 32-byte zero buffer and an empty queue |
| `RandUtf8.CharUtf8Kind.Refill` | src/lib.rs:37-43 | after filling the buffer, the queue is the old queue followed by the admissible characters of the buffer's lossy decoding, in order; the queue invariant still holds |
| `RandUtf8.CharUtf8Kind.Next` | src/lib.rs:36-49 | the returned character is never NUL or U+FFFD. A non-empty queue is popped at the front and the buffer is left alone. From an empty queue, the returned character followed by the new queue is what the last refill admitted. The queue invariant is preserved |
| `RandUtf8.CharU32Kind.constructor` | src/lib.rs:55-57 | `CharU32Kind::new` makes the stateless sampler; it has no contract, because there is no state to set up |
| `RandUtf8.CharU32Kind.Next` | src/lib.rs:59-66 | the returned character lies in 1..=0x10FFFF (a scalar value, so not a surrogate); other draws, 0x110000 and the surrogates, are redrawn |
| `RandUtf8.Utf8LenPush` | src/lib.rs:100-101 | appending a character adds its `len_utf8` to the byte count |
| `RandUtf8.FullRangeFits` | src/lib.rs:83-107 | when at least 4 bytes remain, appending any character keeps the byte count within `len`, so the full-range branch needs no overshoot check |
| `RandUtf8.RandUtf8` | src/lib.rs:76-115 | the output is exactly `len` bytes and the collected characters total `len` bytes. The output decodes without error to a permutation of the collected characters, the lossy decoder changes nothing in it, and it holds no NUL. For `len == 0` the output is empty |
| `Random.Rng.Fill` | src/lib.rs:38 | `rng.fill` overwrites the buffer with bytes the caller must treat as arbitrary. Its only contract is its frame (`modifies this, buf`), and `Refill` relies on nothing more |
| `Random.Rng.RandomRange` | src/lib.rs:89 | `random_range(lo..=hi)` lands in `lo..=hi` |
| `Random.Shuffle` | src/lib.rs:112 | the shuffled array is a permutation of the original |

## Left out

- `RandUtf8.RandUtf8`: the source's retry loops end only with probability one. Here every retry takes a `fuel` bound. `RandUtf8` gives up with None after `fuel` passes of its main loop, or when a sampler gives up. That covers the overshoot discard at src/lib.rs:97-98. The contract is therefore partial correctness: it says what holds whenever a string comes back, not that one always does.
- `RandUtf8.CharUtf8Kind.Next`: the recursion at src/lib.rs:46 is a loop of at most `fuel` refills. It returns None when all of them decode to nothing admissible.
- `RandUtf8.CharU32Kind.Next`: the rejection loop at src/lib.rs:60-65 makes at most `fuel` draws and returns None when all are rejected.
- The internals of the random source (`SmallRng`, `rng.fill`, `random_range`) are foreign code. `Rng` stands in for them with a 64-bit linear congruential generator. No contract depends on its constants, and `Fill` promises nothing about the bytes it writes.
- `SliceRandom::shuffle` is modelled as a Fisher-Yates shuffle whose contract is the permutation only. Its uniformity is not modelled.
- `String::from_utf8_lossy` and `String::from_iter` are library code, so they are modelled as pure functions. `VecDeque::with_capacity` and the `Box<str>` allocation are left out. They affect only performance, apart from the failure of `Vec::with_capacity` described in the next line.
- `RandUtf8.RandUtf8`: does not model the panic at src/lib.rs:77. There `Vec::<char>::with_capacity(len)` panics with "capacity overflow" when `4 * len` exceeds `isize::MAX`, and may abort on allocation failure for smaller `len`. The model accepts every `nat` and has no such error path.
- `len` and `byte_count` are `usize` in the source and `nat` here. The sum tested at src/lib.rs:97, `byte_count + c_len`, can reach `len + 3`. It still cannot wrap, because line 77 has already rejected every `len` above `isize::MAX / 4`.
- The distribution test and `validate_distribution` (src/lib.rs:132-230) are left out. They are statistical, use `f64` and print output.
- The pending queue is a growable `VecDeque` in the code, and a `seq` here. A fixed-capacity ring buffer would also do, but the model follows the code.
