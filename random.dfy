/** The randomness the generator consumes: a stand-in for the `rand` crate's
    `Rng` (`fill`, `random_range`) and `SliceRandom::shuffle`. Callers may rely
    only on what the contracts say: a range draw lands in its inclusive range,
    a shuffle permutes. The generator behind them is a 64-bit linear
    congruential one, chosen only so that every method has a body; nothing in
    the model depends on its constants. */
module Random {
  import opened Utf8

  /** A Rust `u64`. */
  type Word = x: int | 0 <= x < 0x1_0000_0000_0000_0000

  class Rng {
    var state: Word

    /** `SeedableRng::seed_from_u64`. */
    constructor (seed: Word)
      ensures state == seed
    {
      state := seed;
    }

    method NextWord() returns (r: Word)
      modifies this
    {
      state := (state * 6364136223846793005 + 1442695040888963407) % 0x1_0000_0000_0000_0000;
      r := state;
    }

    /** `Rng::fill` on a byte buffer: every byte is overwritten, with values
        the caller must treat as arbitrary. */
    method Fill(buf: array<Byte>)
      modifies this, buf
    {
      for i := 0 to buf.Length {
        var w := NextWord();
        buf[i] := w / 0x1_0000_0000_0000 % 0x100;
      }
    }

    /** `Rng::random_range(lo..=hi)`: a value in the inclusive range. Rust
        panics on an empty range; every caller here passes `lo <= hi`. */
    method RandomRange(lo: int, hi: int) returns (r: int)
      requires lo <= hi
      modifies this
      ensures lo <= r <= hi
    {
      var w := NextWord();
      r := lo + w % (hi - lo + 1);
    }
  }

  /** Swaps two elements of an array and nothing else. */
  method Swap<T>(a: array<T>, i: nat, j: nat)
    requires i < a.Length && j < a.Length
    modifies a
    ensures a[i] == old(a[j]) && a[j] == old(a[i])
    ensures forall k :: 0 <= k < a.Length && k != i && k != j ==> a[k] == old(a[k])
    ensures multiset(a[..]) == old(multiset(a[..]))
  {
    a[i], a[j] := a[j], a[i];
  }

  /** `SliceRandom::shuffle`: a Fisher-Yates shuffle in place. The result is a
      permutation of the input. */
  method Shuffle<T>(a: array<T>, rng: Rng)
    modifies a, rng
    ensures multiset(a[..]) == old(multiset(a[..]))
  {
    var i := a.Length;
    while i > 1
      invariant 0 <= i <= a.Length
      invariant multiset(a[..]) == old(multiset(a[..]))
    {
      var j := rng.RandomRange(0, i - 1);
      Swap(a, i - 1, j);
      i := i - 1;
    }
  }
}
