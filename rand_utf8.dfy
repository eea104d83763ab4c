/** The generator: two character samplers and `rand_utf8`, which mixes them
    until the UTF-8 encoding of the collected characters is exactly the
    requested number of bytes, shuffles the characters and encodes them.

    The source retries without bound in three places (the small sampler's
    refill, the full-range sampler's rejection loop and the orchestrator's
    discard of a character that does not fit); those loops end only with
    probability one. Here each takes a `fuel` bound and answers None once it
    is spent, so what is proved is what holds whenever an answer comes. */
module RandUtf8 {
  import opened Wrappers
  import opened Utf8
  import opened Random

  /** The size of the small sampler's byte buffer. */
  const BufLen := 32

  /** What the small sampler may hand out: neither NUL nor U+FFFD, the
      character the lossy decoder puts where the bytes were ill-formed. */
  predicate Admissible(c: char) {
    c as int > 0 && c != Replacement
  }

  /** The characters of `s` that the refill keeps, in their order. */
  function Admitted(s: string): (r: string)
    ensures forall i :: 0 <= i < |r| ==> Admissible(r[i])
    ensures |r| <= |s|
  {
    if s == [] then []
    else Admitted(s[..|s| - 1]) + (if Admissible(s[|s| - 1]) then [s[|s| - 1]] else [])
  }

  /** The refill drops exactly the inadmissible characters. */
  lemma {:induction false} AdmittedMembers(s: string, c: char)
    ensures c in Admitted(s) <==> c in s && Admissible(c)
  {
    if s != [] {
      var init := s[..|s| - 1];
      AdmittedMembers(init, c);
      assert s == init + [s[|s| - 1]];
    }
  }

  /** The small-range sampler (`CharUtf8Kind`): a 32-byte buffer, refilled
      from the random source and decoded lossily, and the queue of decoded
      characters still to hand out. */
  class CharUtf8Kind {
    var buf: array<Byte>
    var chars: seq<char>

    /** The queue holds only admissible characters. */
    ghost predicate Valid()
      reads this
    {
      buf.Length == BufLen && forall i :: 0 <= i < |chars| ==> Admissible(chars[i])
    }

    /** `CharUtf8Kind::new`: a zeroed buffer and an empty queue. */
    constructor ()
      ensures Valid() && fresh(buf) && chars == []
      ensures buf[..] == seq(BufLen, _ => 0)
    {
      buf := new Byte[BufLen](_ => 0);
      chars := [];
    }

    /** Refills the buffer from the random source, decodes it lossily and
        appends to the queue every decoded character that is admissible. */
    method Refill(rng: Rng)
      requires Valid()
      modifies this`chars, buf, rng
      ensures Valid()
      ensures chars == old(chars) + Admitted(FromUtf8Lossy(buf[..]))
    {
      rng.Fill(buf);
      ghost var filled := buf[..];
      var decoded := FromUtf8Lossy(buf[..]);
      for i := 0 to |decoded|
        invariant Valid() && buf[..] == filled
        invariant chars == old(chars) + Admitted(decoded[..i])
      {
        var c := decoded[i];
        assert decoded[..i + 1][..i] == decoded[..i];
        if c as int > 0 && c != Replacement {
          chars := chars + [c];
        }
      }
      assert decoded[..|decoded|] == decoded;
    }

    /** `CharUtf8Kind::next`: the front of the queue, refilling first while
        the queue is empty. A character it returns is never NUL and never
        U+FFFD. With a non-empty queue it simply dequeues; otherwise the
        character and the new queue are what the last refill decoded. None
        means that `fuel` refills all came out empty. */
    method Next(rng: Rng, fuel: nat) returns (r: Option<char>)
      requires Valid()
      modifies this`chars, buf, rng
      ensures Valid()
      ensures r.Some? ==> Admissible(r.value)
      ensures old(chars) != [] ==>
        r == Some(old(chars)[0]) && chars == old(chars)[1..] && buf[..] == old(buf[..])
      ensures old(chars) == [] && r.Some? ==> [r.value] + chars == Admitted(FromUtf8Lossy(buf[..]))
      ensures r.None? ==> old(chars) == [] && chars == []
    {
      ghost var refilled := false;
      var tries := fuel;
      while chars == []
        invariant Valid()
        invariant refilled ==> old(chars) == [] && chars == Admitted(FromUtf8Lossy(buf[..]))
        invariant !refilled ==> chars == old(chars) && buf[..] == old(buf[..])
        decreases tries
      {
        if tries == 0 {
          return None;
        }
        tries := tries - 1;
        Refill(rng);
        refilled := true;
      }
      r := Some(chars[0]);
      chars := chars[1..];
    }
  }

  /** The full-range sampler (`CharU32Kind`): it holds no state. */
  class CharU32Kind {
    /** `CharU32Kind::new`. */
    constructor ()
    {
    }

    /** `CharU32Kind::next`: draws from 1..=0x110000 until `char::from_u32`
        accepts the draw, so 0x110000 and the surrogates are redrawn and the
        result is a scalar value other than NUL. None means `fuel` draws were
        all rejected. */
    method Next(rng: Rng, fuel: nat) returns (r: Option<char>)
      modifies rng
      ensures r.Some? ==> 1 <= r.value as int <= 0x10FFFF
    {
      var tries := fuel;
      while tries > 0
        decreases tries
      {
        tries := tries - 1;
        var x := rng.RandomRange(1, 0x110000);
        var c := FromU32(x);
        if c.Some? {
          return c;
        }
      }
      return None;
    }
  }

  lemma Utf8LenPush(s: string, c: char)
    ensures Utf8Len(s + [c]) == Utf8Len(s) + LenUtf8(c)
  {
    Utf8LenAppend(s, [c]);
    assert [c][1..] == [];
  }

  /** A character from the full-range sampler is taken without checking for
      overshoot: that is safe because the branch is only entered with at least
      four bytes left, and no encoding is longer than four. */
  lemma FullRangeFits(s: string, c: char, len: nat)
    requires len - Utf8Len(s) >= 4
    ensures Utf8Len(s + [c]) <= len
  {
    Utf8LenPush(s, c);
  }

  /** `rand_utf8`: a random string of exactly `len` UTF-8 bytes. It is the
      encoding of a permutation of the characters collected (`chosen`), which
      never overshoot the budget; it decodes without error, the lossy decoder
      substitutes nothing in it, and it holds no NUL. U+FFFD may still occur
      in it: the full-range sampler can draw 0xFFFD, which is a scalar value;
      what cannot occur is a U+FFFD put there by decoding. For `len == 0` the loop
      never runs and the string is empty. None means a retry loop ran out of
      `fuel`. */
  method RandUtf8(rng: Rng, len: nat, fuel: nat) returns (r: Option<seq<Byte>>, ghost chosen: string)
    modifies rng
    ensures len == 0 ==> r == Some([])
    ensures r.Some? ==> |r.value| == len && Utf8Len(chosen) == len
    ensures r.Some? ==> FromUtf8(r.value).Some?
    ensures r.Some? ==> multiset(FromUtf8(r.value).value) == multiset(chosen)
    ensures r.Some? ==> FromUtf8Lossy(r.value) == FromUtf8(r.value).value
    ensures r.Some? ==> forall c :: c in FromUtf8(r.value).value ==> c as int != 0
  {
    var chars: seq<char> := [];
    var byteCount := 0;
    var utf8Kind := new CharUtf8Kind();
    var u32Kind := new CharU32Kind();
    var steps := fuel;

    while byteCount < len
      invariant byteCount == Utf8Len(chars) <= len
      invariant forall i :: 0 <= i < |chars| ==> chars[i] as int != 0
      invariant fresh(utf8Kind) && fresh(utf8Kind.buf) && utf8Kind.Valid()
      decreases steps
    {
      if steps == 0 {
        return None, chars;
      }
      steps := steps - 1;
      var kind;
      if len - byteCount < 4 {
        // close to the end only the small sampler can still fit
        kind := 0;
      } else {
        kind := rng.RandomRange(0, 4);
      }

      if kind < 4 {
        var c := utf8Kind.Next(rng, fuel);
        if c.None? {
          return None, chars;
        }
        var cLen := LenUtf8(c.value);
        if byteCount + cLen > len {
          // would overshoot: discard it and choose again
          continue;
        }
        Utf8LenPush(chars, c.value);
        byteCount := byteCount + cLen;
        chars := chars + [c.value];
      } else {
        var c := u32Kind.Next(rng, fuel);
        if c.None? {
          return None, chars;
        }
        FullRangeFits(chars, c.value, len);
        Utf8LenPush(chars, c.value);
        byteCount := byteCount + LenUtf8(c.value);
        chars := chars + [c.value];
      }
    }

    var a := new char[|chars|](i requires 0 <= i < |chars| => chars[i]);
    assert a[..] == chars;
    Shuffle(a, rng);
    var shuffled := a[..];
    var bytes := EncodeString(shuffled);

    Utf8LenPermutation(shuffled, chars);
    EncodeStringLength(shuffled);
    FromUtf8EncodeString(shuffled);
    LossyAgreesOnValid(bytes);
    forall c | c in shuffled
      ensures c as int != 0
    {
      assert c in multiset(chars);
    }
    r, chosen := Some(bytes), chars;
  }
}
