/** Streaming MD5: a context fed in pieces against the one-shot definition of RFC 1321. */
module Md5 {
  import opened Bytes
  import opened Md5Block

  type octets = seq<octet>

  const TWO32 := 0x1_0000_0000
  const TWO64 := 0x1_0000_0000_0000_0000

  /** Section 3.3: the registers before the first block. */
  const INIT := State(0x67452301, 0xefcdab89, 0x98badcfe, 0x10325476)

  /** Section 3.4: the blocks of `m` one after another. */
  function Fold(m: octets): State
    requires |m| % 64 == 0
  {
    if m == [] then INIT else Compress(Fold(m[..|m| - 64]), m[|m| - 64..])
  }

  /** Section 3.1: the number of zero octets after the octet 0x80 that makes the length 56 modulo 64. */
  function ZeroCount(n: nat): (k: nat)
    ensures k < 64 && (n + 1 + k) % 64 == 56
  {
    (55 - n) % 64
  }

  function Zeros(k: nat): (z: octets)
    ensures |z| == k
  {
    seq(k, _ => 0)
  }

  /** The digit of `x` to the base 256 at place `i`, counted from the lowest. */
  function Place(x: nat, i: nat): (d: byte) {
    if i == 0 then x % 0x100 else Place(x / 0x100, i - 1)
  }

  /** The octet of value `x`. */
  function ToOctet(x: byte): octet {
    x as octet
  }

  /** Section 3.2: the length in bits modulo 2^64, the low-order octet first. */
  function LengthOctets(n: nat): (s: octets)
    ensures |s| == 8
  {
    var b := 8 * n;
    [ToOctet(Place(b, 0)), ToOctet(Place(b, 1)), ToOctet(Place(b, 2)), ToOctet(Place(b, 3)),
     ToOctet(Place(b, 4)), ToOctet(Place(b, 5)), ToOctet(Place(b, 6)), ToOctet(Place(b, 7))]
  }

  /** The machine word of value `x`. */
  function ToWord(x: u32): word {
    DecodeWord([ToOctet(Place(x, 0)), ToOctet(Place(x, 1)), ToOctet(Place(x, 2)), ToOctet(Place(x, 3))])
  }

  function Value(o: octet): int {
    o as int
  }

  lemma JoinValue(w: word, a: octet, b: octet, c: octet, d: octet)
    requires w == (a as word) | ((b as word) << 8) | ((c as word) << 16) | ((d as word) << 24)
    ensures w as int == a as int + 0x100 * (b as int) + 0x1_0000 * (c as int) + 0x100_0000 * (d as int)
  {
  }

  lemma DecodeJoins(w: word, a: octet, b: octet, c: octet, d: octet)
    requires w == DecodeWord([a, b, c, d])
    ensures w == (a as word) | ((b as word) << 8) | ((c as word) << 16) | ((d as word) << 24)
  {
  }

  lemma DecodeValue(w: word, a: octet, b: octet, c: octet, d: octet)
    requires w == DecodeWord([a, b, c, d])
    ensures w as int == Value(a) + 0x100 * Value(b) + 0x1_0000 * Value(c) + 0x100_0000 * Value(d)
  {
    hide DecodeWord;
    DecodeJoins(w, a, b, c, d);
    JoinValue(w, a, b, c, d);
  }

  lemma OctetValue(x: byte)
    ensures Value(ToOctet(x)) == x
  {
    assert x % 0x100 == x;
  }

  lemma Places(x: u32)
    ensures x == Place(x, 0) + 0x100 * Place(x, 1) + 0x1_0000 * Place(x, 2) + 0x100_0000 * Place(x, 3)
  {
    assert x == x / 0x100 * 0x100 + x % 0x100;
    assert x / 0x100 == x / 0x100 / 0x100 * 0x100 + x / 0x100 % 0x100;
    assert Place(x, 1) == x / 0x100 % 0x100;
    assert Place(x, 2) == Place(x / 0x100, 1) == x / 0x100 / 0x100 % 0x100;
    assert Place(x, 3) == Place(x / 0x100, 2) == Place(x / 0x100 / 0x100, 1) == x / 0x100 / 0x100 / 0x100 % 0x100;
  }

  /** A counter word of the model is the machine word of that value. */
  lemma ToWordValue(x: u32)
    ensures ToWord(x) as int == x
  {
    hide DecodeWord, Place, ToOctet, Value;
    Places(x);
    OctetValue(Place(x, 0));
    OctetValue(Place(x, 1));
    OctetValue(Place(x, 2));
    OctetValue(Place(x, 3));
    DecodeValue(ToWord(x), ToOctet(Place(x, 0)), ToOctet(Place(x, 1)), ToOctet(Place(x, 2)), ToOctet(Place(x, 3)));
  }

  function Padded(m: octets): octets {
    m + [0x80] + Zeros(ZeroCount(|m|)) + LengthOctets(|m|)
  }

  lemma PaddedLength(m: octets)
    ensures |Padded(m)| == |m| + 1 + ZeroCount(|m|) + 8
    ensures |Padded(m)| % 64 == 0
  {
    hide LengthOctets, ZeroCount;
    var n := |m| + 1 + ZeroCount(|m|);
    assert n == n / 64 * 64 + 56;
    assert n + 8 == (n / 64 + 1) * 64;
  }

  /** Section 3.5: the digest. */
  function Digest(m: octets): (d: octets)
    ensures |d| == 16
  {
    PaddedLength(m);
    StateOctets(Fold(Padded(m)))
  }

  function StateOctets(v: State): (d: octets)
    ensures |d| == 16
  {
    EncodeWords([v.a, v.b, v.c, v.d])
  }

  /** How many octets of a message of `n` are in full blocks. */
  function Full(n: nat): (k: nat)
    ensures k % 64 == 0 && k <= n < k + 64 && k + n % 64 == n
  {
    n / 64 * 64
  }

  lemma FullIs(n: nat, k: nat)
    requires k % 64 == 0 && k <= n < k + 64
    ensures Full(n) == k
  {
  }

  /** The two words of the bit count of `n` octets. */
  predicate Counts(lo: u32, hi: u32, n: nat) {
    lo + TWO32 * hi == 8 * n % TWO64
  }

  lemma CountsQuotient(lo: u32, hi: u32, n: nat) returns (q: nat)
    requires Counts(lo, hi, n)
    ensures 8 * n == TWO64 * q + lo + TWO32 * hi
  {
    q := 8 * n / TWO64;
  }

  lemma CountsFrom(lo: u32, hi: u32, n: nat, q: int)
    requires 8 * n == TWO64 * q + lo + TWO32 * hi
    ensures Counts(lo, hi, n)
  {
  }

  /** The byte index the C code computes from the low word, `(count[0] >> 3) & 0x3F`. */
  lemma IndexOfCount(lo: u32, hi: u32, n: nat)
    requires Counts(lo, hi, n)
    ensures lo / 8 % 64 == n % 64
  {
    hide Counts;
    var q := CountsQuotient(lo, hi, n);
    var x := 0x80_0000_0000_0000 * q + 0x80_0000 * hi;
    assert lo == 8 * n - 512 * x;
    WholeBlocks(lo, n, x);
  }

  lemma WholeBlocks(lo: nat, n: nat, x: int)
    requires lo == 8 * n - 512 * x
    ensures lo / 8 % 64 == n % 64
  {
    assert lo / 8 == n - 64 * x;
  }

  /** The counter update of MD5Update with its carry test: 8 times the octets fed, modulo 2^64. */
  lemma CountUp(lo: u32, hi: u32, n: nat, len: u32, lo': u32, hi': u32)
    requires Counts(lo, hi, n)
    requires lo' == (lo + 8 * len % TWO32) % TWO32
    requires hi' == ((if lo' < 8 * len % TWO32 then (hi + 1) % TWO32 else hi) + len / 0x2000_0000) % TWO32
    ensures Counts(lo', hi', n + len)
  {
    hide Counts;
    var q := CountsQuotient(lo, hi, n);
    var l, h := 8 * len % TWO32, len / 0x2000_0000;
    var carry := LowWord(lo, len, lo');
    var over := HighWord(hi, carry, h, hi');
    CountsFrom(lo', hi', n + len, q + over);
  }

  lemma LowWord(lo: u32, len: u32, lo': u32) returns (carry: nat)
    requires lo' == (lo + 8 * len % TWO32) % TWO32
    ensures carry == if lo' < 8 * len % TWO32 then 1 else 0
    ensures lo + 8 * len == lo' + TWO32 * (carry + len / 0x2000_0000)
  {
    var l := 8 * len % TWO32;
    assert 8 * len == l + TWO32 * (len / 0x2000_0000);
    carry := if lo + l >= TWO32 then 1 else 0;
  }

  lemma HighWord(hi: u32, carry: nat, h: nat, hi': u32) returns (over: nat)
    requires carry <= 1
    requires hi' == ((if carry == 1 then (hi + 1) % TWO32 else hi) + h) % TWO32
    ensures hi + carry + h == hi' + TWO32 * over
  {
    var m := if carry == 1 then (hi + 1) % TWO32 else hi;
    over := (m + h) / TWO32 + (if m == hi + carry then 0 else 1);
  }

  /** One more block. */
  lemma FoldNext(m: octets, i: nat)
    requires i % 64 == 0 && i + 64 <= |m|
    ensures Fold(m[..i + 64]) == Compress(Fold(m[..i]), m[i..i + 64])
  {
    hide Compress;
    assert m[..i + 64][..i] == m[..i] && m[..i + 64][i..] == m[i..i + 64];
  }

  lemma SliceRight(a: octets, b: octets, i: nat, j: nat)
    requires i <= j <= |b|
    ensures (a + b)[|a| + i..|a| + j] == b[i..j]
  {
  }

  /** MD5_memcpy into `dst` at `at`. */
  method Memcpy(dst: array<octet>, at: nat, src: octets)
    requires at + |src| <= dst.Length
    modifies dst
    ensures dst[..at] == old(dst[..at])
    ensures dst[at..at + |src|] == src
  {
    for i := 0 to |src|
      invariant dst[..at] == old(dst[..at])
      invariant dst[at..at + i] == src[..i]
    {
      dst[at + i] := src[i];
    }
  }

  /** MD5_CTX. */
  class Context {
    var state: State
    var count0: u32
    var count1: u32
    var buffer: array<octet>
    /** All octets fed so far. */
    ghost var fed: octets

    /** The registers have taken in every full block, the buffer starts with the octets
        after them, and the counter tells 8 times the octets fed. */
    ghost predicate Valid()
      reads this, buffer
    {
      && buffer.Length == 64
      && state == Fold(fed[..Full(|fed|)])
      && buffer[..|fed| % 64] == fed[Full(|fed|)..]
      && Counts(count0, count1, |fed|)
    }

    /** MD5Init. */
    constructor ()
      ensures Valid() && fresh(buffer) && fed == []
    {
      state := INIT;
      count0, count1 := 0, 0;
      buffer := new octet[64];
      fed := [];
    }

    /** The counter part of MD5Update. */
    method Count(len: u32)
      requires Counts(count0, count1, |fed|)
      modifies `count0, `count1
      ensures Counts(count0, count1, |fed| + len)
    {
      ghost var lo, hi := count0, count1;
      count0 := (count0 + 8 * len % TWO32) % TWO32;
      if count0 < 8 * len % TWO32 {
        count1 := (count1 + 1) % TWO32;
      }
      count1 := (count1 + len / 0x2000_0000) % TWO32;
      CountUp(lo, hi, |fed|, len, count0, count1);
    }

    /** Fill up the buffer with the front of the input and take in the block it makes. */
    method FirstBlock(piece: octets, index: nat)
      requires Valid() && index == |fed| % 64 && |piece| == 64 - index
      modifies `state, buffer
      ensures |fed + piece| % 64 == 0 && state == Fold(fed + piece)
    {
      hide Fold, Counts, Full, Compress;
      ghost var base := Full(|fed|);
      ghost var all := fed + piece;
      Memcpy(buffer, index, piece);
      assert buffer[..] == buffer[..index] + buffer[index..index + |piece|] == fed[base..] + piece;
      assert all[base..base + 64] == fed[base..] + piece && all[..base] == fed[..base];
      assert all[..base + 64] == all;
      FoldNext(all, base);
      state := Transform(state, buffer[..]);
    }

    /** The block part of MD5Update: `i` octets of the input are used up. */
    method Blocks(input: octets, index: nat) returns (i: nat)
      requires Valid() && index == |fed| % 64 && 64 - index <= |input|
      modifies `state, buffer
      ensures i <= |input| && |fed| + i == Full(|fed| + |input|)
      ensures state == Fold((fed + input)[..|fed| + i])
    {
      hide Fold, Counts, Full, Compress, Valid;
      var partLen := 64 - index;
      FirstBlock(input[..partLen], index);
      i := partLen;
      ghost var all := fed + input;
      assert all[..|fed| + i] == fed + input[..partLen];
      while i + 63 < |input|
        invariant i <= |input| && (|fed| + i) % 64 == 0
        invariant state == Fold(all[..|fed| + i])
      {
        FoldNext(all, |fed| + i);
        SliceRight(fed, input, i, i + 64);
        state := Transform(state, input[i..i + 64]);
        i := i + 64;
      }
      FullIs(|fed| + |input|, |fed| + i);
    }

    /** The branch of MD5Update on whether the input completes a block. */
    method TakeBlocks(input: octets, index: nat) returns (i: nat, at: nat)
      requires Valid() && index == |fed| % 64
      modifies `state, buffer
      ensures var all := fed + input;
              && i <= |input| && at + (|input| - i) == |all| % 64
              && state == Fold(all[..Full(|all|)])
              && buffer[..at] + input[i..] == all[Full(|all|)..]
    {
      hide Fold, Counts, Full;
      if 64 - index <= |input| {
        i := Blocks(input, index);
        at := 0;
        SliceRight(fed, input, i, |input|);
      } else {
        i, at := 0, index;
        ghost var all, base := fed + input, Full(|fed|);
        FullIs(|all|, base);
        assert all[..base] == fed[..base] && all[base..] == fed[base..] + input;
      }
    }

    /** MD5Update. The input is short enough for the loop test `i + 63 < inputLen` not to wrap. */
    method Update(input: octets)
      requires Valid() && |input| + 63 < TWO32
      modifies `state, `count0, `count1, `fed, buffer
      ensures Valid() && fed == old(fed) + input
    {
      hide Fold, Counts, Full;
      IndexOfCount(count0, count1, |fed|);
      var i, index := TakeBlocks(input, count0 / 8 % 64);
      Memcpy(buffer, index, input[i..]);
      ghost var n := index + (|input| - i);
      assert buffer[..n] == buffer[..index] + buffer[index..n];
      Count(|input|);
      fed := fed + input;
    }

    /** The padding of MD5Final: it ends on a block boundary, with nothing left in the buffer. */
    method Pad()
      requires Valid()
      modifies `state, `count0, `count1, `fed, buffer
      ensures Valid() && fed == Padded(old(fed))
      ensures |fed| % 64 == 0 && state == Fold(fed)
    {
      hide Fold, EncodeWords, ToWord, LengthOctets, ZeroCount, Counts, Full;
      ghost var m := fed;
      var bits := new octet[8];
      Encode(bits, [ToWord(count0), ToWord(count1)], 8);
      LengthFromCounts(count0, count1, |m|, bits[..8]);
      IndexOfCount(count0, count1, |m|);
      var index := count0 / 8 % 64;
      var padLen := if index < 56 then 56 - index else 120 - index;
      PadLength(|m|, padLen);
      Update(PADDING[..padLen]);
      Update(bits[..]);
      PaddedParts(m, fed);
    }

    /** MD5Final: pad, append the length, store the digest and wipe the context. */
    method Final(digest: array<octet>)
      requires Valid() && digest != buffer && 16 <= digest.Length
      modifies `state, `count0, `count1, `fed, buffer, digest
      ensures digest[..16] == Digest(old(fed)) && digest[16..] == old(digest[16..])
      ensures state == State(0, 0, 0, 0) && count0 == count1 == 0
      ensures buffer.Length == 64 && buffer[..] == Zeros(64)
    {
      hide Fold, Padded, EncodeWords, Counts, Full;
      Pad();
      var words := [state.a, state.b, state.c, state.d];
      Encode(digest, words, 16);
      assert words[..4] == words;
      state := State(0, 0, 0, 0);
      count0, count1 := 0, 0;
      Memset(buffer);
    }
  }

  /** The octets PADDING of the C code. */
  const PADDING: octets := [0x80] + Zeros(63)

  /** MD5_memset to 0. */
  method Memset(output: array<octet>)
    modifies output
    ensures output[..] == Zeros(output.Length)
  {
    for i := 0 to output.Length
      invariant forall j :: 0 <= j < i ==> output[j] == 0
    {
      output[i] := 0;
    }
  }

  /** The pad length MD5Final computes is the octet 0x80 and the zeros of section 3.1. */
  lemma PadLength(n: nat, padLen: nat)
    requires padLen == if n % 64 < 56 then 56 - n % 64 else 120 - n % 64
    ensures padLen == 1 + ZeroCount(n) && padLen <= 64 && |PADDING| == 64
    ensures PADDING[..padLen] == [0x80] + Zeros(ZeroCount(n))
  {
  }

  /** The octets of the two counter words are the length octets of section 3.2. */
  lemma LengthFromCounts(lo: u32, hi: u32, n: nat, bits: octets)
    requires Counts(lo, hi, n)
    requires bits == EncodeWords([ToWord(lo), ToWord(hi)][..2])
    ensures bits == LengthOctets(n)
  {
    hide EncodeWord, EncodeWords, ToWord, Counts, Place, ToOctet;
    var q := CountsQuotient(lo, hi, n);
    var ws := [ToWord(lo), ToWord(hi)];
    assert ws[..2] == ws;
    EncodeTwo(ToWord(lo), ToWord(hi));
    ToWordOctets(lo);
    ToWordOctets(hi);
    LengthPlaces(lo, hi, n, q);
  }

  lemma EncodeTwo(u: word, v: word)
    ensures EncodeWords([u, v]) == EncodeWord(u) + EncodeWord(v)
  {
    hide EncodeWord, EncodeWords;
    var ws := [u, v];
    EncodeNone(ws[..0]);
    EncodeNext(ws, 0);
    EncodeNext(ws, 1);
    assert ws[..2] == ws;
  }

  lemma LengthPlaces(lo: u32, hi: u32, n: nat, q: nat)
    requires 8 * n == TWO64 * q + lo + TWO32 * hi
    ensures LengthOctets(n) ==
            [ToOctet(Place(lo, 0)), ToOctet(Place(lo, 1)), ToOctet(Place(lo, 2)), ToOctet(Place(lo, 3))] +
            [ToOctet(Place(hi, 0)), ToOctet(Place(hi, 1)), ToOctet(Place(hi, 2)), ToOctet(Place(hi, 3))]
  {
    hide Place, ToOctet;
    var high := hi + TWO32 * q;
    assert 8 * n == lo + TWO32 * high;
    PlacesLow(lo, high);
    PlacesLow(hi, q);
  }

  lemma ToWordOctets(x: u32)
    ensures EncodeWord(ToWord(x)) ==
            [ToOctet(Place(x, 0)), ToOctet(Place(x, 1)), ToOctet(Place(x, 2)), ToOctet(Place(x, 3))]
  {
    hide EncodeWord, DecodeWord, Place, ToOctet;
    DecodeEncodeWord([ToOctet(Place(x, 0)), ToOctet(Place(x, 1)), ToOctet(Place(x, 2)), ToOctet(Place(x, 3))]);
  }

  /** The digits of a number below 2^32, and above them those of what it is added to. */
  lemma PlacesLow(lo: u32, z: nat)
    ensures var x := lo + TWO32 * z;
            && Place(x, 0) == Place(lo, 0) && Place(x, 1) == Place(lo, 1)
            && Place(x, 2) == Place(lo, 2) && Place(x, 3) == Place(lo, 3)
            && Place(x, 4) == Place(z, 0) && Place(x, 5) == Place(z, 1)
            && Place(x, 6) == Place(z, 2) && Place(x, 7) == Place(z, 3)
  {
    var x := lo + TWO32 * z;
    PlaceShift(x, lo, 0x100_0000 * z);
    PlaceShift(x / 0x100, lo / 0x100, 0x1_0000 * z);
    PlaceShift(x / 0x100 / 0x100, lo / 0x100 / 0x100, 0x100 * z);
    PlaceShift(x / 0x100 / 0x100 / 0x100, lo / 0x100 / 0x100 / 0x100, z);
  }

  lemma PlaceShift(x: nat, lo: nat, z: nat)
    requires x == lo + 0x100 * z
    ensures x / 0x100 == lo / 0x100 + z && Place(x, 0) == Place(lo, 0)
    ensures forall i: nat :: 0 < i ==>
              Place(x, i) == Place(x / 0x100, i - 1) && Place(lo, i) == Place(lo / 0x100, i - 1)
  {
  }

  lemma PaddedParts(m: octets, fed: octets)
    requires fed == m + ([0x80] + Zeros(ZeroCount(|m|))) + LengthOctets(|m|)
    ensures fed == Padded(m) && |fed| % 64 == 0 && fed[..Full(|fed|)] == fed
  {
    hide ZeroCount, LengthOctets;
    PaddedLength(m);
    assert m + ([0x80] + Zeros(ZeroCount(|m|))) == m + [0x80] + Zeros(ZeroCount(|m|));
  }

  /** MD5Int: the digest of one buffer. */
  method MD5Int(src: octets) returns (md: array<octet>)
    requires |src| + 63 < TWO32
    ensures fresh(md) && md.Length == 16 && md[..] == Digest(src)
  {
    hide Digest;
    var ctx := new Context();
    ctx.Update(src);
    assert [] + src == src;
    md := new octet[16];
    ctx.Final(md);
    assert md[..16] == md[..];
  }

  /** Streaming: however a message is split into successive updates, the digest is that of
      the whole message as RFC 1321 defines it. */
  method DigestOfPieces(pieces: seq<octets>) returns (d: octets)
    requires forall i :: 0 <= i < |pieces| ==> |pieces[i]| + 63 < TWO32
    ensures d == Digest(Flatten(pieces))
  {
    hide Digest;
    var ctx := new Context();
    for i := 0 to |pieces|
      invariant fresh(ctx) && fresh(ctx.buffer) && ctx.Valid()
      invariant ctx.fed == Flatten(pieces[..i])
    {
      FlattenConcat(pieces[..i], [pieces[i]]);
      assert pieces[..i + 1] == pieces[..i] + [pieces[i]];
      ctx.Update(pieces[i]);
    }
    assert pieces[..|pieces|] == pieces;
    var md := new octet[16];
    ctx.Final(md);
    d := md[..16];
  }

  /** Eight digits tell numbers below 2^64 apart. */
  lemma {:induction false} PlacesInjective(x: nat, y: nat, size: nat, k: nat)
    requires x < size && y < size && size == Power(k)
    requires forall i: nat :: i < k ==> Place(x, i) == Place(y, i)
    ensures x == y
  {
    if k > 0 {
      forall i: nat | i < k - 1 ensures Place(x / 0x100, i) == Place(y / 0x100, i) {
        assert Place(x, i + 1) == Place(y, i + 1);
      }
      PlacesInjective(x / 0x100, y / 0x100, size / 0x100, k - 1);
      assert Place(x, 0) == Place(y, 0);
    }
  }

  function Power(k: nat): nat {
    if k == 0 then 1 else 0x100 * Power(k - 1)
  }

  /** Each length octet is a digit, to the base 256, of the length in bits. */
  lemma LengthAt(n: nat, i: nat)
    requires i < 8
    ensures Value(LengthOctets(n)[i]) == Place(8 * n, i)
  {
    hide Place, ToOctet;
    OctetValue(Place(8 * n, i));
  }

  lemma LengthInjective(m: nat, n: nat)
    requires 8 * m < TWO64 && 8 * n < TWO64 && LengthOctets(m) == LengthOctets(n)
    ensures m == n
  {
    hide Place, ToOctet, LengthOctets, Value;
    assert Power(4) == TWO32;
    assert Power(8) == TWO64;
    forall i: nat | i < 8 ensures Place(8 * m, i) == Place(8 * n, i) {
      LengthAt(m, i);
      LengthAt(n, i);
    }
    PlacesInjective(8 * m, 8 * n, TWO64, 8);
  }

  /** The padded form tells the message apart from every other message under 2^61 octets. */
  lemma PaddedInjective(m: octets, n: octets)
    requires |m| < TWO64 / 8 && |n| < TWO64 / 8
    requires Padded(m) == Padded(n)
    ensures m == n
  {
    hide LengthOctets, ZeroCount;
    var p := Padded(m);
    assert p[|p| - 8..] == LengthOctets(|m|);
    assert Padded(n)[|Padded(n)| - 8..] == LengthOctets(|n|);
    LengthInjective(|m|, |n|);
    assert p[..|m|] == m && Padded(n)[..|n|] == n;
  }
}
