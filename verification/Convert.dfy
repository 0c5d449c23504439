/** Converting records between wire and host byte order in place.

    A record layout is a list of fields. Converting a field in the little-endian host's
    memory reverses the bytes of a word or a half and keeps a text, so a conversion is a
    permutation of byte positions. */
module Convert {
  import opened Bytes

  datatype Field = Text(len: nat) | Word32 | Word16 {
    function Size(): nat {
      match this
      case Text(n) => n
      case Word32 => 4
      case Word16 => 2
    }

    /** The byte of the field that byte `j` of its converted form comes from. */
    function From(j: nat): (k: nat)
      requires j < Size()
      ensures k < Size()
    {
      match this
      case Text(_) => j
      case Word32 => 3 - j
      case Word16 => 1 - j
    }
  }

  type Layout = seq<Field>

  function Size(fs: Layout): nat {
    if fs == [] then 0 else fs[0].Size() + Size(fs[1..])
  }

  function Repeat(fs: Layout, n: nat): Layout {
    if n == 0 then [] else Repeat(fs, n - 1) + fs
  }

  /** Where field `k` starts in a region laid out as `fs`. */
  function Offset(fs: Layout, k: nat): (at: nat)
    requires k <= |fs|
    ensures k < |fs| ==> at + fs[k].Size() <= Size(fs)
  {
    if k == 0 then 0 else fs[0].Size() + Offset(fs[1..], k - 1)
  }

  /** The byte of a region laid out as `fs` that byte `i` of its converted form comes from. */
  function Mirror(fs: Layout, i: nat): (k: nat)
    requires i < Size(fs)
    ensures k < Size(fs)
  {
    var n := fs[0].Size();
    if i < n then fs[0].From(i) else n + Mirror(fs[1..], i - n)
  }

  /** The same within memory, where the region starts at `off`. */
  function Perm(off: nat, fs: Layout, i: nat): nat {
    if off <= i < off + Size(fs) then off + Mirror(fs, i - off) else i
  }

  /** Memory `s` after converting the region at `off`. */
  function After(s: bytes, off: nat, fs: Layout): (r: bytes)
    requires off + Size(fs) <= |s|
    ensures |r| == |s|
  {
    seq(|s|, i requires 0 <= i < |s| => s[Perm(off, fs, i)])
  }

  lemma {:induction false} SizeConcat(fs: Layout, gs: Layout)
    ensures Size(fs + gs) == Size(fs) + Size(gs)
  {
    if fs == [] {
      assert fs + gs == gs;
    } else {
      assert (fs + gs)[1..] == fs[1..] + gs;
      SizeConcat(fs[1..], gs);
    }
  }

  /** The size of an array of `n` records of `size` bytes. */
  lemma {:induction false} SizeRepeat(fs: Layout, size: nat, n: nat)
    requires Size(fs) == size
    ensures Size(Repeat(fs, n)) == size * n
  {
    if n > 0 {
      SizeConcat(Repeat(fs, n - 1), fs);
      SizeRepeat(fs, size, n - 1);
      assert size * n == size * (n - 1) + size;
    }
  }

  lemma NoSize()
    ensures Size([]) == 0
  {
  }

  lemma SizeOne(f: Field)
    ensures Size([f]) == f.Size()
  {
    assert [f][1..] == [];
  }

  lemma {:induction false} SizeIsOffset(fs: Layout)
    ensures Size(fs) == Offset(fs, |fs|)
  {
    if fs != [] {
      SizeIsOffset(fs[1..]);
    }
  }

  lemma {:induction false} MirrorConcat(fs: Layout, gs: Layout, i: nat)
    requires i < Size(fs) + Size(gs)
    ensures Size(fs + gs) == Size(fs) + Size(gs)
    ensures Mirror(fs + gs, i) ==
            if i < Size(fs) then Mirror(fs, i) else Size(fs) + Mirror(gs, i - Size(fs))
  {
    SizeConcat(fs, gs);
    if fs == [] {
      assert fs + gs == gs;
    } else {
      assert (fs + gs)[0] == fs[0] && (fs + gs)[1..] == fs[1..] + gs;
      if fs[0].Size() <= i {
        MirrorConcat(fs[1..], gs, i - fs[0].Size());
      }
    }
  }

  lemma {:induction false} MirrorMirror(fs: Layout, i: nat)
    requires i < Size(fs)
    ensures Mirror(fs, Mirror(fs, i)) == i
  {
    if fs[0].Size() <= i {
      MirrorMirror(fs[1..], i - fs[0].Size());
    }
  }

  lemma {:induction false} MirrorField(fs: Layout, k: nat, j: nat)
    requires k < |fs| && j < fs[k].Size()
    ensures Mirror(fs, Offset(fs, k) + j) == Offset(fs, k) + fs[k].From(j)
  {
    if k > 0 {
      MirrorField(fs[1..], k - 1, j);
    }
  }

  /** Converting one region and then the next is converting both. */
  lemma AfterConcat(s: bytes, off: nat, fs: Layout, gs: Layout)
    requires off + Size(fs) + Size(gs) <= |s|
    ensures Size(fs + gs) == Size(fs) + Size(gs)
    ensures After(After(s, off, fs), off + Size(fs), gs) == After(s, off, fs + gs)
  {
    SizeConcat(fs, gs);
    hide Mirror, Size;
    forall i: nat | off <= i < off + Size(fs) + Size(gs)
      ensures Perm(off, fs + gs, i) == Perm(off, fs, Perm(off + Size(fs), gs, i))
    {
      MirrorConcat(fs, gs, i - off);
    }
  }

  /** Passing over a text leaves memory as it is. */
  lemma AfterText(s: bytes, off: nat, fs: Layout, n: nat)
    requires off + Size(fs) + n <= |s|
    ensures Size(fs + [Text(n)]) == Size(fs) + n
    ensures After(s, off, fs + [Text(n)]) == After(s, off, fs)
  {
    SizeOne(Text(n));
    AfterConcat(s, off, fs, [Text(n)]);
    assert forall i: nat :: i < n ==> Mirror([Text(n)], i) == i;
  }

  /** Converting memory twice, in whatever layout, restores it. */
  lemma AfterInvolution(s: bytes, off: nat, fs: Layout)
    requires off + Size(fs) <= |s|
    ensures After(After(s, off, fs), off, fs) == s
  {
    hide Mirror, Size;
    var r := After(After(s, off, fs), off, fs);
    forall i | 0 <= i < |s| ensures r[i] == s[i] {
      if off <= i < off + Size(fs) {
        MirrorMirror(fs, i - off);
      }
    }
  }

  /** What one converted field holds: a word or a half reads as its wire value, a text is unchanged. */
  predicate FieldConverted(f: Field, before: bytes, after: bytes, at: nat) {
    && |after| == |before|
    && at + f.Size() <= |before|
    && match f
       case Text(n) => after[at..at + n] == before[at..at + n]
       case Word32 => HostWord(after, at) == WireWord(before, at)
       case Word16 => HostHalf(after, at) == WireHalf(before, at)
  }

  /** After a conversion every field of the layout, wherever it lies, reads in host order. */
  lemma AfterFields(s: bytes, off: nat, fs: Layout, k: nat)
    requires off + Size(fs) <= |s| && k < |fs|
    ensures FieldConverted(fs[k], s, After(s, off, fs), off + Offset(fs, k))
  {
    hide Mirror, Size, Offset, FieldConverted, Field.From;
    var r, f, at := After(s, off, fs), fs[k], off + Offset(fs, k);
    forall j: nat | j < f.Size() ensures r[at + j] == s[at + f.From(j)] {
      MirrorField(fs, k, j);
      assert Perm(off, fs, at + j) == at + f.From(j);
    }
    FieldReads(f, s, r, at);
  }

  lemma OffsetZero(fs: Layout)
    ensures Offset(fs, 0) == 0
  {
  }

  lemma {:induction false} OffsetNext(fs: Layout, k: nat)
    requires k < |fs|
    ensures Offset(fs, k + 1) == Offset(fs, k) + fs[k].Size()
  {
    if k > 0 {
      OffsetNext(fs[1..], k - 1);
    }
  }

  lemma {:induction false} OffsetConcat(fs: Layout, gs: Layout, k: nat)
    requires k <= |gs|
    ensures Offset(fs + gs, |fs| + k) == Size(fs) + Offset(gs, k)
  {
    if fs == [] {
      assert fs + gs == gs;
    } else {
      assert (fs + gs)[1..] == fs[1..] + gs;
      OffsetConcat(fs[1..], gs, k);
    }
  }

  /** The same for a field of one part of a larger layout. */
  lemma AfterPart(s: bytes, off: nat, pre: Layout, part: Layout, post: Layout, j: nat)
    requires off + Size(pre + part + post) <= |s| && j < |part|
    ensures FieldConverted(part[j], s, After(s, off, pre + part + post), off + Size(pre) + Offset(part, j))
  {
    hide Size, Offset, After, FieldConverted;
    AfterFields(s, off, pre + part + post, |pre| + j);
    assert pre + part + post == pre + (part + post);
    OffsetConcat(pre, part + post, j);
    OffsetPrefix(part, post, j);
  }

  lemma {:induction false} OffsetPrefix(fs: Layout, gs: Layout, k: nat)
    requires k <= |fs|
    ensures Offset(fs + gs, k) == Offset(fs, k)
  {
    if k > 0 {
      assert (fs + gs)[1..] == fs[1..] + gs;
      OffsetPrefix(fs[1..], gs, k - 1);
    }
  }

  lemma {:induction false} RepeatSplit(fs: Layout, n: nat, i: nat)
    requires i < n
    ensures Repeat(fs, n) == Repeat(fs, i) + fs + Repeat(fs, n - 1 - i)
  {
    if i == n - 1 {
      assert Repeat(fs, i) + fs + [] == Repeat(fs, i) + fs;
    } else {
      RepeatSplit(fs, n - 1, i);
      assert Repeat(fs, i) + fs + (Repeat(fs, n - 2 - i) + fs) == Repeat(fs, i) + fs + Repeat(fs, n - 2 - i) + fs;
    }
  }

  lemma AfterFirst(s: bytes, off: nat, part: Layout, post: Layout, j: nat)
    requires off + Size(part + post) <= |s| && j < |part|
    ensures FieldConverted(part[j], s, After(s, off, part + post), off + Offset(part, j))
  {
    hide Size, Offset, After, FieldConverted;
    AfterFields(s, off, part + post, j);
    OffsetPrefix(part, post, j);
  }

  /** The same for a field of one record of an array inside a larger layout. */
  lemma AfterRecord(s: bytes, off: nat, pre: Layout, fs: Layout, size: nat, n: nat, post: Layout, i: nat, j: nat)
    requires Size(fs) == size && i < n && j < |fs|
    requires off + Size(pre + Repeat(fs, n) + post) <= |s|
    ensures FieldConverted(fs[j], s, After(s, off, pre + Repeat(fs, n) + post),
                           off + Size(pre) + size * i + Offset(fs, j))
  {
    hide Size, Offset, After, FieldConverted, Repeat;
    RepeatSplit(fs, n, i);
    var a, b := Repeat(fs, i), Repeat(fs, n - 1 - i);
    assert pre + (a + fs + b) + post == (pre + a) + fs + (b + post);
    AfterPart(s, off, pre + a, fs, b + post, j);
    SizeConcat(pre, a);
    SizeRepeat(fs, size, i);
  }

  /** No byte outside the region changes. */
  lemma AfterOutside(s: bytes, off: nat, fs: Layout)
    requires off + Size(fs) <= |s|
    ensures After(s, off, fs)[..off] == s[..off]
    ensures After(s, off, fs)[off + Size(fs)..] == s[off + Size(fs)..]
  {
    hide Size, Mirror;
  }

  /** The field and the byte of it at place `i` of a region. */
  lemma {:induction false} FieldAt(fs: Layout, i: nat) returns (k: nat, j: nat)
    requires i < Size(fs)
    ensures k < |fs| && j < fs[k].Size() && i == Offset(fs, k) + j
  {
    var n := fs[0].Size();
    if i < n {
      k, j := 0, i;
    } else {
      k, j := FieldAt(fs[1..], i - n);
      k := k + 1;
    }
  }

  /** The bytes of a field at `at` that lie at `n` or behind are those that its conversion puts there. */
  predicate SameBehind(f: Field, s: bytes, at: nat, n: nat)
    requires at + f.Size() <= |s|
  {
    forall j: nat :: j < f.Size() && n <= at + j ==> s[at + f.From(j)] == s[at + j]
  }

  lemma AfterByte(s: bytes, off: nat, fs: Layout, k: nat, j: nat)
    requires off + Size(fs) <= |s| && k < |fs| && j < fs[k].Size()
    ensures off + Offset(fs, k) + fs[k].Size() <= |s|
    ensures After(s, off, fs)[off + Offset(fs, k) + j] == s[off + Offset(fs, k) + fs[k].From(j)]
  {
    hide Mirror, Size, Offset, Field.From, Field.Size;
    MirrorField(fs, k, j);
    assert Perm(off, fs, off + Offset(fs, k) + j) == off + Offset(fs, k) + fs[k].From(j);
  }

  lemma KeptSame(s: bytes, off: nat, fs: Layout, n: nat, k: nat)
    requires off + Size(fs) <= |s| && n <= |s| && k < |fs| && After(s, off, fs)[n..] == s[n..]
    ensures SameBehind(fs[k], s, off + Offset(fs, k), n)
  {
    hide After, Size, Offset, Field.From, Field.Size;
    forall j: nat | j < fs[k].Size() && n <= off + Offset(fs, k) + j
      ensures s[off + Offset(fs, k) + fs[k].From(j)] == s[off + Offset(fs, k) + j]
    {
      var i := off + Offset(fs, k) + j;
      AfterByte(s, off, fs, k, j);
      assert After(s, off, fs)[n..][i - n] == s[n..][i - n];
    }
  }

  lemma SameKept(s: bytes, off: nat, fs: Layout, n: nat, i: nat)
    requires off + Size(fs) <= |s| && n <= i < |s|
    requires forall k: nat :: k < |fs| ==> SameBehind(fs[k], s, off + Offset(fs, k), n)
    ensures After(s, off, fs)[i] == s[i]
  {
    hide Mirror, Size, Offset, Field.From, Field.Size;
    if off <= i < off + Size(fs) {
      var k, j := FieldAt(fs, i - off);
      AfterByte(s, off, fs, k, j);
      assert SameBehind(fs[k], s, off + Offset(fs, k), n) && i == off + Offset(fs, k) + j;
      assert s[off + Offset(fs, k) + fs[k].From(j)] == s[off + Offset(fs, k) + j];
    }
  }

  /** A conversion leaves everything at `n` and behind alone exactly when each field lies in
      front of `n` or is the same backwards as far as it does not. */
  lemma BehindKept(s: bytes, off: nat, fs: Layout, n: nat)
    requires off + Size(fs) <= |s| && n <= |s|
    ensures After(s, off, fs)[n..] == s[n..] <==>
            forall k: nat :: k < |fs| ==> SameBehind(fs[k], s, off + Offset(fs, k), n)
  {
    hide After, Size, Offset, SameBehind;
    if After(s, off, fs)[n..] == s[n..] {
      forall k: nat | k < |fs| ensures SameBehind(fs[k], s, off + Offset(fs, k), n) {
        KeptSame(s, off, fs, n, k);
      }
    }
    if forall k: nat :: k < |fs| ==> SameBehind(fs[k], s, off + Offset(fs, k), n) {
      forall i | n <= i < |s| ensures After(s, off, fs)[i] == s[i] {
        SameKept(s, off, fs, n, i);
      }
    }
  }

  lemma FieldReads(f: Field, before: bytes, after: bytes, at: nat)
    requires |after| == |before| && at + f.Size() <= |before|
    requires forall j: nat :: j < f.Size() ==> after[at + j] == before[at + f.From(j)]
    ensures FieldConverted(f, before, after, at)
  {
    match f {
      case Text(n) =>
        forall i | at <= i < at + n ensures after[i] == before[i] {
          assert after[at + (i - at)] == before[at + f.From(i - at)];
        }
      case Word32 =>
        assert after[at + 0] == before[at + f.From(0)] && after[at + 1] == before[at + f.From(1)];
        assert after[at + 2] == before[at + f.From(2)] && after[at + 3] == before[at + f.From(3)];
      case Word16 =>
        assert after[at + 0] == before[at + f.From(0)] && after[at + 1] == before[at + f.From(1)];
    }
  }

  /** `*p = htonl(*p)`: the word at `off` in place. */
  method SwapWord(mem: array<byte>, off: nat)
    requires off + 4 <= mem.Length
    modifies mem
    ensures Size([Word32]) == 4
    ensures mem[..] == After(old(mem[..]), off, [Word32])
  {
    var w := HostWord(mem[..], off);
    WordDigits(mem[off + 3], mem[off + 2], mem[off + 1], mem[off]);
    HtonlBytes(w);
    var b := HostBytes(Htonl(w));
    mem[off], mem[off + 1], mem[off + 2], mem[off + 3] := b[0], b[1], b[2], b[3];
    hide HostBytes, Htonl, HostWord;
    assert forall j: nat :: j < 4 ==> Mirror([Word32], j) == 3 - j;
  }

  /** `*p = htons(*p)`: the half-word at `off` in place. */
  method SwapHalf(mem: array<byte>, off: nat)
    requires off + 2 <= mem.Length
    modifies mem
    ensures Size([Word16]) == 2
    ensures mem[..] == After(old(mem[..]), off, [Word16])
  {
    var w := HostHalf(mem[..], off);
    Digit(mem[off + 1], mem[off]);
    HtonsBytes(w);
    var b := HostBytes16(Htons(w));
    mem[off], mem[off + 1] := b[0], b[1];
    hide HostBytes16, Htons, HostHalf;
    assert forall j: nat :: j < 2 ==> Mirror([Word16], j) == 1 - j;
  }

  lemma AfterNothing(s: bytes, off: nat)
    requires off <= |s|
    ensures After(s, off, []) == s
  {
  }

  /** Memory is `s` with the region at `off` converted as far as `done` goes. */
  ghost predicate Converted(mem: array<byte>, s: bytes, off: nat, done: Layout)
    reads mem
  {
    off + Size(done) <= |s| && mem[..] == After(s, off, done)
  }

  lemma StartConverted(mem: array<byte>, off: nat)
    requires off <= mem.Length
    ensures Converted(mem, mem[..], off, [])
  {
    AfterNothing(mem[..], off);
  }

  lemma ConvertedIs(mem: array<byte>, s: bytes, off: nat, done: Layout)
    requires Converted(mem, s, off, done)
    ensures off + Size(done) <= |s| && mem[..] == After(s, off, done)
  {
  }

  /** The word after the part already converted. */
  method SwapNext(mem: array<byte>, at: nat, ghost s: bytes, ghost off: nat, ghost done: Layout)
    returns (ghost next: Layout)
    requires Converted(mem, s, off, done)
    requires at == off + Size(done) && at + 4 <= mem.Length
    modifies mem
    ensures next == done + [Word32] && Size(next) == Size(done) + 4
    ensures Converted(mem, s, off, next)
  {
    hide Size, After;
    SizeOne(Word32);
    AfterConcat(s, off, done, [Word32]);
    next := done + [Word32];
    SwapWord(mem, at);
  }

  /** The half-word after the part already converted. */
  method SwapNextHalf(mem: array<byte>, at: nat, ghost s: bytes, ghost off: nat, ghost done: Layout)
    returns (ghost next: Layout)
    requires Converted(mem, s, off, done)
    requires at == off + Size(done) && at + 2 <= mem.Length
    modifies mem
    ensures next == done + [Word16] && Size(next) == Size(done) + 2
    ensures Converted(mem, s, off, next)
  {
    hide Size, After;
    SizeOne(Word16);
    AfterConcat(s, off, done, [Word16]);
    next := done + [Word16];
    SwapHalf(mem, at);
  }

  /** A text after the part already converted. */
  lemma KeepNext(mem: array<byte>, n: nat, s: bytes, off: nat, done: Layout) returns (next: Layout)
    requires Converted(mem, s, off, done)
    requires off + Size(done) + n <= mem.Length
    ensures next == done + [Text(n)] && Size(next) == Size(done) + n
    ensures Converted(mem, s, off, next)
  {
    AfterText(s, off, done, n);
    next := done + [Text(n)];
  }

  /** tms_Conv_Nx4Byte, in place: `count >> 2` words. */
  method ConvNx4Byte(mem: array<byte>, at: nat, count: nat, ghost s: bytes, ghost off: nat, ghost done: Layout)
    returns (ghost next: Layout)
    requires Converted(mem, s, off, done)
    requires at == off + Size(done) && at + count <= mem.Length
    modifies mem
    ensures next == done + Repeat([Word32], count / 4) && Size(next) == Size(done) + 4 * (count / 4)
    ensures Converted(mem, s, off, next)
  {
    hide Converted, Size;
    var loop := count / 4;
    next := done;
    for i := 0 to loop
      invariant next == done + Repeat([Word32], i) && Size(next) == Size(done) + 4 * i
      invariant Converted(mem, s, off, next)
    {
      next := SwapNext(mem, at + 4 * i, s, off, next);
    }
  }
}
