/** The records of a fibre-section message, and their converters. */
module Fiber {
  import opened Bytes
  import opened Convert

  const FIBER_HDR: Layout := [Text(20), Word32]
  const FIBER_VAL: Layout :=
    [Word32, Word32, Text(64), Text(64), Word32, Text(64), Word32, Text(64), Word32, Word32, Word32, Word32]
  const OTDR_PARAM: Layout := [Text(20), Word32, Word32, Word32, Word32, Word32, Word32, Word32]
  const TEST_RESULT: Layout := [Text(20), Word32, Word32, Word32, Text(20)]
  const DATA_HDR: Layout := [Text(12), Word32]
  const DATA_VAL: Layout := [Word16]
  const EVENT_HDR: Layout := [Text(12), Word32]
  const EVENT_VAL: Layout := [Word32, Word32, Word32, Word32, Word32, Word32]

  /** Field offsets and sizeof of struct tms_fibersection_val. */
  lemma FiberValSize()
    ensures Offset(FIBER_VAL, 0) == 0 && Offset(FIBER_VAL, 1) == 4 && Offset(FIBER_VAL, 2) == 8
    ensures Offset(FIBER_VAL, 3) == 72 && Offset(FIBER_VAL, 4) == 136 && Offset(FIBER_VAL, 5) == 140
    ensures Offset(FIBER_VAL, 6) == 204 && Offset(FIBER_VAL, 7) == 208 && Offset(FIBER_VAL, 8) == 272
    ensures Offset(FIBER_VAL, 9) == 276 && Offset(FIBER_VAL, 10) == 280 && Offset(FIBER_VAL, 11) == 284
    ensures Size(FIBER_VAL) == 288
  {
    hide Size, Offset;
    OffsetZero(FIBER_VAL);
    forall k: nat | k < 12 ensures Offset(FIBER_VAL, k + 1) == Offset(FIBER_VAL, k) + FIBER_VAL[k].Size() {
      OffsetNext(FIBER_VAL, k);
    }
    SizeIsOffset(FIBER_VAL);
  }

  /** The sizeof of the other records. */
  lemma RecordSizes()
    ensures Size(FIBER_HDR) == 24 && Size(OTDR_PARAM) == 48 && Size(TEST_RESULT) == 52
    ensures Size(DATA_HDR) == 16 && Size(DATA_VAL) == 2
    ensures Size(EVENT_HDR) == 16 && Size(EVENT_VAL) == 24
  {
    assert Size(OTDR_PARAM[4..]) == 16 && Size(EVENT_VAL[2..]) == 16;
  }

  lemma FiberRecordsSize(n: nat)
    ensures Size(Repeat(FIBER_VAL, n)) == 288 * n
  {
    hide Size, Offset;
    FiberValSize();
    SizeRepeat(FIBER_VAL, 288, n);
  }

  /** How often `for (int i = 0; i < loop; i++)` runs when `loop` is set from this count. */
  function Loops(count: u32): nat {
    if count <= INT_MAX then count else 0
  }

  /** tms_OTDRConv_tms_fibersection_hdr, and the two other headers, which have the same
      shape: a name and a count. */
  method ConvHeader(mem: array<byte>, hdr: nat, name: nat)
    requires hdr + name + 4 <= mem.Length
    modifies mem
    ensures Converted(mem, old(mem[..]), hdr, [Text(name), Word32])
  {
    hide Converted, Size;
    ghost var s := mem[..];
    NoSize();
    StartConverted(mem, hdr);
    ghost var done := KeepNext(mem, name, s, hdr, []);
    done := SwapNext(mem, hdr + name, s, hdr, done);
    assert done == [Text(name), Word32];
  }

  /** One record of tms_OTDRConv_tms_fibersection_val. */
  method ConvFiberRecord(mem: array<byte>, at: nat, ghost s: bytes, ghost off: nat, ghost done: Layout)
    returns (ghost next: Layout)
    requires Converted(mem, s, off, done)
    requires at == off + Size(done) && at + 288 <= mem.Length
    modifies mem
    ensures next == done + FIBER_VAL && Size(next) == Size(done) + 288
    ensures Converted(mem, s, off, next)
  {
    hide Converted, Size;
    next := SwapNext(mem, at, s, off, done);
    next := SwapNext(mem, at + 4, s, off, next);
    next := KeepNext(mem, 64, s, off, next);
    next := KeepNext(mem, 64, s, off, next);
    next := SwapNext(mem, at + 136, s, off, next);
    next := KeepNext(mem, 64, s, off, next);
    next := SwapNext(mem, at + 204, s, off, next);
    next := KeepNext(mem, 64, s, off, next);
    next := SwapNext(mem, at + 272, s, off, next);
    next := SwapNext(mem, at + 276, s, off, next);
    next := SwapNext(mem, at + 280, s, off, next);
    next := SwapNext(mem, at + 284, s, off, next);
    assert next == done + FIBER_VAL;
  }

  /** tms_OTDRConv_tms_fibersection_val: as many records as the header at `hdr` says. */
  method ConvFiberRecords(mem: array<byte>, val: nat, hdr: nat)
    requires hdr + 24 <= mem.Length && val + 288 * Loops(HostWord(mem[..], hdr + 20)) <= mem.Length
    modifies mem
    ensures Converted(mem, old(mem[..]), val, Repeat(FIBER_VAL, Loops(HostWord(old(mem[..]), hdr + 20))))
  {
    hide Converted, Size, HostWord, Loops;
    ghost var s := mem[..];
    var loop := Loops(HostWord(mem[..], hdr + 20));
    NoSize();
    StartConverted(mem, val);
    ghost var done: Layout := [];
    for i := 0 to loop
      invariant done == Repeat(FIBER_VAL, i) && Size(done) == 288 * i
      invariant Converted(mem, s, val, done)
    {
      done := ConvFiberRecord(mem, val + 288 * i, s, val, done);
    }
  }

  /** tms_OTDRConv_tms_hebei2_data_val: as many samples as the header at `hdr` says. */
  method ConvSamples(mem: array<byte>, val: nat, hdr: nat)
    requires hdr + 16 <= mem.Length && val + 2 * Loops(HostWord(mem[..], hdr + 12)) <= mem.Length
    modifies mem
    ensures Converted(mem, old(mem[..]), val, Repeat(DATA_VAL, Loops(HostWord(old(mem[..]), hdr + 12))))
  {
    hide Converted, Size, HostWord, Loops;
    ghost var s := mem[..];
    var loop := Loops(HostWord(mem[..], hdr + 12));
    NoSize();
    StartConverted(mem, val);
    ghost var done: Layout := [];
    for i := 0 to loop
      invariant done == Repeat(DATA_VAL, i) && Size(done) == 2 * i
      invariant Converted(mem, s, val, done)
    {
      done := SwapNextHalf(mem, val + 2 * i, s, val, done);
    }
  }

  /** How many words tms_OTDRConv_tms_hebei2_event_val converts: the size of the events in
      32-bit arithmetic, in words. */
  function EventLoops(count: u32): nat {
    Wrap(24 * count) / 4
  }

  /** tms_OTDRConv_tms_hebei2_event_val: the words of the events that the header at `hdr` says. */
  method ConvEvents(mem: array<byte>, val: nat, hdr: nat)
    requires hdr + 16 <= mem.Length && val + 4 * EventLoops(HostWord(mem[..], hdr + 12)) <= mem.Length
    modifies mem
    ensures Converted(mem, old(mem[..]), val, Repeat([Word32], EventLoops(HostWord(old(mem[..]), hdr + 12))))
  {
    hide Converted, Size, HostWord, EventLoops;
    ghost var s := mem[..];
    var loop := EventLoops(HostWord(mem[..], hdr + 12));
    NoSize();
    StartConverted(mem, val);
    ghost var done: Layout := [];
    for i := 0 to loop
      invariant done == Repeat([Word32], i) && Size(done) == 4 * i
      invariant Converted(mem, s, val, done)
    {
      done := SwapNext(mem, val + 4 * i, s, val, done);
    }
  }

  /** The loop bounds in numbers. The size of the events wraps around: 178956971 of them have
      the two words that are left of 24 * 178956971 bytes. */
  lemma LoopBounds(count: u32)
    ensures Loops(count) == if count < 0x8000_0000 then count else 0
    ensures 24 * count < 0x1_0000_0000 ==> EventLoops(count) == 6 * count
    ensures 4 * EventLoops(count) == (24 * count) % 0x1_0000_0000
    ensures EventLoops(178956971) == 2
  {
    assert (24 * count) % 0x1_0000_0000 % 4 == 0;
  }

  lemma {:induction false} EventWords(n: nat)
    ensures Repeat(EVENT_VAL, n) == Repeat([Word32], 6 * n)
  {
    if n > 0 {
      EventWords(n - 1);
      var w := [Word32];
      var m := 6 * n - 6;
      assert Repeat(w, m + 2) == Repeat(w, m) + [Word32, Word32];
      assert Repeat(w, m + 4) == Repeat(w, m) + [Word32, Word32, Word32, Word32];
      assert Repeat(w, m + 6) == Repeat(w, m) + EVENT_VAL;
    }
  }

  /** tms_OTDRConv_tms_otdr_param. */
  method ConvParam(mem: array<byte>, at: nat)
    requires at + 48 <= mem.Length
    modifies mem
    ensures Converted(mem, old(mem[..]), at, OTDR_PARAM)
  {
    hide Converted, Size;
    ghost var s := mem[..];
    NoSize();
    StartConverted(mem, at);
    ghost var done := KeepNext(mem, 20, s, at, []);
    done := ConvNx4Byte(mem, at + 20, 48 - 20, s, at, done);
    assert Repeat([Word32], 4) == OTDR_PARAM[4..];
    assert Repeat([Word32], 7) == OTDR_PARAM[1..];
    assert done == OTDR_PARAM;
  }

  /** tms_OTDRConv_tms_test_result. */
  method ConvResult(mem: array<byte>, at: nat)
    requires at + 52 <= mem.Length
    modifies mem
    ensures Converted(mem, old(mem[..]), at, TEST_RESULT)
  {
    hide Converted, Size;
    ghost var s := mem[..];
    NoSize();
    StartConverted(mem, at);
    ghost var done := KeepNext(mem, 20, s, at, []);
    done := ConvNx4Byte(mem, at + 20, 4 * 3, s, at, done);
    done := KeepNext(mem, 20, s, at, done);
    assert Repeat([Word32], 3) == TEST_RESULT[1..4];
    assert done == TEST_RESULT;
  }
}
