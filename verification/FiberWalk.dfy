/** tms_AnalyseFiberSectionCfg: eight sections located by three embedded counts and
    converted in place, on a target with 32-bit addresses. */
module FiberWalk {
  import opened Bytes
  import opened Convert
  import opened Fiber
  import opened Glink

  /** The three counts embedded in a message. */
  datatype Counts = Counts(fiber: nat, samples: nat, events: nat) {
    // The sections in the order they are sent, up to each of them, and all.
    function BeforeParam(): Layout { FIBER_HDR + Repeat(FIBER_VAL, fiber) }
    function BeforeResult(): Layout { BeforeParam() + OTDR_PARAM }
    function BeforeOtdrHdr(): Layout { BeforeResult() + TEST_RESULT }
    function BeforeSamples(): Layout { BeforeOtdrHdr() + DATA_HDR }
    function BeforeEventHdr(): Layout { BeforeSamples() + Repeat(DATA_VAL, samples) }
    function BeforeEvents(): Layout { BeforeEventHdr() + EVENT_HDR }
    function Message(): Layout { BeforeEvents() + Repeat(EVENT_VAL, events) }

    // Where the C pointers point.
    function FiberVal(): nat { GLINK_OFFSET_DATA + 24 }
    function OtdrParam(): nat { FiberVal() + 288 * fiber }
    function TestResult(): nat { OtdrParam() + 48 }
    function OtdrHdr(): nat { TestResult() + 52 }
    function OtdrVal(): nat { OtdrHdr() + 16 }
    function EventHdr(): nat { OtdrVal() + 2 * samples }
    function EventVal(): nat { EventHdr() + 16 }
    function End(): nat { EventVal() + 24 * events }
  }

  // Pointers into memory are offsets from `pdata`, whose address is `base`. Their arithmetic
  // is that of the 32-bit target, where size_t, too, has 32 bits.

  /** The memory from `base` on does not wrap around, and is not on the first page. */
  predicate Addressable(base: nat, size: nat) {
    288 <= base && base + size < 0x1_0000_0000
  }

  /** CHECK_PTR: the address of the last record against the last address it may have. */
  predicate CheckPtr(base: nat, ptr: nat, sizeA: nat, sizeB: nat, count: u32, end: nat) {
    Wrap(base + ptr + sizeA + sizeB * Int32(count - 1)) <= Wrap(base + end - sizeB)
  }

  /** The address of the last record, if addresses did not wrap. */
  function LastRecord(base: nat, ptr: nat, sizeA: nat, sizeB: nat, count: u32): int {
    base + ptr + sizeA + sizeB * (count - 1)
  }

  lemma WrapWhole(n: int, k: int)
    ensures Wrap(n + k * 0x1_0000_0000) == Wrap(n)
  {
  }

  lemma TimesLess(size: nat, n: int, w: int)
    ensures size * (n - w) == size * n - size * w
  {
  }

  /** The int32_t cast makes no difference to the guard. */
  lemma CastWraps(base: nat, ptr: nat, sizeA: nat, sizeB: nat, count: u32)
    ensures Wrap(base + ptr + sizeA + sizeB * Int32(count - 1)) == Wrap(LastRecord(base, ptr, sizeA, sizeB, count))
  {
    if Int32(count - 1) != count - 1 {
      var w := if count == 0 then 0 else 0x1_0000_0000;
      assert Int32(count - 1) == count - 1 - w;
      TimesLess(sizeB, count - 1, w);
      WrapWhole(LastRecord(base, ptr, sizeA, sizeB, count), if count == 0 then 0 else 0 - sizeB);
    }
  }

  /** The guard is right about the records exactly when the address of the last one does not
      wrap around, or wraps to an address behind the last one it may have. It never rejects
      records that fit. */
  lemma CheckPtrExact(base: nat, ptr: nat, sizeA: nat, sizeB: nat, count: u32, end: nat)
    requires 0 < sizeB <= base && base + end < 0x1_0000_0000
    ensures var fits := ptr + sizeA + sizeB * count <= end;
            var last := LastRecord(base, ptr, sizeA, sizeB, count);
            && ((CheckPtr(base, ptr, sizeA, sizeB, count, end) <==> fits) <==>
                (last < 0x1_0000_0000 || base + end - sizeB < last % 0x1_0000_0000))
            && (fits ==> CheckPtr(base, ptr, sizeA, sizeB, count, end))
  {
    CastWraps(base, ptr, sizeA, sizeB, count);
    TimesLess(sizeB, count, 1);
    var last := LastRecord(base, ptr, sizeA, sizeB, count);
    assert 0 <= sizeB * count;
    assert 0 <= last;
  }

  /** A count whose product with the record size wraps: the guard lets it pass at every
      address and for every frame of 380 bytes or more, though no frame can hold the records. */
  lemma GuardWraps(base: nat, end: nat)
    requires Addressable(base, end) && 380 <= end <= INT_MAX
    ensures CheckPtr(base, GLINK_OFFSET_DATA, 24, 288, 14913082, end)
    ensures INT_MAX < GLINK_OFFSET_DATA + 24 + 288 * 14913082
  {
  }

  /** How the walk ends: a guard rejects the message, or it looks for a header that does not
      lie in memory, or the guards let the message pass with the counts it has found. */
  datatype Walk = Rejected | Strayed | Accepted(counts: Counts)

  function Locate(base: nat, s: bytes, len: nat): Walk {
    if |s| < GLINK_OFFSET_DATA + 24 then Strayed
    else
      var c := Counts(WireWord(s, GLINK_OFFSET_DATA + 20), 0, 0);
      if !CheckPtr(base, GLINK_OFFSET_DATA, 24, 288, c.fiber, len) then Rejected
      else if |s| < Wrap(c.OtdrHdr()) + 16 then Strayed
      else
        var d := c.(samples := WireWord(s, Wrap(c.OtdrHdr()) + 12));
        if |s| < Wrap(d.EventHdr()) + 16 then Strayed
        else
          var e := d.(events := WireWord(s, Wrap(d.EventHdr()) + 12));
          if CheckPtr(base, Wrap(e.EventHdr()), 16, 24, e.events, len) then Accepted(e) else Rejected
  }

  /** How the walk ends, in numbers: the first guard is on the count at 56, the second one on
      the count of the event header, to which the two counts before it lead. */
  lemma WalkEnds(base: nat, s: bytes, len: nat)
    requires Addressable(base, |s|) && len <= |s|
    ensures |s| < 60 ==> Locate(base, s, len) == Strayed
    ensures 60 <= |s| ==>
              var f: int := WireWord(s, 56);
              var o := (160 + 288 * f) % 0x1_0000_0000;
              && (base + len - 288 < (base + 60 + 288 * (f - 1)) % 0x1_0000_0000 ==> Locate(base, s, len) == Rejected)
              && ((base + 60 + 288 * (f - 1)) % 0x1_0000_0000 <= base + len - 288 ==>
                    if |s| < o + 16 then Locate(base, s, len) == Strayed
                    else
                      var n: int := WireWord(s, o + 12);
                      var e := (o + 16 + 2 * n) % 0x1_0000_0000;
                      if |s| < e + 16 then Locate(base, s, len) == Strayed
                      else
                        var k: int := WireWord(s, e + 12);
                        if base + len - 24 < (base + e + 16 + 24 * (k - 1)) % 0x1_0000_0000
                        then Locate(base, s, len) == Rejected
                        else Locate(base, s, len) == Accepted(Counts(f, n, k)))
  {
    hide WireWord, CheckPtr, Wrap;
    if 60 <= |s| {
      var f := WireWord(s, 56);
      var c := Counts(f, 0, 0);
      GuardFails(base, GLINK_OFFSET_DATA, 24, 288, f, len);
      WrapIs(c.OtdrHdr());
      var o := Wrap(c.OtdrHdr());
      if o + 16 <= |s| {
        var n := WireWord(s, o + 12);
        var d := c.(samples := n);
        WrapIs(o + 16 + 2 * (n as int));
        WrapNext(c.OtdrHdr(), 16 + 2 * (n as int));
        var e := Wrap(d.EventHdr());
        if e + 16 <= |s| {
          GuardFails(base, e, 16, 24, WireWord(s, e + 12), len);
        }
      }
    }
  }

  lemma WrapIs(n: int)
    ensures Wrap(n) == n % 0x1_0000_0000
  {
  }

  lemma GuardFails(base: nat, ptr: nat, sizeA: nat, sizeB: nat, count: u32, end: nat)
    requires sizeB <= base && base + end < 0x1_0000_0000
    ensures CheckPtr(base, ptr, sizeA, sizeB, count, end) <==>
            (base + ptr + sizeA + sizeB * (count - 1)) % 0x1_0000_0000 <= base + end - sizeB
  {
    CastWraps(base, ptr, sizeA, sizeB, count);
    hide Int32;
  }

  /** The counts the headers hold, in wire order, and all sections in memory. */
  predicate CountsAt(s: bytes, c: Counts) {
    && c.End() <= |s|
    && c.fiber == WireWord(s, GLINK_OFFSET_DATA + 20)
    && c.samples == WireWord(s, c.OtdrHdr() + 12)
    && c.events == WireWord(s, c.EventHdr() + 12)
  }

  /** A well-formed message: the sections its headers tell of end inside the frame. */
  predicate WellFormed(s: bytes, len: nat, c: Counts) {
    CountsAt(s, c) && c.End() <= len
  }

  /** The walk finds every well-formed message, and what it accepts is well-formed exactly
      when no address of the sections wraps around. */
  lemma LocateExact(base: nat, s: bytes, len: nat, c: Counts)
    requires Addressable(base, |s|) && len <= |s|
    ensures WellFormed(s, len, c) <==> Locate(base, s, len) == Accepted(c) && base + c.End() < 0x1_0000_0000
  {
    hide Locate, WellFormed;
    if WellFormed(s, len, c) {
      AtMost(s, len, c);
      WellFormedAccepted(base, s, len, c);
    }
    if Locate(base, s, len) == Accepted(c) && base + c.End() < 0x1_0000_0000 {
      AcceptedWellFormed(base, s, len, c);
    }
  }

  lemma AcceptedWellFormed(base: nat, s: bytes, len: nat, c: Counts)
    requires Addressable(base, |s|) && len <= |s|
    requires Locate(base, s, len) == Accepted(c) && base + c.End() < 0x1_0000_0000
    ensures WellFormed(s, len, c)
  {
    hide WireWord, CheckPtr;
    CheckPtrExact(base, c.EventHdr(), 16, 24, c.events, len);
  }

  lemma AtMost(s: bytes, len: nat, c: Counts)
    requires WellFormed(s, len, c)
    ensures c.End() <= len
  {
  }

  lemma WellFormedAccepted(base: nat, s: bytes, len: nat, c: Counts)
    requires Addressable(base, |s|) && len <= |s| && WellFormed(s, len, c)
    ensures Locate(base, s, len) == Accepted(c)
  {
    hide WireWord, CheckPtr;
    CheckPtrExact(base, GLINK_OFFSET_DATA, 24, 288, c.fiber, len);
    CheckPtrExact(base, c.EventHdr(), 16, 24, c.events, len);
  }

  /** The pointers cut the data into the eight sections, one after another without gap or overlap. */
  lemma Partition(c: Counts)
    ensures c.FiberVal() == GLINK_OFFSET_DATA + Size(FIBER_HDR)
    ensures c.OtdrParam() == GLINK_OFFSET_DATA + Size(c.BeforeParam())
    ensures c.TestResult() == GLINK_OFFSET_DATA + Size(c.BeforeResult())
    ensures c.OtdrHdr() == GLINK_OFFSET_DATA + Size(c.BeforeOtdrHdr())
    ensures c.OtdrVal() == GLINK_OFFSET_DATA + Size(c.BeforeSamples())
    ensures c.EventHdr() == GLINK_OFFSET_DATA + Size(c.BeforeEventHdr())
    ensures c.EventVal() == GLINK_OFFSET_DATA + Size(c.BeforeEvents())
    ensures c.End() == GLINK_OFFSET_DATA + Size(c.Message())
  {
    hide Size, Repeat, Offset;
    RecordSizes();
    FiberValSize();
    SizeRepeat(FIBER_VAL, 288, c.fiber);
    SizeRepeat(DATA_VAL, 2, c.samples);
    SizeRepeat(EVENT_VAL, 24, c.events);
    SizeConcat(FIBER_HDR, Repeat(FIBER_VAL, c.fiber));
    SizeConcat(c.BeforeParam(), OTDR_PARAM);
    SizeConcat(c.BeforeResult(), TEST_RESULT);
    SizeConcat(c.BeforeOtdrHdr(), DATA_HDR);
    SizeConcat(c.BeforeSamples(), Repeat(DATA_VAL, c.samples));
    SizeConcat(c.BeforeEventHdr(), EVENT_HDR);
    SizeConcat(c.BeforeEvents(), Repeat(EVENT_VAL, c.events));
  }

  // The conversions of tms_AnalyseFiberSectionCfg, one after another, each at the pointer the
  // walk has computed and as often as the header converted just before says.

  /** Memory after some conversions, unless one of them has left it. */
  datatype Run = Lost | Done(mem: bytes)

  ghost function Step(r: Run, at: nat, fs: Layout): Run {
    if r.Done? && at + Size(fs) <= |r.mem| then Done(After(r.mem, at, fs)) else Lost
  }

  /** The count a converted header holds. */
  ghost function CountIn(r: Run, at: nat): u32 {
    if r.Done? && at + 4 <= |r.mem| then HostWord(r.mem, at) else 0
  }

  /** The header and the records of the fibre sections. */
  ghost function Fibers(s: bytes): Run {
    var h := Step(Done(s), GLINK_OFFSET_DATA, FIBER_HDR);
    Step(h, GLINK_OFFSET_DATA + 24, Repeat(FIBER_VAL, Loops(CountIn(h, GLINK_OFFSET_DATA + 20))))
  }

  /** The test parameters and the test result. */
  ghost function Tests(r: Run, c: Counts): Run {
    Step(Step(r, Wrap(c.OtdrParam()), OTDR_PARAM), Wrap(c.TestResult()), TEST_RESULT)
  }

  /** The sample header and the samples. */
  ghost function Curve(r: Run, c: Counts): Run {
    var d := Step(r, Wrap(c.OtdrHdr()), DATA_HDR);
    Step(d, Wrap(c.OtdrVal()), Repeat(DATA_VAL, Loops(CountIn(d, Wrap(c.OtdrHdr()) + 12))))
  }

  /** The event header and the events. */
  ghost function Events(r: Run, c: Counts): Run {
    var e := Step(r, Wrap(c.EventHdr()), EVENT_HDR);
    Step(e, Wrap(c.EventVal()), Repeat([Word32], EventLoops(CountIn(e, Wrap(c.EventHdr()) + 12))))
  }

  ghost function Sections(s: bytes, c: Counts): Run {
    Events(Curve(Tests(Fibers(s), c), c), c)
  }

  // Each method stops where a section does not lie in memory.

  method ConvFibers(mem: array<byte>, fiberVal: nat) returns (ok: bool)
    requires fiberVal == GLINK_OFFSET_DATA + 24 <= mem.Length
    modifies mem
    ensures Fibers(old(mem[..])) == if ok then Done(mem[..]) else Lost
  {
    hide HostWord, Size, After, Repeat, Loops;
    RecordSizes();
    ConvHeader(mem, GLINK_OFFSET_DATA, 20);
    var count := HostWord(mem[..], GLINK_OFFSET_DATA + 20);
    FiberRecordsSize(Loops(count));
    if mem.Length < fiberVal + 288 * Loops(count) {
      return false;
    }
    ConvFiberRecords(mem, fiberVal, GLINK_OFFSET_DATA);
    return true;
  }

  method ConvTests(mem: array<byte>, otdrParam: nat, testResult: nat, ghost c: Counts) returns (ok: bool)
    requires otdrParam == Wrap(c.OtdrParam()) && testResult == Wrap(c.TestResult())
    modifies mem
    ensures Tests(Done(old(mem[..])), c) == if ok then Done(mem[..]) else Lost
  {
    hide Size, After, Wrap;
    RecordSizes();
    if mem.Length < otdrParam + 48 {
      return false;
    }
    ConvParam(mem, otdrParam);
    if mem.Length < testResult + 52 {
      return false;
    }
    ConvResult(mem, testResult);
    return true;
  }

  method ConvCurve(mem: array<byte>, otdrHdr: nat, otdrVal: nat, ghost c: Counts) returns (ok: bool)
    requires otdrHdr == Wrap(c.OtdrHdr()) && otdrVal == Wrap(c.OtdrVal()) && otdrHdr + 16 <= mem.Length
    modifies mem
    ensures Curve(Done(old(mem[..])), c) == if ok then Done(mem[..]) else Lost
  {
    hide HostWord, Size, After, Repeat, Wrap, Loops;
    RecordSizes();
    ConvHeader(mem, otdrHdr, 12);
    var count := HostWord(mem[..], otdrHdr + 12);
    SizeRepeat(DATA_VAL, 2, Loops(count));
    if mem.Length < otdrVal + 2 * Loops(count) {
      return false;
    }
    ConvSamples(mem, otdrVal, otdrHdr);
    return true;
  }

  method ConvEventSection(mem: array<byte>, eventHdr: nat, eventVal: nat, ghost c: Counts) returns (ok: bool)
    requires eventHdr == Wrap(c.EventHdr()) && eventVal == Wrap(c.EventVal()) && eventHdr + 16 <= mem.Length
    modifies mem
    ensures Events(Done(old(mem[..])), c) == if ok then Done(mem[..]) else Lost
  {
    hide HostWord, Size, After, Repeat, Wrap, EventLoops;
    RecordSizes();
    SizeOne(Word32);
    ConvHeader(mem, eventHdr, 12);
    var count := HostWord(mem[..], eventHdr + 12);
    SizeRepeat([Word32], 4, EventLoops(count));
    if mem.Length < eventVal + 4 * EventLoops(count) {
      return false;
    }
    ConvEvents(mem, eventVal, eventHdr);
    return true;
  }

  lemma WrapNext(n: int, m: int)
    ensures Wrap(Wrap(n) + m) == Wrap(n + m)
  {
  }

  lemma WrapPlus(n: int, m: nat)
    requires Wrap(n) + m < 0x1_0000_0000
    ensures Wrap(n + m) == Wrap(n) + m
  {
  }

  /** The pointers and guards of tms_AnalyseFiberSectionCfg. */
  method FindSections(mem: array<byte>, base: nat, len: nat)
    returns (walk: Walk, fiberVal: nat, otdrParam: nat, testResult: nat, otdrHdr: nat,
             otdrVal: nat, eventHdr: nat, eventVal: nat)
    ensures walk == Locate(base, mem[..], len)
    ensures walk.Accepted? ==>
              var c := walk.counts;
              && fiberVal == c.FiberVal() && otdrParam == Wrap(c.OtdrParam()) && testResult == Wrap(c.TestResult())
              && otdrHdr == Wrap(c.OtdrHdr()) && otdrVal == Wrap(c.OtdrVal())
              && eventHdr == Wrap(c.EventHdr()) && eventVal == Wrap(c.EventVal())
              && GLINK_OFFSET_DATA + 24 <= mem.Length && otdrHdr + 16 <= mem.Length && eventHdr + 16 <= mem.Length
  {
    hide WireWord, CheckPtr, Wrap;
    otdrParam, testResult, otdrHdr, otdrVal, eventHdr, eventVal := 0, 0, 0, 0, 0, 0;
    fiberVal := GLINK_OFFSET_DATA + 24;
    if mem.Length < GLINK_OFFSET_DATA + 24 {
      walk := Strayed;
      return;
    }
    var fiberCount: int := WireWord(mem[..], GLINK_OFFSET_DATA + 20);
    if !CheckPtr(base, GLINK_OFFSET_DATA, 24, 288, fiberCount, len) {
      walk := Rejected;
      return;
    }
    otdrParam := Wrap(fiberVal + 288 * fiberCount);
    testResult := Wrap(otdrParam + 48);
    WrapNext(fiberVal + 288 * fiberCount, 48);
    otdrHdr := Wrap(testResult + 52);
    WrapNext(fiberVal + 288 * fiberCount + 48, 52);
    if mem.Length < otdrHdr + 16 {
      walk := Strayed;
      return;
    }
    ghost var c := Counts(fiberCount, 0, 0);
    otdrVal := Wrap(otdrHdr + 16);
    WrapNext(c.OtdrHdr(), 16);
    var samples: int := WireWord(mem[..], otdrHdr + 12);
    eventHdr := Wrap(otdrVal + 2 * samples);
    WrapNext(c.OtdrVal(), 2 * samples);
    c := c.(samples := samples);
    if mem.Length < eventHdr + 16 {
      walk := Strayed;
      return;
    }
    var eventCount := WireWord(mem[..], eventHdr + 12);
    if !CheckPtr(base, eventHdr, 16, 24, eventCount, len) {
      walk := Rejected;
      return;
    }
    eventVal := Wrap(eventHdr + 16);
    WrapNext(c.EventHdr(), 16);
    walk := Accepted(Counts(fiberCount, samples, eventCount));
  }

  /** What a call returns, in numbers alone: -1 with memory as it was exactly when a guard fails
      on the count of a header that lies in memory, nothing when such a header does not. */
  predicate GuardsDecide(base: nat, s: bytes, len: nat, ret: Ret<int>, same: bool) {
    if |s| < 60 then ret == Astray && same
    else
      var f: int := WireWord(s, 56);
      var o := (160 + 288 * f) % 0x1_0000_0000;
      if base + len - 288 < (base + 60 + 288 * (f - 1)) % 0x1_0000_0000 then ret == Ret(-1) && same
      else if |s| < o + 16 then ret == Astray && same
      else
        var e := (o + 16 + 2 * (WireWord(s, o + 12) as int)) % 0x1_0000_0000;
        if |s| < e + 16 then ret == Astray && same
        else if base + len - 24 < (base + e + 16 + 24 * (WireWord(s, e + 12) as int - 1)) % 0x1_0000_0000
        then ret == Ret(-1) && same
        else ret == Ret(0) || ret == Astray
  }

  lemma GuardsDecided(base: nat, s: bytes, len: nat, ret: Ret<int>, same: bool)
    requires Addressable(base, |s|) && len <= |s|
    requires var walk := Locate(base, s, len);
             if walk.Rejected? then ret == Ret(-1) && same
             else if walk.Strayed? then ret == Astray && same
             else ret == Ret(0) || ret == Astray
    ensures GuardsDecide(base, s, len, ret, same)
  {
    hide Locate, WireWord;
    WalkEnds(base, s, len);
  }

  /** tms_AnalyseFiberSectionCfg. */
  method AnalyseFiberSectionCfg(mem: array<byte>, base: nat, len: nat) returns (ret: Ret<int>)
    requires Addressable(base, mem.Length) && len <= mem.Length
    modifies mem
    ensures var s, walk := old(mem[..]), Locate(base, old(mem[..]), len);
            && (walk.Rejected? ==> ret == Ret(-1) && mem[..] == s)
            && (walk.Strayed? ==> ret == Astray && mem[..] == s)
            && (walk.Accepted? ==>
                  if Sections(s, walk.counts).Lost? then ret == Astray
                  else ret == Ret(0) && mem[..] == Sections(s, walk.counts).mem)
    ensures forall c :: WellFormed(old(mem[..]), len, c) ==> ret == Ret(0) && mem[..] == InHostOrder(old(mem[..]), c)
    ensures GuardsDecide(base, old(mem[..]), len, ret, mem[..] == old(mem[..]))
  {
    hide GuardsDecide, Locate, Fibers, Tests, Curve, Events, CountsAt, InHostOrder;
    ghost var s := mem[..];
    var walk, fiberVal, otdrParam, testResult, otdrHdr, otdrVal, eventHdr, eventVal := FindSections(mem, base, len);
    forall c | WellFormed(s, len, c) ensures walk == Accepted(c) && Sections(s, c) == Done(InHostOrder(s, c)) {
      LocateExact(base, s, len, c);
      SectionsWellFormed(s, c);
    }
    if walk.Rejected? {
      GuardsDecided(base, s, len, Ret(-1), true);
      return Ret(-1);
    }
    if walk.Strayed? {
      GuardsDecided(base, s, len, Astray, true);
      return Astray;
    }
    LostStays(walk.counts);
    var ok := ConvFibers(mem, fiberVal);
    if ok {
      ok := ConvTests(mem, otdrParam, testResult, walk.counts);
    }
    if ok {
      ok := ConvCurve(mem, otdrHdr, otdrVal, walk.counts);
    }
    if ok {
      ok := ConvEventSection(mem, eventHdr, eventVal, walk.counts);
    }
    ret := if ok then Ret(0) else Astray;
    GuardsDecided(base, s, len, ret, mem[..] == s);
  }

  lemma LostStays(c: Counts)
    ensures Tests(Lost, c) == Curve(Lost, c) == Events(Lost, c) == Lost
  {
  }

  /** The message `s` in host order. */
  function InHostOrder(s: bytes, c: Counts): (r: bytes)
    requires c.End() <= |s|
    ensures |r| == |s|
  {
    Partition(c);
    After(s, GLINK_OFFSET_DATA, c.Message())
  }

  /** One more section converted behind those converted so far. */
  lemma StepNext(s: bytes, pre: Layout, at: nat, fs: Layout)
    requires at == GLINK_OFFSET_DATA + Size(pre) && at + Size(fs) <= |s|
    ensures Size(pre + fs) == Size(pre) + Size(fs)
    ensures Step(Done(After(s, GLINK_OFFSET_DATA, pre)), at, fs) == Done(After(s, GLINK_OFFSET_DATA, pre + fs))
  {
    hide Size, After;
    AfterConcat(s, GLINK_OFFSET_DATA, pre, fs);
  }

  lemma TwoSteps(s: bytes, pre: Layout, at: nat, fs: Layout, gs: Layout)
    requires at == GLINK_OFFSET_DATA + Size(pre) && at + Size(fs) + Size(gs) <= |s|
    ensures Size(pre + fs) == Size(pre) + Size(fs) && Size(pre + fs + gs) == Size(pre) + Size(fs) + Size(gs)
    ensures Step(Done(After(s, GLINK_OFFSET_DATA, pre)), at, fs) == Done(After(s, GLINK_OFFSET_DATA, pre + fs))
    ensures Step(Done(After(s, GLINK_OFFSET_DATA, pre + fs)), at + Size(fs), gs) ==
            Done(After(s, GLINK_OFFSET_DATA, pre + fs + gs))
  {
    hide Size, After, Step;
    StepNext(s, pre, at, fs);
    StepNext(s, pre + fs, at + Size(fs), gs);
  }

  /** A converted header holds its wire count in host order, which bounds the next loop. */
  lemma HeaderCount(s: bytes, pre: Layout, name: nat, post: Layout)
    requires GLINK_OFFSET_DATA + Size(pre) + name + 4 + Size(post) <= |s|
    ensures Size(pre + [Text(name), Word32] + post) == Size(pre) + name + 4 + Size(post)
    ensures var at := GLINK_OFFSET_DATA + Size(pre) + name;
            HostWord(After(s, GLINK_OFFSET_DATA, pre + [Text(name), Word32] + post), at) == WireWord(s, at)
  {
    hide After, HostWord, WireWord;
    var hdr := [Text(name), Word32];
    assert hdr[1..] == [Word32];
    SizeOne(Word32);
    SizeConcat(pre, hdr);
    SizeConcat(pre + hdr, post);
    AfterPart(s, GLINK_OFFSET_DATA, pre, hdr, post, 1);
  }

  lemma LoopsAll(count: u32)
    requires count <= INT_MAX
    ensures Loops(count) == count
  {
  }

  lemma EventLoopsAll(count: u32)
    requires 24 * count < 0x1_0000_0000
    ensures EventLoops(count) == 6 * count
  {
  }

  lemma FibersFirst(s: bytes, fiber: nat)
    requires GLINK_OFFSET_DATA + 24 + 288 * fiber <= |s| < 0x1_0000_0000
    requires fiber == WireWord(s, GLINK_OFFSET_DATA + 20)
    ensures var fibers := FIBER_HDR + Repeat(FIBER_VAL, fiber);
            && Size(fibers) == 24 + 288 * fiber
            && Fibers(s) == Done(After(s, GLINK_OFFSET_DATA, fibers))
  {
    hide Size, After, HostWord, WireWord, Step, Repeat, Loops;
    LoopsAll(fiber);
    RecordSizes();
    NoSize();
    AfterNothing(s, GLINK_OFFSET_DATA);
    assert [] + FIBER_HDR == FIBER_HDR;
    HeaderCount(s, [], 20, []);
    assert FIBER_HDR + [] == FIBER_HDR;
    FiberRecordsSize(fiber);
    TwoSteps(s, [], GLINK_OFFSET_DATA, FIBER_HDR, Repeat(FIBER_VAL, fiber));
  }

  /** The record loop leaves memory exactly when it counts more records than memory holds. */
  lemma RecordsLeave(s: bytes)
    requires GLINK_OFFSET_DATA + 24 <= |s|
    ensures Fibers(s) == Lost <==>
            |s| < GLINK_OFFSET_DATA + 24 + 288 * Loops(WireWord(s, GLINK_OFFSET_DATA + 20))
  {
    hide Size, After, HostWord, WireWord, Repeat, Loops;
    RecordSizes();
    NoSize();
    AfterNothing(s, GLINK_OFFSET_DATA);
    assert [] + FIBER_HDR == FIBER_HDR && FIBER_HDR + [] == FIBER_HDR;
    HeaderCount(s, [], 20, []);
    FiberRecordsSize(Loops(WireWord(s, GLINK_OFFSET_DATA + 20)));
  }

  lemma TestsFollow(s: bytes, pre: Layout, c: Counts, otdrParam: nat)
    requires GLINK_OFFSET_DATA + Size(pre) == otdrParam == Wrap(c.OtdrParam())
    requires otdrParam + 100 <= |s| < 0x1_0000_0000
    ensures var tests := pre + OTDR_PARAM + TEST_RESULT;
            && Size(tests) == Size(pre) + 100
            && Tests(Done(After(s, GLINK_OFFSET_DATA, pre)), c) == Done(After(s, GLINK_OFFSET_DATA, tests))
  {
    hide Size, After, Step, Wrap;
    WrapPlus(c.OtdrParam(), 48);
    RecordSizes();
    TwoSteps(s, pre, otdrParam, OTDR_PARAM, TEST_RESULT);
  }

  lemma CurveFollows(s: bytes, pre: Layout, c: Counts, otdrHdr: nat)
    requires GLINK_OFFSET_DATA + Size(pre) == otdrHdr == Wrap(c.OtdrHdr())
    requires otdrHdr + 16 + 2 * c.samples <= |s| < 0x1_0000_0000
    requires c.samples == WireWord(s, otdrHdr + 12)
    ensures var curve := pre + DATA_HDR + Repeat(DATA_VAL, c.samples);
            && Size(curve) == Size(pre) + 16 + 2 * c.samples
            && Curve(Done(After(s, GLINK_OFFSET_DATA, pre)), c) == Done(After(s, GLINK_OFFSET_DATA, curve))
  {
    hide Size, After, HostWord, WireWord, Step, Repeat, Wrap, Loops;
    LoopsAll(c.samples);
    WrapPlus(c.OtdrHdr(), 16);
    RecordSizes();
    SizeRepeat(DATA_VAL, 2, c.samples);
    NoSize();
    HeaderCount(s, pre, 12, []);
    assert pre + DATA_HDR + [] == pre + DATA_HDR;
    TwoSteps(s, pre, otdrHdr, DATA_HDR, Repeat(DATA_VAL, c.samples));
  }

  lemma EventsFollow(s: bytes, pre: Layout, c: Counts, eventHdr: nat)
    requires GLINK_OFFSET_DATA + Size(pre) == eventHdr == Wrap(c.EventHdr())
    requires eventHdr + 16 + 24 * c.events <= |s| < 0x1_0000_0000
    requires c.events == WireWord(s, eventHdr + 12)
    ensures var all := pre + EVENT_HDR + Repeat(EVENT_VAL, c.events);
            && Size(all) == Size(pre) + 16 + 24 * c.events
            && Events(Done(After(s, GLINK_OFFSET_DATA, pre)), c) == Done(After(s, GLINK_OFFSET_DATA, all))
  {
    hide Size, After, HostWord, WireWord, Step, Repeat, Wrap, EventLoops;
    EventLoopsAll(c.events);
    WrapPlus(c.EventHdr(), 16);
    RecordSizes();
    SizeRepeat(EVENT_VAL, 24, c.events);
    EventWords(c.events);
    NoSize();
    HeaderCount(s, pre, 12, []);
    assert pre + EVENT_HDR + [] == pre + EVENT_HDR;
    TwoSteps(s, pre, eventHdr, EVENT_HDR, Repeat(EVENT_VAL, c.events));
  }

  /** The conversions of a well-formed message, one after another, convert it as a whole. */
  lemma SectionsWellFormed(s: bytes, c: Counts)
    requires CountsAt(s, c) && |s| < 0x1_0000_0000
    ensures Sections(s, c) == Done(InHostOrder(s, c))
  {
    hide Size, After, WireWord, Fibers, Tests, Curve, Events, Repeat;
    FibersFirst(s, c.fiber);
    TestsFollow(s, c.BeforeParam(), c, c.OtdrParam());
    CurveFollows(s, c.BeforeOtdrHdr(), c, c.OtdrHdr());
    EventsFollow(s, c.BeforeEventHdr(), c, c.EventHdr());
  }

  /** A fibre count with its top bit set passes the guards as the count without that bit
      would, and the walk goes on at the same places. */
  lemma HighCountAccepted(base: nat, s: bytes, len: nat, c: Counts, d: Counts)
    requires Addressable(base, |s|) && len <= |s| && c.End() <= len
    requires d == c.(fiber := c.fiber + 0x8000_0000) && d.fiber == WireWord(s, GLINK_OFFSET_DATA + 20)
    requires c.samples == WireWord(s, c.OtdrHdr() + 12) && c.events == WireWord(s, c.EventHdr() + 12)
    ensures Locate(base, s, len) == Accepted(d)
    ensures Wrap(d.OtdrParam()) == c.OtdrParam() && Wrap(d.OtdrHdr()) == c.OtdrHdr()
    ensures Wrap(d.EventHdr()) == c.EventHdr()
  {
    hide WireWord, CheckPtr, Wrap;
    HighPointers(c, d);
    HighGuard(base, c.fiber, len);
    CheckPtrExact(base, c.EventHdr(), 16, 24, c.events, len);
  }

  lemma HighPointers(c: Counts, d: Counts)
    requires d == c.(fiber := c.fiber + 0x8000_0000) && c.End() < 0x1_0000_0000
    ensures Wrap(d.OtdrParam()) == c.OtdrParam() && Wrap(d.OtdrHdr()) == c.OtdrHdr()
    ensures Wrap(d.EventHdr()) == c.EventHdr()
  {
    assert d.OtdrParam() == c.OtdrParam() + 144 * 0x1_0000_0000;
  }

  lemma HighGuard(base: nat, fiber: nat, len: nat)
    requires Addressable(base, len) && GLINK_OFFSET_DATA + 24 + 288 * fiber <= len
    ensures CheckPtr(base, GLINK_OFFSET_DATA, 24, 288, fiber + 0x8000_0000, len)
  {
    CastWraps(base, GLINK_OFFSET_DATA, 24, 288, fiber + 0x8000_0000);
    WrapWhole(LastRecord(base, GLINK_OFFSET_DATA, 24, 288, fiber), 144);
  }

  /** For such a count the record loop, which counts in int, does nothing. The call converts
      everything else and succeeds, and the records are left in wire order. */
  lemma HighCountSkips(base: nat, s: bytes, len: nat, c: Counts, d: Counts)
    requires Addressable(base, |s|) && len <= |s| && c.End() <= len
    requires d == c.(fiber := c.fiber + 0x8000_0000) && d.fiber == WireWord(s, GLINK_OFFSET_DATA + 20)
    requires c.samples == WireWord(s, c.OtdrHdr() + 12) && c.events == WireWord(s, c.EventHdr() + 12)
    ensures var skipped := FIBER_HDR + [Text(288 * c.fiber)] + OTDR_PARAM + TEST_RESULT
                           + DATA_HDR + Repeat(DATA_VAL, c.samples) + EVENT_HDR + Repeat(EVENT_VAL, c.events);
            && Locate(base, s, len) == Accepted(d)
            && GLINK_OFFSET_DATA + Size(skipped) == c.End()
            && Sections(s, d) == Done(After(s, GLINK_OFFSET_DATA, skipped))
  {
    hide Size, After, WireWord, Locate, Fibers, Tests, Curve, Events, Repeat, Wrap;
    HighCountAccepted(base, s, len, c, d);
    var pre := FIBER_HDR + [Text(288 * c.fiber)];
    NoRecords(s, 288 * c.fiber);
    TestsFollow(s, pre, d, c.OtdrParam());
    CurveFollows(s, pre + OTDR_PARAM + TEST_RESULT, d, c.OtdrHdr());
    EventsFollow(s, pre + OTDR_PARAM + TEST_RESULT + DATA_HDR + Repeat(DATA_VAL, d.samples), d, c.EventHdr());
  }

  lemma NoRecords(s: bytes, size: nat)
    requires GLINK_OFFSET_DATA + 24 + size <= |s|
    requires INT_MAX < WireWord(s, GLINK_OFFSET_DATA + 20)
    ensures Size(FIBER_HDR + [Text(size)]) == 24 + size
    ensures Fibers(s) == Done(After(s, GLINK_OFFSET_DATA, FIBER_HDR + [Text(size)]))
  {
    hide Size, After, HostWord, WireWord, Step;
    RecordSizes();
    NoSize();
    AfterNothing(s, GLINK_OFFSET_DATA);
    assert [] + FIBER_HDR == FIBER_HDR && FIBER_HDR + [] == FIBER_HDR;
    HeaderCount(s, [], 20, []);
    TwoSteps(s, [], GLINK_OFFSET_DATA, FIBER_HDR, []);
    AfterText(s, GLINK_OFFSET_DATA, FIBER_HDR, size);
  }

  /** The same with the count of the samples, which no guard looks at: with its top bit set the
      pointers behind the samples wrap to the same places and the sample loop does nothing. */
  lemma HighSamplesSkip(base: nat, s: bytes, len: nat, c: Counts, d: Counts)
    requires Addressable(base, |s|) && len <= |s| && c.End() <= len
    requires d == c.(samples := c.samples + 0x8000_0000) && d.samples == WireWord(s, c.OtdrHdr() + 12)
    requires c.fiber == WireWord(s, GLINK_OFFSET_DATA + 20) && c.events == WireWord(s, c.EventHdr() + 12)
    ensures var skipped := c.BeforeSamples() + [Text(2 * c.samples)] + EVENT_HDR + Repeat(EVENT_VAL, c.events);
            && Locate(base, s, len) == Accepted(d)
            && GLINK_OFFSET_DATA + Size(skipped) == c.End()
            && Sections(s, d) == Done(After(s, GLINK_OFFSET_DATA, skipped))
  {
    hide Size, After, WireWord, Locate, Fibers, Tests, Curve, Events, Repeat, Wrap;
    HighSamplesAccepted(base, s, len, c, d);
    FibersFirst(s, c.fiber);
    TestsFollow(s, c.BeforeParam(), d, c.OtdrParam());
    NoSamples(s, c.BeforeOtdrHdr(), d, c.OtdrHdr(), 2 * c.samples);
    EventsFollow(s, c.BeforeSamples() + [Text(2 * c.samples)], d, c.EventHdr());
  }

  lemma HighSamplesAccepted(base: nat, s: bytes, len: nat, c: Counts, d: Counts)
    requires Addressable(base, |s|) && len <= |s| && c.End() <= len
    requires d == c.(samples := c.samples + 0x8000_0000) && d.samples == WireWord(s, c.OtdrHdr() + 12)
    requires c.fiber == WireWord(s, GLINK_OFFSET_DATA + 20) && c.events == WireWord(s, c.EventHdr() + 12)
    ensures Locate(base, s, len) == Accepted(d)
    ensures Wrap(d.OtdrParam()) == c.OtdrParam() && Wrap(d.OtdrHdr()) == c.OtdrHdr()
    ensures Wrap(d.EventHdr()) == c.EventHdr()
  {
    hide WireWord, CheckPtr, Wrap;
    WrapSmall(c.OtdrParam());
    WrapSmall(c.OtdrHdr());
    WrapSmall(c.EventHdr());
    WrapWhole(c.EventHdr(), 1);
    CheckPtrExact(base, GLINK_OFFSET_DATA, 24, 288, c.fiber, len);
    CheckPtrExact(base, c.EventHdr(), 16, 24, c.events, len);
  }

  lemma NoSamples(s: bytes, pre: Layout, d: Counts, otdrHdr: nat, size: nat)
    requires GLINK_OFFSET_DATA + Size(pre) == otdrHdr == Wrap(d.OtdrHdr())
    requires otdrHdr + 16 + size <= |s| < 0x1_0000_0000
    requires INT_MAX < WireWord(s, otdrHdr + 12)
    ensures var curve := pre + DATA_HDR + [Text(size)];
            && Size(curve) == Size(pre) + 16 + size
            && Curve(Done(After(s, GLINK_OFFSET_DATA, pre)), d) == Done(After(s, GLINK_OFFSET_DATA, curve))
  {
    hide Size, After, HostWord, WireWord, Step, Wrap;
    WrapPlus(d.OtdrHdr(), 16);
    RecordSizes();
    NoSize();
    HeaderCount(s, pre, 12, []);
    assert pre + DATA_HDR + [] == pre + DATA_HDR;
    TwoSteps(s, pre, otdrHdr, DATA_HDR, []);
    AfterText(s, GLINK_OFFSET_DATA, pre + DATA_HDR, size);
  }
}
