/** What a fibre-section message holds after tms_AnalyseFiberSectionCfg, what undoes it, and
    what becomes of the tail tag behind it. */
module FiberMessage {
  import opened Bytes
  import opened Convert
  import opened Scanner
  import opened Glink
  import opened Delivery
  import opened Fiber
  import opened FiberWalk

  // What each field of the message holds after the conversion: a number its wire value, a text its bytes.

  lemma FiberField(s: bytes, c: Counts, i: nat, j: nat)
    requires c.End() <= |s| && i < c.fiber && j < |FIBER_VAL|
    ensures FieldConverted(FIBER_VAL[j], s, InHostOrder(s, c), c.FiberVal() + 288 * i + Offset(FIBER_VAL, j))
  {
    Partition(c);
    FiberValSize();
    hide Size, Repeat, After, FieldConverted, Offset;
    var post := OTDR_PARAM + TEST_RESULT + DATA_HDR + Repeat(DATA_VAL, c.samples)
                + EVENT_HDR + Repeat(EVENT_VAL, c.events);
    assert c.Message() == FIBER_HDR + Repeat(FIBER_VAL, c.fiber) + post;
    AfterRecord(s, GLINK_OFFSET_DATA, FIBER_HDR, FIBER_VAL, 288, c.fiber, post, i, j);
  }

  lemma SampleField(s: bytes, c: Counts, i: nat)
    requires c.End() <= |s| && i < c.samples
    ensures HostHalf(InHostOrder(s, c), c.OtdrVal() + 2 * i) == WireHalf(s, c.OtdrVal() + 2 * i)
  {
    Partition(c);
    RecordSizes();
    hide Size, Repeat, After;
    var post := EVENT_HDR + Repeat(EVENT_VAL, c.events);
    assert c.Message() == c.BeforeSamples() + Repeat(DATA_VAL, c.samples) + post;
    AfterRecord(s, GLINK_OFFSET_DATA, c.BeforeSamples(), DATA_VAL, 2, c.samples, post, i, 0);
  }

  lemma EventField(s: bytes, c: Counts, i: nat, j: nat)
    requires c.End() <= |s| && i < c.events && j < |EVENT_VAL|
    ensures FieldConverted(EVENT_VAL[j], s, InHostOrder(s, c), c.EventVal() + 24 * i + Offset(EVENT_VAL, j))
  {
    Partition(c);
    RecordSizes();
    hide Size, Repeat, After, FieldConverted, Offset;
    assert c.Message() == c.BeforeEvents() + Repeat(EVENT_VAL, c.events) + [];
    AfterRecord(s, GLINK_OFFSET_DATA, c.BeforeEvents(), EVENT_VAL, 24, c.events, [], i, j);
  }

  lemma ParamField(s: bytes, c: Counts, j: nat)
    requires c.End() <= |s| && j < |OTDR_PARAM|
    ensures FieldConverted(OTDR_PARAM[j], s, InHostOrder(s, c), c.OtdrParam() + Offset(OTDR_PARAM, j))
  {
    Partition(c);
    hide Size, Repeat, After, FieldConverted, Offset;
    var post := TEST_RESULT + DATA_HDR + Repeat(DATA_VAL, c.samples) + EVENT_HDR + Repeat(EVENT_VAL, c.events);
    assert c.Message() == c.BeforeParam() + OTDR_PARAM + post;
    AfterPart(s, GLINK_OFFSET_DATA, c.BeforeParam(), OTDR_PARAM, post, j);
  }

  lemma ResultField(s: bytes, c: Counts, j: nat)
    requires c.End() <= |s| && j < |TEST_RESULT|
    ensures FieldConverted(TEST_RESULT[j], s, InHostOrder(s, c), c.TestResult() + Offset(TEST_RESULT, j))
  {
    Partition(c);
    hide Size, Repeat, After, FieldConverted, Offset;
    var post := DATA_HDR + Repeat(DATA_VAL, c.samples) + EVENT_HDR + Repeat(EVENT_VAL, c.events);
    assert c.Message() == c.BeforeResult() + TEST_RESULT + post;
    AfterPart(s, GLINK_OFFSET_DATA, c.BeforeResult(), TEST_RESULT, post, j);
  }

  lemma FiberHdrField(s: bytes, c: Counts, j: nat)
    requires c.End() <= |s| && j < |FIBER_HDR|
    ensures FieldConverted(FIBER_HDR[j], s, InHostOrder(s, c), GLINK_OFFSET_DATA + Offset(FIBER_HDR, j))
  {
    Partition(c);
    hide Size, Repeat, After, FieldConverted, Offset;
    var curve := Repeat(DATA_VAL, c.samples) + EVENT_HDR + Repeat(EVENT_VAL, c.events);
    var post := Repeat(FIBER_VAL, c.fiber) + OTDR_PARAM + TEST_RESULT + DATA_HDR + curve;
    assert c.Message() == c.BeforeSamples() + curve;
    assert c.Message() == FIBER_HDR + post;
    AfterFirst(s, GLINK_OFFSET_DATA, FIBER_HDR, post, j);
  }

  lemma OtdrHdrField(s: bytes, c: Counts, j: nat)
    requires c.End() <= |s| && j < |DATA_HDR|
    ensures FieldConverted(DATA_HDR[j], s, InHostOrder(s, c), c.OtdrHdr() + Offset(DATA_HDR, j))
  {
    Partition(c);
    hide Size, Repeat, After, FieldConverted, Offset;
    var post := Repeat(DATA_VAL, c.samples) + EVENT_HDR + Repeat(EVENT_VAL, c.events);
    assert c.Message() == c.BeforeOtdrHdr() + DATA_HDR + post;
    AfterPart(s, GLINK_OFFSET_DATA, c.BeforeOtdrHdr(), DATA_HDR, post, j);
  }

  lemma EventHdrField(s: bytes, c: Counts, j: nat)
    requires c.End() <= |s| && j < |EVENT_HDR|
    ensures FieldConverted(EVENT_HDR[j], s, InHostOrder(s, c), c.EventHdr() + Offset(EVENT_HDR, j))
  {
    Partition(c);
    hide Size, Repeat, After, FieldConverted, Offset;
    AfterPart(s, GLINK_OFFSET_DATA, c.BeforeEventHdr(), EVENT_HDR, Repeat(EVENT_VAL, c.events), j);
  }

  // The same in words and texts at numbered places.

  /** Where the sections are. */
  lemma SectionPlaces(c: Counts)
    ensures c.FiberVal() == 60 && c.OtdrParam() == 60 + 288 * c.fiber && c.TestResult() == 108 + 288 * c.fiber
    ensures c.OtdrHdr() == 160 + 288 * c.fiber && c.OtdrVal() == 176 + 288 * c.fiber
    ensures c.EventHdr() == 176 + 288 * c.fiber + 2 * c.samples && c.EventVal() == c.EventHdr() + 16
    ensures c.End() == 192 + 288 * c.fiber + 2 * c.samples + 24 * c.events
  {
  }

  lemma WordField(f: Field, s: bytes, r: bytes, at: nat)
    requires f == Word32 && FieldConverted(f, s, r, at)
    ensures at + 4 <= |s| == |r| && HostWord(r, at) == WireWord(s, at)
  {
  }

  lemma TextField(f: Field, n: nat, s: bytes, r: bytes, at: nat)
    requires f == Text(n) && FieldConverted(f, s, r, at)
    ensures at + n <= |s| == |r| && r[at..at + n] == s[at..at + n]
  {
  }

  lemma JoinTexts(s: bytes, r: bytes, i: nat, j: nat, k: nat)
    requires i <= j <= k <= |s| == |r| && r[i..j] == s[i..j] && r[j..k] == s[j..k]
    ensures r[i..k] == s[i..k]
  {
    assert r[i..k] == r[i..j] + r[j..k] && s[i..k] == s[i..j] + s[j..k];
  }

  /** A fibre record: eight numbers in host order, and the texts between them unchanged. */
  lemma FiberRecordWords(s: bytes, c: Counts, i: nat)
    requires c.End() <= |s| && i < c.fiber
    ensures var r, a := InHostOrder(s, c), 60 + 288 * i;
            && a + 288 <= |s| == |r|
            && HostWord(r, a) == WireWord(s, a) && HostWord(r, a + 4) == WireWord(s, a + 4)
            && HostWord(r, a + 136) == WireWord(s, a + 136) && HostWord(r, a + 204) == WireWord(s, a + 204)
            && HostWord(r, a + 272) == WireWord(s, a + 272) && HostWord(r, a + 276) == WireWord(s, a + 276)
            && HostWord(r, a + 280) == WireWord(s, a + 280) && HostWord(r, a + 284) == WireWord(s, a + 284)
            && r[a + 8..a + 136] == s[a + 8..a + 136] && r[a + 140..a + 204] == s[a + 140..a + 204]
            && r[a + 208..a + 272] == s[a + 208..a + 272]
  {
    hide InHostOrder, FieldConverted, HostWord, WireWord, Offset, Size;
    FiberValSize();
    var r, a := InHostOrder(s, c), 60 + 288 * i;
    forall j: nat | j < 12 ensures FieldConverted(FIBER_VAL[j], s, r, a + Offset(FIBER_VAL, j)) {
      FiberField(s, c, i, j);
    }
    WordField(FIBER_VAL[0], s, r, a);
    WordField(FIBER_VAL[1], s, r, a + 4);
    TextField(FIBER_VAL[2], 64, s, r, a + 8);
    TextField(FIBER_VAL[3], 64, s, r, a + 72);
    JoinTexts(s, r, a + 8, a + 72, a + 136);
    WordField(FIBER_VAL[4], s, r, a + 136);
    TextField(FIBER_VAL[5], 64, s, r, a + 140);
    WordField(FIBER_VAL[6], s, r, a + 204);
    TextField(FIBER_VAL[7], 64, s, r, a + 208);
    WordField(FIBER_VAL[8], s, r, a + 272);
    WordField(FIBER_VAL[9], s, r, a + 276);
    WordField(FIBER_VAL[10], s, r, a + 280);
    WordField(FIBER_VAL[11], s, r, a + 284);
  }

  lemma ParamOffsets()
    ensures Offset(OTDR_PARAM, 0) == 0 && Offset(OTDR_PARAM, 1) == 20 && Offset(OTDR_PARAM, 2) == 24
    ensures Offset(OTDR_PARAM, 3) == 28 && Offset(OTDR_PARAM, 4) == 32 && Offset(OTDR_PARAM, 5) == 36
    ensures Offset(OTDR_PARAM, 6) == 40 && Offset(OTDR_PARAM, 7) == 44
    ensures Offset(TEST_RESULT, 0) == 0 && Offset(TEST_RESULT, 1) == 20 && Offset(TEST_RESULT, 2) == 24
    ensures Offset(TEST_RESULT, 3) == 28 && Offset(TEST_RESULT, 4) == 32
    ensures Offset(EVENT_VAL, 0) == 0 && Offset(EVENT_VAL, 1) == 4 && Offset(EVENT_VAL, 2) == 8
    ensures Offset(EVENT_VAL, 3) == 12 && Offset(EVENT_VAL, 4) == 16 && Offset(EVENT_VAL, 5) == 20
  {
    hide Offset;
    OffsetZero(OTDR_PARAM);
    forall k: nat | k < 7 ensures Offset(OTDR_PARAM, k + 1) == Offset(OTDR_PARAM, k) + OTDR_PARAM[k].Size() {
      OffsetNext(OTDR_PARAM, k);
    }
    OffsetZero(TEST_RESULT);
    forall k: nat | k < 4 ensures Offset(TEST_RESULT, k + 1) == Offset(TEST_RESULT, k) + TEST_RESULT[k].Size() {
      OffsetNext(TEST_RESULT, k);
    }
    OffsetZero(EVENT_VAL);
    forall k: nat | k < 5 ensures Offset(EVENT_VAL, k + 1) == Offset(EVENT_VAL, k) + EVENT_VAL[k].Size() {
      OffsetNext(EVENT_VAL, k);
    }
  }

  /** The test parameters: seven numbers behind the name. */
  lemma ParamWords(s: bytes, c: Counts)
    requires c.End() <= |s|
    ensures var r, a := InHostOrder(s, c), 60 + 288 * c.fiber;
            && a + 48 <= |s| == |r|
            && r[a..a + 20] == s[a..a + 20]
            && HostWord(r, a + 20) == WireWord(s, a + 20) && HostWord(r, a + 24) == WireWord(s, a + 24)
            && HostWord(r, a + 28) == WireWord(s, a + 28) && HostWord(r, a + 32) == WireWord(s, a + 32)
            && HostWord(r, a + 36) == WireWord(s, a + 36) && HostWord(r, a + 40) == WireWord(s, a + 40)
            && HostWord(r, a + 44) == WireWord(s, a + 44)
  {
    hide InHostOrder, FieldConverted, HostWord, WireWord, Offset;
    ParamOffsets();
    var r, a := InHostOrder(s, c), 60 + 288 * c.fiber;
    forall j: nat | j < 8 ensures FieldConverted(OTDR_PARAM[j], s, r, a + Offset(OTDR_PARAM, j)) {
      ParamField(s, c, j);
    }
    TextField(OTDR_PARAM[0], 20, s, r, a);
    WordField(OTDR_PARAM[1], s, r, a + 20);
    WordField(OTDR_PARAM[2], s, r, a + 24);
    WordField(OTDR_PARAM[3], s, r, a + 28);
    WordField(OTDR_PARAM[4], s, r, a + 32);
    WordField(OTDR_PARAM[5], s, r, a + 36);
    WordField(OTDR_PARAM[6], s, r, a + 40);
    WordField(OTDR_PARAM[7], s, r, a + 44);
  }

  /** The test result: three numbers between two texts. */
  lemma ResultWords(s: bytes, c: Counts)
    requires c.End() <= |s|
    ensures var r, a := InHostOrder(s, c), 108 + 288 * c.fiber;
            && a + 52 <= |s| == |r|
            && r[a..a + 20] == s[a..a + 20] && r[a + 32..a + 52] == s[a + 32..a + 52]
            && HostWord(r, a + 20) == WireWord(s, a + 20) && HostWord(r, a + 24) == WireWord(s, a + 24)
            && HostWord(r, a + 28) == WireWord(s, a + 28)
  {
    hide InHostOrder, FieldConverted, HostWord, WireWord, Offset;
    ParamOffsets();
    var r, a := InHostOrder(s, c), 108 + 288 * c.fiber;
    forall j: nat | j < 5 ensures FieldConverted(TEST_RESULT[j], s, r, a + Offset(TEST_RESULT, j)) {
      ResultField(s, c, j);
    }
    TextField(TEST_RESULT[0], 20, s, r, a);
    WordField(TEST_RESULT[1], s, r, a + 20);
    WordField(TEST_RESULT[2], s, r, a + 24);
    WordField(TEST_RESULT[3], s, r, a + 28);
    TextField(TEST_RESULT[4], 20, s, r, a + 32);
  }

  /** An event: six numbers. */
  lemma EventWordsAt(s: bytes, c: Counts, i: nat)
    requires c.End() <= |s| && i < c.events
    ensures var r, a := InHostOrder(s, c), 192 + 288 * c.fiber + 2 * c.samples + 24 * i;
            && a + 24 <= |s| == |r|
            && HostWord(r, a) == WireWord(s, a) && HostWord(r, a + 4) == WireWord(s, a + 4)
            && HostWord(r, a + 8) == WireWord(s, a + 8) && HostWord(r, a + 12) == WireWord(s, a + 12)
            && HostWord(r, a + 16) == WireWord(s, a + 16) && HostWord(r, a + 20) == WireWord(s, a + 20)
  {
    hide InHostOrder, FieldConverted, HostWord, WireWord, Offset;
    ParamOffsets();
    var r, a := InHostOrder(s, c), 192 + 288 * c.fiber + 2 * c.samples + 24 * i;
    forall j: nat | j < 6 ensures FieldConverted(EVENT_VAL[j], s, r, a + Offset(EVENT_VAL, j)) {
      EventField(s, c, i, j);
    }
    WordField(EVENT_VAL[0], s, r, a);
    WordField(EVENT_VAL[1], s, r, a + 4);
    WordField(EVENT_VAL[2], s, r, a + 8);
    WordField(EVENT_VAL[3], s, r, a + 12);
    WordField(EVENT_VAL[4], s, r, a + 16);
    WordField(EVENT_VAL[5], s, r, a + 20);
  }

  /** The three headers: a name and a count each. */
  lemma HeaderWords(s: bytes, c: Counts)
    requires c.End() <= |s|
    ensures var r, o, e := InHostOrder(s, c), 160 + 288 * c.fiber, 176 + 288 * c.fiber + 2 * c.samples;
            && e + 16 <= |s| == |r|
            && r[36..56] == s[36..56] && HostWord(r, 56) == WireWord(s, 56)
            && r[o..o + 12] == s[o..o + 12] && HostWord(r, o + 12) == WireWord(s, o + 12)
            && r[e..e + 12] == s[e..e + 12] && HostWord(r, e + 12) == WireWord(s, e + 12)
  {
    hide InHostOrder, FieldConverted, HostWord, WireWord, Offset;
    HeaderOffsets();
    OffsetZero(FIBER_HDR);
    OffsetZero(DATA_HDR);
    OffsetZero(EVENT_HDR);
    var r, o, e := InHostOrder(s, c), 160 + 288 * c.fiber, 176 + 288 * c.fiber + 2 * c.samples;
    FiberHdrField(s, c, 0);
    FiberHdrField(s, c, 1);
    OtdrHdrField(s, c, 0);
    OtdrHdrField(s, c, 1);
    EventHdrField(s, c, 0);
    EventHdrField(s, c, 1);
    TextField(FIBER_HDR[0], 20, s, r, 36);
    WordField(FIBER_HDR[1], s, r, 56);
    TextField(DATA_HDR[0], 12, s, r, o);
    WordField(DATA_HDR[1], s, r, o + 12);
    TextField(EVENT_HDR[0], 12, s, r, e);
    WordField(EVENT_HDR[1], s, r, e + 12);
  }

  /** The counts as the application reads them from a converted message. */
  predicate HostCountsAt(s: bytes, c: Counts) {
    && c.End() <= |s|
    && c.fiber == HostWord(s, GLINK_OFFSET_DATA + 20)
    && c.samples == HostWord(s, c.OtdrHdr() + 12)
    && c.events == HostWord(s, c.EventHdr() + 12)
  }

  lemma HeaderOffsets()
    ensures Offset(FIBER_HDR, 1) == 20 && Offset(DATA_HDR, 1) == 12 && Offset(EVENT_HDR, 1) == 12
  {
  }

  /** A converted message still tells where its sections are, now in host order. */
  lemma CountsKept(s: bytes, c: Counts)
    requires CountsAt(s, c)
    ensures HostCountsAt(InHostOrder(s, c), c)
  {
    hide InHostOrder, HostWord, WireWord, Offset;
    HeaderOffsets();
    FiberHdrField(s, c, 1);
    OtdrHdrField(s, c, 1);
    EventHdrField(s, c, 1);
  }

  lemma CountsUnique(r: bytes, c: Counts, d: Counts)
    requires HostCountsAt(r, c) && HostCountsAt(r, d)
    ensures c == d
  {
    hide HostWord;
  }

  /** Converting the sections that a converted message tells of restores the message byte for byte. */
  lemma Undo(s: bytes, c: Counts, d: Counts)
    requires CountsAt(s, c) && HostCountsAt(InHostOrder(s, c), d)
    ensures c == d && InHostOrder(InHostOrder(s, c), d) == s
  {
    CountsKept(s, c);
    CountsUnique(InHostOrder(s, c), c, d);
    Partition(c);
    AfterInvolution(s, GLINK_OFFSET_DATA, c.Message());
    hide Size, Repeat, After, HostCountsAt, CountsAt, Counts.Message;
  }

  /** Bytes outside the sections do not change. */
  lemma OutsideKept(s: bytes, c: Counts)
    requires c.End() <= |s|
    ensures InHostOrder(s, c)[..GLINK_OFFSET_DATA] == s[..GLINK_OFFSET_DATA]
    ensures InHostOrder(s, c)[c.End()..] == s[c.End()..]
  {
    Partition(c);
    AfterOutside(s, GLINK_OFFSET_DATA, c.Message());
    hide Size, Repeat, After, Counts.Message;
  }

  /** Undoing the last conversion. */
  lemma StepBack(s: bytes, pre: Layout, at: nat, fs: Layout, t: bytes)
    requires at == GLINK_OFFSET_DATA + Size(pre) && at + Size(fs) <= |s|
    requires Size(pre + fs) == Size(pre) + Size(fs) && t == After(s, GLINK_OFFSET_DATA, pre + fs)
    ensures After(t, at, fs) == After(s, GLINK_OFFSET_DATA, pre)
  {
    hide Size, After;
    AfterConcat(s, GLINK_OFFSET_DATA, pre, fs);
    AfterInvolution(After(s, GLINK_OFFSET_DATA, pre), at, fs);
  }

  // Running the converters on a converted message, the records before the header that counts
  // them, as a sender of the message would have to.

  method UndoEvents(mem: array<byte>, eventHdr: nat, ghost s: bytes, ghost pre: Layout, ghost events: nat)
    requires eventHdr == GLINK_OFFSET_DATA + Size(pre) && eventHdr + 16 + 24 * events <= |s| < 0x1_0000_0000
    requires events == WireWord(s, eventHdr + 12)
    requires Converted(mem, s, GLINK_OFFSET_DATA, pre + EVENT_HDR + Repeat(EVENT_VAL, events))
    modifies mem
    ensures Converted(mem, s, GLINK_OFFSET_DATA, pre)
  {
    hide Size, After, Repeat, HostWord, WireWord, EventLoops;
    RecordSizes();
    SizeRepeat(EVENT_VAL, 24, events);
    EventWords(events);
    EventLoopsAll(events);
    HeaderCount(s, pre, 12, Repeat(EVENT_VAL, events));
    SizeConcat(pre + EVENT_HDR, Repeat(EVENT_VAL, events));
    StepBack(s, pre + EVENT_HDR, eventHdr + 16, Repeat(EVENT_VAL, events), mem[..]);
    ConvEvents(mem, eventHdr + 16, eventHdr);
    SizeConcat(pre, EVENT_HDR);
    StepBack(s, pre, eventHdr, EVENT_HDR, mem[..]);
    ConvHeader(mem, eventHdr, 12);
  }

  method UndoCurve(mem: array<byte>, otdrHdr: nat, ghost s: bytes, ghost pre: Layout, ghost samples: nat)
    requires otdrHdr == GLINK_OFFSET_DATA + Size(pre) && otdrHdr + 16 + 2 * samples <= |s| < 0x1_0000_0000
    requires samples == WireWord(s, otdrHdr + 12)
    requires Converted(mem, s, GLINK_OFFSET_DATA, pre + DATA_HDR + Repeat(DATA_VAL, samples))
    modifies mem
    ensures Converted(mem, s, GLINK_OFFSET_DATA, pre)
  {
    hide Size, After, Repeat, HostWord, WireWord, Loops;
    RecordSizes();
    SizeRepeat(DATA_VAL, 2, samples);
    LoopsAll(samples);
    HeaderCount(s, pre, 12, Repeat(DATA_VAL, samples));
    SizeConcat(pre + DATA_HDR, Repeat(DATA_VAL, samples));
    StepBack(s, pre + DATA_HDR, otdrHdr + 16, Repeat(DATA_VAL, samples), mem[..]);
    ConvSamples(mem, otdrHdr + 16, otdrHdr);
    SizeConcat(pre, DATA_HDR);
    StepBack(s, pre, otdrHdr, DATA_HDR, mem[..]);
    ConvHeader(mem, otdrHdr, 12);
  }

  method UndoTests(mem: array<byte>, otdrParam: nat, ghost s: bytes, ghost pre: Layout)
    requires otdrParam == GLINK_OFFSET_DATA + Size(pre) && otdrParam + 100 <= |s|
    requires Converted(mem, s, GLINK_OFFSET_DATA, pre + OTDR_PARAM + TEST_RESULT)
    modifies mem
    ensures Converted(mem, s, GLINK_OFFSET_DATA, pre)
  {
    hide Size, After;
    RecordSizes();
    SizeConcat(pre + OTDR_PARAM, TEST_RESULT);
    SizeConcat(pre, OTDR_PARAM);
    StepBack(s, pre + OTDR_PARAM, otdrParam + 48, TEST_RESULT, mem[..]);
    ConvResult(mem, otdrParam + 48);
    StepBack(s, pre, otdrParam, OTDR_PARAM, mem[..]);
    ConvParam(mem, otdrParam);
  }

  method UndoFibers(mem: array<byte>, ghost s: bytes, ghost fiber: nat)
    requires GLINK_OFFSET_DATA + 24 + 288 * fiber <= |s| < 0x1_0000_0000
    requires fiber == WireWord(s, GLINK_OFFSET_DATA + 20)
    requires Converted(mem, s, GLINK_OFFSET_DATA, FIBER_HDR + Repeat(FIBER_VAL, fiber))
    modifies mem
    ensures mem[..] == s
  {
    hide Size, After, Repeat, HostWord, WireWord, Loops;
    RecordSizes();
    NoSize();
    FiberRecordsSize(fiber);
    LoopsAll(fiber);
    assert [] + FIBER_HDR == FIBER_HDR;
    HeaderCount(s, [], 20, Repeat(FIBER_VAL, fiber));
    SizeConcat(FIBER_HDR, Repeat(FIBER_VAL, fiber));
    StepBack(s, FIBER_HDR, GLINK_OFFSET_DATA + 24, Repeat(FIBER_VAL, fiber), mem[..]);
    ConvFiberRecords(mem, GLINK_OFFSET_DATA + 24, GLINK_OFFSET_DATA);
    StepBack(s, [], GLINK_OFFSET_DATA, FIBER_HDR, mem[..]);
    ConvHeader(mem, GLINK_OFFSET_DATA, 20);
    AfterNothing(s, GLINK_OFFSET_DATA);
  }

  /** From a converted message the received one, byte for byte: the sections are found by the
      counts in host order, and converted from the last to the first. */
  method UndoMessage(mem: array<byte>, ghost s: bytes, ghost c: Counts)
    requires CountsAt(s, c) && |s| < 0x1_0000_0000 && mem[..] == InHostOrder(s, c)
    modifies mem
    ensures mem[..] == s
  {
    hide Size, After, Repeat, HostWord, WireWord;
    CountsKept(s, c);
    Partition(c);
    var otdrParam := GLINK_OFFSET_DATA + 24 + 288 * HostWord(mem[..], GLINK_OFFSET_DATA + 20);
    var otdrHdr := otdrParam + 48 + 52;
    var eventHdr := otdrHdr + 16 + 2 * HostWord(mem[..], otdrHdr + 12);
    UndoEvents(mem, eventHdr, s, c.BeforeEventHdr(), c.events);
    UndoCurve(mem, otdrHdr, s, c.BeforeOtdrHdr(), c.samples);
    UndoTests(mem, otdrParam, s, c.BeforeParam());
    UndoFibers(mem, s, c.fiber);
  }

  lemma LastField(c: Counts)
    ensures var m := c.Message();
            m != [] && m[|m| - 1] == Word32 && Offset(m, |m| - 1) + 4 == Size(m)
  {
    hide Offset, Size;
    var events := Repeat(EVENT_VAL, c.events);
    assert events != [] ==> events[|events| - 1] == Word32;
    var m := c.Message();
    OffsetNext(m, |m| - 1);
    SizeIsOffset(m);
  }

  /** The four bytes in front of the end of the sections are the last word, reversed. */
  lemma LastWord(s: bytes, c: Counts, j: nat)
    requires c.End() <= |s| && j < 4
    ensures InHostOrder(s, c)[c.End() - 4 + j] == s[c.End() - 1 - j]
  {
    hide Size, Repeat, Mirror, Offset, Counts.Message;
    Partition(c);
    LastField(c);
    MirrorField(c.Message(), |c.Message()| - 1, j);
    assert Perm(GLINK_OFFSET_DATA, c.Message(), c.End() - 4 + j) == c.End() - 1 - j;
  }

  /** The eight sections lie in the payload, in front of the tail tag, exactly when they end there. */
  lemma InPayload(len: nat, c: Counts)
    ensures (forall k: nat :: k < |c.Message()| ==>
               GLINK_OFFSET_DATA + Offset(c.Message(), k) + c.Message()[k].Size() <= len - 4)
            <==> c.End() <= len - 4
  {
    Partition(c);
    LastField(c);
    hide Size, Repeat, Offset, Counts.Message;
  }

  /** What is left of a tail tag whose first bytes a reversed word has covered. */
  predicate TailSurvives(s: bytes, len: nat, end: nat)
    requires 7 <= len <= |s|
  {
    || end <= len - 4
    || (end == len - 3 && s[len - 7] == 0xee)
    || (end == len - 2 && s[len - 6] == s[len - 5] == 0xee)
    || (end == len - 1 && s[len - 5] == 0xff)
  }

  /** The tail tag after a conversion that reverses the last word of the sections. */
  lemma TailReversed(s: bytes, r: bytes, len: nat, end: nat)
    requires 7 <= len <= |s| == |r| && 4 <= end <= len && TailAt(s, len - 4)
    requires r[end - 4] == s[end - 1] && r[end - 3] == s[end - 2]
    requires r[end - 2] == s[end - 3] && r[end - 1] == s[end - 4]
    requires forall i :: end <= i < len ==> r[i] == s[i]
    ensures TailAt(r, len - 4) <==> TailSurvives(s, len, end)
    ensures end == len ==> HeadAt(r, len - 4)
    ensures end == len - 2 ==> r[len - 6..len] == [0xee, 0xee, s[len - 5], s[len - 6], 0xff, 0xff]
  {
  }

  /** Only events reach into the tail tag: with none, the last word is their count, 0. */
  lemma EventsAtTail(s: bytes, len: nat, c: Counts)
    requires WellFormed(s, len, c) && len <= |s| && TailAt(s, len - 4) && len - 4 < c.End()
    ensures 0 < c.events
  {
  }

  lemma BehindSections(s: bytes, c: Counts)
    requires c.End() <= |s|
    ensures forall i :: c.End() <= i < |s| ==> InHostOrder(s, c)[i] == s[i]
  {
    hide InHostOrder;
    OutsideKept(s, c);
    forall i | c.End() <= i < |s| ensures InHostOrder(s, c)[i] == s[i] {
      assert InHostOrder(s, c)[c.End()..][i - c.End()] == s[c.End()..][i - c.End()];
    }
  }

  /** The guards compare with the end of the frame, so the sections of a well-formed message
      may run into its tail tag. The tag is a tail tag afterwards exactly when they do not
      reach it, or when the bytes they move into it are those it has there. Sections that end
      with the frame turn it into a head tag. */
  lemma TailExact(s: bytes, len: nat, c: Counts)
    requires WellFormed(s, len, c) && len <= |s| && TailAt(s, len - 4)
    ensures var r, end := InHostOrder(s, c), c.End();
            && (TailAt(r, len - 4) <==> TailSurvives(s, len, end))
            && (len - 4 < end ==> 0 < c.events)
            && (end == len ==> HeadAt(r, len - 4))
            && (end == len - 2 ==> r[len - 6..len] == [0xee, 0xee, s[len - 5], s[len - 6], 0xff, 0xff])
  {
    hide InHostOrder, TailAt, HeadAt, CountsAt;
    LastWord(s, c, 0);
    LastWord(s, c, 1);
    LastWord(s, c, 2);
    LastWord(s, c, 3);
    BehindSections(s, c);
    if len - 4 < c.End() {
      EventsAtTail(s, len, c);
    }
    TailReversed(s, InHostOrder(s, c), len, c.End());
  }

  const ID_FIBERSECTIONCFG: u32 := 0x8000_0004

  /** A payload of 176 bytes that tells of one event and no other records. */
  const ONE_EVENT: bytes := seq(152, _ => 0) + [0, 0, 0, 1] + seq(20, _ => 0)

  /** A delivered frame whose tail tag the conversion turns into a head tag. */
  lemma TailTurned(addr: Addr, base: nat)
    requires Addressable(base, 216)
    ensures Msg(addr, ID_FIBERSECTIONCFG, ONE_EVENT).Sendable()
    ensures var s, c := Msg(addr, ID_FIBERSECTIONCFG, ONE_EVENT).Encode(), Counts(0, 0, 1);
            && |s| == 216 && TailAt(s, 212) && WellFormed(s, 216, c) && Locate(base, s, 216) == Accepted(c)
            && HeadAt(InHostOrder(s, c), 212)
  {
    var m, c := Msg(addr, ID_FIBERSECTIONCFG, ONE_EVENT), Counts(0, 0, 1);
    hide Msg.Encode, InHostOrder, Locate, WellFormed, TailAt, HeadAt, WireWord;
    EncodeFields(m);
    var s := m.Encode();
    OneEvent(s);
    LocateExact(base, s, 216, c);
    TailExact(s, 216, c);
  }

  lemma OneEvent(s: bytes)
    requires |s| == 216 && s[36..212] == ONE_EVENT
    ensures WellFormed(s, 216, Counts(0, 0, 1))
  {
    forall i | 36 <= i < 212 ensures s[i] == if i == 191 then 1 else 0 {
      assert s[36..212][i - 36] == ONE_EVENT[i - 36];
    }
  }

  /** A payload of 476 bytes with the fibre count of GuardWraps. */
  const WRAPPING: bytes := seq(20, _ => 0) + [0x00, 0xe3, 0x8e, 0x3a] + seq(452, _ => 0)

  /** A delivered frame that both guards accept although its records fill no memory, wherever
      the frame lies; converting them leaves memory. */
  lemma WrappingAccepted(addr: Addr, base: nat)
    requires Addressable(base, 516)
    ensures Msg(addr, ID_FIBERSECTIONCFG, WRAPPING).Sendable()
    ensures var s, c := Msg(addr, ID_FIBERSECTIONCFG, WRAPPING).Encode(), Counts(14913082, 0, 0);
            |s| == 516 && Locate(base, s, 516) == Accepted(c) && Sections(s, c) == Lost
  {
    var m, c := Msg(addr, ID_FIBERSECTIONCFG, WRAPPING), Counts(14913082, 0, 0);
    hide Msg.Encode, TailAt, HeadAt, Fibers, Tests, Curve, Events, Locate;
    EncodeFields(m);
    var s := m.Encode();
    WrappingWords(s);
    WrappingLocated(s, base);
    RecordsLeave(s);
    LostStays(c);
  }

  lemma WrappingWords(s: bytes)
    requires |s| == 516 && s[36..512] == WRAPPING
    ensures WireWord(s, 56) == 14913082 && WireWord(s, 492) == 0 && WireWord(s, 508) == 0
  {
    forall i | 36 <= i < 512 ensures s[i] == WRAPPING[i - 36] {
      assert s[36..512][i - 36] == WRAPPING[i - 36];
    }
  }

  lemma WrappingLocated(s: bytes, base: nat)
    requires Addressable(base, 516) && |s| == 516
    requires WireWord(s, 56) == 14913082 && WireWord(s, 492) == 0 && WireWord(s, 508) == 0
    ensures Locate(base, s, 516) == Accepted(Counts(14913082, 0, 0))
  {
    hide WireWord;
    GuardWraps(base, 516);
    assert Wrap(Counts(14913082, 0, 0).OtdrHdr()) == 480 && Wrap(Counts(14913082, 0, 0).EventHdr()) == 496;
  }
}
