/** tms_Analyse: the command tables, and what handling a frame does to the receive buffer in
    which it lies. */
module Analyse {
  import opened Bytes
  import opened Convert
  import opened Scanner
  import opened Splitter
  import opened Glink
  import opened Delivery
  import opened Dispatch
  import opened Fiber
  import opened FiberWalk
  import opened FiberMessage
  import Receiver

  const ID_SETOTDRFPGAINFO: u32 := 0x2000_0000

  /** struct tms_setotdrfpgainfo: pipe, wl, dr, wdm, reserved0. */
  const FPGA_INFO: Layout := [Word32, Word32, Word32, Text(16), Word32]
  /** struct tms_get_otdrdata. */
  const GET_OTDRDATA: Layout := [Word32, Word32, Word32, Word32, Word32, Word32, Word32, Word32]
  /** The structs that hold a pipe number or a status and nothing else. */
  const ONE_WORD: Layout := [Word32]

  /** The dowhat of a command: PROCCESS_DONOT, PROCCESS_CALLBACK, PROCCESS_COPY2USE, or no entry. */
  datatype Action = Unknown | DoNot | Callback | CopyToUse

  /** The tables as the program starts with them. */
  function ActionOf(cmd: u32): Action {
    var cmdh, cmdl := cmd / 0x1000_0000, cmd % 0x1000_0000;
    if cmdh == 8 then
      if 34 <= cmdl then Unknown
      else if cmdl == 1 || cmdl == 2 then Callback
      else if cmdl == 3 || 10 <= cmdl <= 15 || 25 <= cmdl <= 31 then DoNot
      else CopyToUse
    else if cmdh == 6 then if 4 <= cmdl then Unknown else DoNot
    else if cmdh == 2 then if 1 <= cmdl then Unknown else CopyToUse
    else Unknown
  }

  /** What the handler of a command converts behind the base header, except that of
      ID_FIBERSECTIONCFG. It looks at no length. */
  function Record(cmd: u32): Layout {
    if cmd == ID_SETOTDRFPGAINFO then FPGA_INFO
    else if cmd == 0x8000_0014 || cmd == 0x8000_0015 then GET_OTDRDATA
    else if 0x8000_0005 <= cmd <= 0x8000_0007 || cmd == 0x8000_0020 then ONE_WORD
    else []
  }

  lemma RecordSize(cmd: u32)
    ensures Size(FPGA_INFO) == 32 && Size(GET_OTDRDATA) == 32 && Size(ONE_WORD) == 4 && Size([]) == 0
    ensures Size(Record(cmd)) <= 32
  {
    assert Size(GET_OTDRDATA[6..]) == 8;
    assert Size(GET_OTDRDATA[4..]) == 16;
    assert Size(GET_OTDRDATA[2..]) == 24;
  }

  /** Memory after the handler of a command. */
  ghost function Handled(base: nat, m: bytes, len: nat, cmd: u32): Run {
    if cmd == ID_FIBERSECTIONCFG then
      var walk := Locate(base, m, len);
      if walk.Rejected? then Done(m) else if walk.Strayed? then Lost else Sections(m, walk.counts)
    else Step(Done(m), GLINK_OFFSET_DATA, Record(cmd))
  }

  /** Memory `m`, which has a frame of `len` bytes in front, after tms_Analyse. */
  ghost function Analysed(base: nat, m: bytes, len: nat): Run {
    if |m| < GLINK_BASE_H then Lost
    else
      var cmd := WireWord(m, GLINK_OFFSET_CMDID);
      if ActionOf(cmd) != CopyToUse then Done(m) else Step(Handled(base, m, len, cmd), 4, BASE_HDR)
  }

  lemma WordsRepeat()
    ensures Repeat([Word32], 1) == ONE_WORD && Repeat([Word32], 8) == GET_OTDRDATA
  {
    assert Repeat([Word32], 4) == [Word32, Word32, Word32, Word32];
  }

  /** tms_AnalyseSetOTDRFPGAInfo. */
  method SetOTDRFPGAInfo(mem: array<byte>)
    requires GLINK_OFFSET_DATA + 32 <= mem.Length
    modifies mem
    ensures Converted(mem, old(mem[..]), GLINK_OFFSET_DATA, FPGA_INFO)
  {
    hide Converted, Size;
    ghost var s := mem[..];
    NoSize();
    StartConverted(mem, 36);
    ghost var done := SwapNext(mem, 36, s, 36, []);
    done := SwapNext(mem, 40, s, 36, done);
    done := SwapNext(mem, 44, s, 36, done);
    done := KeepNext(mem, 16, s, 36, done);
    done := SwapNext(mem, 64, s, 36, done);
    assert done == FPGA_INFO;
  }

  /** The handlers whose record is a number of words in a row. */
  method SwapWords(mem: array<byte>, count: nat)
    requires GLINK_OFFSET_DATA + count <= mem.Length
    modifies mem
    ensures Converted(mem, old(mem[..]), GLINK_OFFSET_DATA, Repeat([Word32], count / 4))
  {
    hide Converted, Size;
    ghost var s := mem[..];
    NoSize();
    StartConverted(mem, GLINK_OFFSET_DATA);
    ghost var done := ConvNx4Byte(mem, GLINK_OFFSET_DATA, count, s, GLINK_OFFSET_DATA, []);
    assert done == Repeat([Word32], count / 4);
  }

  /** The handler of a command, unless it leaves memory. */
  method Handle(mem: array<byte>, base: nat, len: nat, cmd: u32) returns (ok: bool)
    requires Addressable(base, mem.Length) && len <= mem.Length
    modifies mem
    ensures Handled(base, old(mem[..]), len, cmd) == if ok then Done(mem[..]) else Lost
  {
    hide Locate, Sections, Size, After, WellFormed;
    RecordSize(cmd);
    WordsRepeat();
    if cmd == ID_FIBERSECTIONCFG {
      var ret := AnalyseFiberSectionCfg(mem, base, len);
      return ret.Ret?;
    }
    if cmd == ID_SETOTDRFPGAINFO {
      if mem.Length < GLINK_OFFSET_DATA + 32 {
        return false;
      }
      SetOTDRFPGAInfo(mem);
    } else if cmd == 0x8000_0014 || cmd == 0x8000_0015 {
      if mem.Length < GLINK_OFFSET_DATA + 32 {
        return false;
      }
      SwapWords(mem, 32);
    } else if 0x8000_0005 <= cmd <= 0x8000_0007 || cmd == 0x8000_0020 {
      if mem.Length < GLINK_OFFSET_DATA + 4 {
        return false;
      }
      SwapWords(mem, 4);
    } else {
      if mem.Length < GLINK_OFFSET_DATA {
        return false;
      }
      AfterNothing(mem[..], GLINK_OFFSET_DATA);
    }
    return true;
  }

  /** tms_Analyse, as far as it touches memory. */
  method TmsAnalyse(mem: array<byte>, base: nat, len: nat) returns (ok: bool)
    requires Addressable(base, mem.Length) && len <= mem.Length
    modifies mem
    ensures Analysed(base, old(mem[..]), len) == if ok then Done(mem[..]) else Lost
  {
    hide Handled, Size, After, WireWord, ActionOf, Shown;
    BaseOffsets();
    if mem.Length < GLINK_BASE_H {
      return false;
    }
    var cmd := WireWord(mem[..], GLINK_OFFSET_CMDID);
    if ActionOf(cmd) != CopyToUse {
      return true;
    }
    ok := Handle(mem, base, len, cmd);
    if ok {
      if mem.Length < GLINK_OFFSET_DATA {
        return false;
      }
      var shown := Copy2Use(mem);
    }
  }

  /** Where a call finds its frame: the address, and the free bytes of the buffer behind the data. */
  datatype Place = Place(base: nat, free: bytes)

  /** `h` does to the small buffer what tms_Analyse does, call `k` at the place `at(k)`, as
      long as that stays in the buffer. */
  ghost predicate IsAnalyse(h: Receiver.Handler, at: nat -> Place) {
    && (forall k :: Addressable(at(k).base, Receiver.BIPBUFFER_LEN + |at(k).free|))
    && (forall k: nat, s: bytes, n: nat :: n <= |s| <= Receiver.BIPBUFFER_LEN ==>
          Does(h(k, s, n), Analysed(at(k).base, s + at(k).free, n)))
  }

  /** `s` is the front of what the run has left in memory, if it has stayed there. */
  ghost predicate Does(s: bytes, r: Run) {
    r.Done? ==> s <= r.mem
  }

  /** A command whose record lies in the frame, or that converts nothing. */
  predicate Contained(cmd: u32, len: nat) {
    ActionOf(cmd) == CopyToUse ==> GLINK_OFFSET_DATA + Size(Record(cmd)) <= len
  }

  /** What tms_Analyse does to memory for a command with a record of fixed size. */
  lemma AnalysedFixed(base: nat, m: bytes, len: nat)
    requires GLINK_OFFSET_DATA <= |m|
    requires var cmd := WireWord(m, GLINK_OFFSET_CMDID);
             cmd != ID_FIBERSECTIONCFG && ActionOf(cmd) == CopyToUse && GLINK_OFFSET_DATA + Size(Record(cmd)) <= |m|
    ensures var r := After(m, GLINK_OFFSET_DATA, Record(WireWord(m, GLINK_OFFSET_CMDID)));
            && 4 + Size(BASE_HDR) == GLINK_OFFSET_DATA
            && Analysed(base, m, len) == Done(After(r, 4, BASE_HDR))
            && After(r, 4, BASE_HDR)[GLINK_OFFSET_DATA..] == r[GLINK_OFFSET_DATA..]
  {
    hide Size, After, WireWord, ActionOf, Record;
    BaseOffsets();
    AfterOutside(After(m, GLINK_OFFSET_DATA, Record(WireWord(m, GLINK_OFFSET_CMDID))), 4, BASE_HDR);
  }

  // What memory holds afterwards, command by command. Those that are handled and copied to
  // the application are 0x20000000, 0x80000000, 0x80000004 to 0x80000009, 0x80000010 to
  // 0x80000018, 0x80000020 and 0x80000021.

  /** Every other command leaves memory as it is. */
  lemma OtherCommands(base: nat, m: bytes, len: nat)
    requires 32 <= |m|
    ensures var cmd := WireWord(m, 28);
            && cmd != 0x2000_0000 && cmd != 0x8000_0000 && !(0x8000_0004 <= cmd <= 0x8000_0009)
            && !(0x8000_0010 <= cmd <= 0x8000_0018) && cmd != 0x8000_0020 && cmd != 0x8000_0021
            ==> Analysed(base, m, len) == Done(m)
  {
    hide WireWord, Handled, Step;
  }

  /** A message whose command lies behind the end of memory. */
  lemma NoCommand(base: nat, m: bytes, len: nat)
    requires |m| < 32
    ensures Analysed(base, m, len) == Lost
  {
  }

  /** The commands with a record of fixed size stay in memory when it does, and then the base
      header reads its wire values in host order, between its unchanged tag and the record. */
  lemma FixedHeader(base: nat, m: bytes, len: nat)
    requires 36 <= |m|
    requires var cmd := WireWord(m, 28);
             || cmd == 0x2000_0000 || cmd == 0x8000_0000 || 0x8000_0005 <= cmd <= 0x8000_0009
             || 0x8000_0010 <= cmd <= 0x8000_0018 || cmd == 0x8000_0020 || cmd == 0x8000_0021
    ensures var cmd, a := WireWord(m, 28), Analysed(base, m, len);
            var need := if cmd == 0x2000_0000 || cmd == 0x8000_0014 || cmd == 0x8000_0015 then 68
                        else if 0x8000_0005 <= cmd <= 0x8000_0007 || cmd == 0x8000_0020 then 40 else 36;
            if |m| < need then a == Lost
            else
              && a.Done? && |a.mem| == |m| && a.mem[..4] == m[..4] && a.mem[need..] == m[need..]
              && HeaderRead(m, a.mem)
  {
    hide Size, WireWord, HeaderRead, Analysed, ActionOf, Record;
    var cmd := WireWord(m, 28);
    FixedRecord(cmd);
    if |m| < 36 + Size(Record(cmd)) {
      RecordLost(base, m, len);
    } else {
      RecordKept(base, m, len);
    }
  }

  lemma RecordLost(base: nat, m: bytes, len: nat)
    requires 36 <= |m| < 36 + Size(Record(WireWord(m, 28)))
    requires ActionOf(WireWord(m, 28)) == CopyToUse && WireWord(m, 28) != ID_FIBERSECTIONCFG
    ensures Analysed(base, m, len) == Lost
  {
    hide Size, After, WireWord, ActionOf, Record;
  }

  lemma RecordKept(base: nat, m: bytes, len: nat)
    requires 36 <= |m| && 36 + Size(Record(WireWord(m, 28))) <= |m|
    requires ActionOf(WireWord(m, 28)) == CopyToUse && WireWord(m, 28) != ID_FIBERSECTIONCFG
    ensures var a, end := Analysed(base, m, len), 36 + Size(Record(WireWord(m, 28)));
            && a.Done? && |a.mem| == |m| && a.mem[..4] == m[..4] && a.mem[end..] == m[end..]
            && HeaderRead(m, a.mem)
  {
    hide Size, After, WireWord, HeaderRead, Analysed, ActionOf, Record;
    var cmd := WireWord(m, 28);
    var end := 36 + Size(Record(cmd));
    AnalysedFixed(base, m, len);
    AfterOutside(m, 36, Record(cmd));
    var r := After(m, 36, Record(cmd));
    HeaderReads(m, r, After(r, 4, BASE_HDR));
    TailEqual(After(r, 4, BASE_HDR), r, m, 36, end, end);
  }

  lemma FixedRecord(cmd: u32)
    requires cmd == 0x2000_0000 || cmd == 0x8000_0000 || 0x8000_0005 <= cmd <= 0x8000_0009
             || 0x8000_0010 <= cmd <= 0x8000_0018 || cmd == 0x8000_0020 || cmd == 0x8000_0021
    ensures ActionOf(cmd) == CopyToUse
    ensures Size(Record(cmd)) == if cmd == 0x2000_0000 || cmd == 0x8000_0014 || cmd == 0x8000_0015 then 32
                                 else if 0x8000_0005 <= cmd <= 0x8000_0007 || cmd == 0x8000_0020 then 4 else 0
  {
    hide Size;
    RecordSize(cmd);
  }

  /** Every word of the base header, in host order. */
  predicate HeaderRead(s: bytes, r: bytes)
    requires 36 <= |s| && 36 <= |r|
  {
    && HostWord(r, 4) == WireWord(s, 4) && HostWord(r, 8) == WireWord(s, 8)
    && HostWord(r, 12) == WireWord(s, 12) && HostWord(r, 16) == WireWord(s, 16)
    && HostHalf(r, 20) == WireHalf(s, 20) && HostHalf(r, 22) == WireHalf(s, 22)
    && HostWord(r, 24) == WireWord(s, 24) && HostWord(r, 28) == WireWord(s, 28)
    && HostWord(r, 32) == WireWord(s, 32)
  }

  /** The header conversion, behind one that has kept the header. */
  lemma HeaderReads(m: bytes, t: bytes, r: bytes)
    requires 36 <= |m| == |t| && t[..36] == m[..36]
    requires 4 + Size(BASE_HDR) <= |t| && r == After(t, 4, BASE_HDR)
    ensures |r| == |m| && HeaderRead(m, r) && r[..4] == m[..4] && r[36..] == t[36..]
  {
    hide After, Size, WireWord, HostWord, WireHalf, HostHalf;
    BaseFields(t, r);
    SamePrefix(m, t);
    assert r[..4] == t[..4] == t[..36][..4] == m[..36][..4] == m[..4];
  }

  lemma SamePrefix(m: bytes, t: bytes)
    requires 36 <= |m| == |t| && t[..36] == m[..36]
    ensures forall i: nat :: i + 4 <= 36 ==> WireWord(t, i) == WireWord(m, i)
    ensures forall i: nat :: i + 2 <= 36 ==> WireHalf(t, i) == WireHalf(m, i)
  {
    hide WireWord, WireHalf;
    forall i: nat | i + 2 <= 36
      ensures i + 4 <= 36 ==> WireWord(t, i) == WireWord(m, i)
      ensures WireHalf(t, i) == WireHalf(m, i)
    {
      ReadLeft(t[..36], t[36..], i);
      ReadLeft(m[..36], m[36..], i);
      assert t[..36] + t[36..] == t && m[..36] + m[36..] == m;
    }
  }

  /** 0x80000005 to 0x80000007 and 0x80000020: one word behind the header. */
  lemma OneWordRead(base: nat, m: bytes, len: nat)
    requires 40 <= |m|
    requires var cmd := WireWord(m, 28); 0x8000_0005 <= cmd <= 0x8000_0007 || cmd == 0x8000_0020
    ensures Analysed(base, m, len).Done? && |Analysed(base, m, len).mem| == |m|
    ensures HostWord(Analysed(base, m, len).mem, 36) == WireWord(m, 36)
  {
    hide Size, After, WireWord, HostWord, FieldConverted, Offset;
    RecordSize(WireWord(m, 28));
    AnalysedFixed(base, m, len);
    OffsetZero(ONE_WORD);
    AfterFields(m, 36, ONE_WORD, 0);
    var r := After(m, 36, ONE_WORD);
    WordField(ONE_WORD[0], m, r, 36);
    SameSuffix(r, Analysed(base, m, len).mem);
  }

  /** Words behind the header read the same after its conversion. */
  lemma SameSuffix(t: bytes, r: bytes)
    requires 36 <= |t| == |r| && t[36..] == r[36..]
    ensures forall i: nat :: 36 <= i && i + 4 <= |t| ==> HostWord(r, i) == HostWord(t, i)
    ensures forall i: nat, j: nat :: 36 <= i <= j <= |t| ==> r[i..j] == t[i..j]
  {
    forall i | 36 <= i < |t| ensures t[i] == r[i] {
      assert t[36..][i - 36] == r[36..][i - 36];
    }
  }

  /** 0x80000014 and 0x80000015: eight words. */
  lemma EightWordsRead(base: nat, m: bytes, len: nat)
    requires 68 <= |m|
    requires WireWord(m, 28) == 0x8000_0014 || WireWord(m, 28) == 0x8000_0015
    ensures Analysed(base, m, len).Done? && |Analysed(base, m, len).mem| == |m|
    ensures var r := Analysed(base, m, len).mem;
            && HostWord(r, 36) == WireWord(m, 36) && HostWord(r, 40) == WireWord(m, 40)
            && HostWord(r, 44) == WireWord(m, 44) && HostWord(r, 48) == WireWord(m, 48)
            && HostWord(r, 52) == WireWord(m, 52) && HostWord(r, 56) == WireWord(m, 56)
            && HostWord(r, 60) == WireWord(m, 60) && HostWord(r, 64) == WireWord(m, 64)
  {
    hide Size, After, WireWord, HostWord, FieldConverted, Offset, Analysed;
    RecordSize(WireWord(m, 28));
    AnalysedFixed(base, m, len);
    RecordOffsets();
    var t := After(m, 36, GET_OTDRDATA);
    forall j: nat | j < 8 ensures FieldConverted(GET_OTDRDATA[j], m, t, 36 + Offset(GET_OTDRDATA, j)) {
      AfterFields(m, 36, GET_OTDRDATA, j);
    }
    WordField(GET_OTDRDATA[0], m, t, 36);
    WordField(GET_OTDRDATA[1], m, t, 40);
    WordField(GET_OTDRDATA[2], m, t, 44);
    WordField(GET_OTDRDATA[3], m, t, 48);
    WordField(GET_OTDRDATA[4], m, t, 52);
    WordField(GET_OTDRDATA[5], m, t, 56);
    WordField(GET_OTDRDATA[6], m, t, 60);
    WordField(GET_OTDRDATA[7], m, t, 64);
    SameSuffix(t, Analysed(base, m, len).mem);
  }

  lemma RecordOffsets()
    ensures Offset(GET_OTDRDATA, 0) == 0 && Offset(GET_OTDRDATA, 1) == 4 && Offset(GET_OTDRDATA, 2) == 8
    ensures Offset(GET_OTDRDATA, 3) == 12 && Offset(GET_OTDRDATA, 4) == 16 && Offset(GET_OTDRDATA, 5) == 20
    ensures Offset(GET_OTDRDATA, 6) == 24 && Offset(GET_OTDRDATA, 7) == 28
    ensures Offset(FPGA_INFO, 0) == 0 && Offset(FPGA_INFO, 1) == 4 && Offset(FPGA_INFO, 2) == 8
    ensures Offset(FPGA_INFO, 3) == 12 && Offset(FPGA_INFO, 4) == 28
  {
    hide Offset;
    assert forall k: nat :: k < 8 ==> GET_OTDRDATA[k] == Word32;
    OffsetZero(GET_OTDRDATA);
    forall k: nat | k < 7 ensures Offset(GET_OTDRDATA, k + 1) == Offset(GET_OTDRDATA, k) + 4 {
      OffsetNext(GET_OTDRDATA, k);
      assert GET_OTDRDATA[k] == Word32;
    }
    OffsetZero(FPGA_INFO);
    forall k: nat | k < 4 ensures Offset(FPGA_INFO, k + 1) == Offset(FPGA_INFO, k) + FPGA_INFO[k].Size() {
      OffsetNext(FPGA_INFO, k);
    }
  }

  /** 0x20000000: three words, a text of 16 bytes that is kept, and a word. */
  lemma FpgaInfoRead(base: nat, m: bytes, len: nat)
    requires 68 <= |m| && WireWord(m, 28) == 0x2000_0000
    ensures Analysed(base, m, len).Done? && |Analysed(base, m, len).mem| == |m|
    ensures var r := Analysed(base, m, len).mem;
            && HostWord(r, 36) == WireWord(m, 36) && HostWord(r, 40) == WireWord(m, 40)
            && HostWord(r, 44) == WireWord(m, 44) && HostWord(r, 64) == WireWord(m, 64)
            && r[48..64] == m[48..64]
  {
    hide Size, After, WireWord, HostWord, FieldConverted, Offset, Analysed;
    RecordSize(WireWord(m, 28));
    AnalysedFixed(base, m, len);
    RecordOffsets();
    var t := After(m, 36, FPGA_INFO);
    forall j: nat | j < 5 ensures FieldConverted(FPGA_INFO[j], m, t, 36 + Offset(FPGA_INFO, j)) {
      AfterFields(m, 36, FPGA_INFO, j);
    }
    WordField(FPGA_INFO[0], m, t, 36);
    WordField(FPGA_INFO[1], m, t, 40);
    WordField(FPGA_INFO[2], m, t, 44);
    TextField(FPGA_INFO[3], 16, m, t, 48);
    WordField(FPGA_INFO[4], m, t, 64);
    SameSuffix(t, Analysed(base, m, len).mem);
  }

  /** 0x80000004, well-formed: the message and the base header are in host order. */
  lemma FiberRead(base: nat, m: bytes, len: nat, c: Counts)
    requires Addressable(base, |m|) && len <= |m| && WellFormed(m, len, c) && WireWord(m, 28) == 0x8000_0004
    ensures var a := Analysed(base, m, len);
            && a.Done? && |a.mem| == |m|
            && HeaderRead(m, a.mem) && a.mem[..4] == m[..4] && a.mem[36..] == InHostOrder(m, c)[36..]
  {
    hide Size, After, WireWord, Sections, Locate, InHostOrder, WellFormed, CountsAt, HeaderRead;
    WellFormedIn(m, len, c);
    LocateExact(base, m, len, c);
    SectionsWellFormed(m, c);
    OutsideKept(m, c);
    BaseOffsets();
    HeaderReads(m, InHostOrder(m, c), After(InHostOrder(m, c), 4, BASE_HDR));
  }

  lemma WellFormedIn(m: bytes, len: nat, c: Counts)
    requires WellFormed(m, len, c)
    ensures CountsAt(m, c) && c.End() <= |m|
  {
  }

  /** 0x80000004, turned down by the first guard: only the base header is in host order. */
  lemma FiberTurnedDown(base: nat, m: bytes, len: nat)
    requires Addressable(base, |m|) && 60 <= |m| && len <= |m| && WireWord(m, 28) == 0x8000_0004
    requires base + len - 288 < (base + 60 + 288 * (WireWord(m, 56) as int - 1)) % 0x1_0000_0000
    ensures var a := Analysed(base, m, len);
            && a.Done? && |a.mem| == |m|
            && HeaderRead(m, a.mem) && a.mem[..4] == m[..4] && a.mem[36..] == m[36..]
  {
    hide Size, After, WireWord, Sections, Locate, HeaderRead;
    WalkEnds(base, m, len);
    BaseOffsets();
    HeaderReads(m, m, After(m, 4, BASE_HDR));
  }

  /** For any memory and any such command: tms_Analyse leaves everything behind the frame
      alone exactly when each field of the record lies inside the frame, or is the same
      backwards as far as it does not. */
  lemma BehindFrame(base: nat, m: bytes, len: nat)
    requires GLINK_OFFSET_DATA <= len <= |m|
    requires var cmd := WireWord(m, GLINK_OFFSET_CMDID);
             cmd != ID_FIBERSECTIONCFG && ActionOf(cmd) == CopyToUse && GLINK_OFFSET_DATA + Size(Record(cmd)) <= |m|
    ensures var rec := Record(WireWord(m, GLINK_OFFSET_CMDID));
            Analysed(base, m, len).Done? && |Analysed(base, m, len).mem| == |m| &&
            (Analysed(base, m, len).mem[len..] == m[len..] <==>
             forall k: nat :: k < |rec| ==> SameBehind(rec[k], m, GLINK_OFFSET_DATA + Offset(rec, k), len))
  {
    hide Size, Offset, After, WireWord, ActionOf, Record, SameBehind;
    AnalysedFixed(base, m, len);
    var rec := Record(WireWord(m, GLINK_OFFSET_CMDID));
    BehindKept(m, GLINK_OFFSET_DATA, rec, len);
    var r := After(m, GLINK_OFFSET_DATA, rec);
    assert After(r, 4, BASE_HDR)[len..] == After(r, 4, BASE_HDR)[GLINK_OFFSET_DATA..][len - GLINK_OFFSET_DATA..];
    assert r[len..] == r[GLINK_OFFSET_DATA..][len - GLINK_OFFSET_DATA..];
  }

  /** What memory holds behind the frame `f` after a call is what the buffer holds there. */
  lemma CallBehind(h: Receiver.Handler, at: nat -> Place, f: bytes, k: nat, t: bytes)
    requires IsAnalyse(h, at) && |f + t| <= Receiver.BIPBUFFER_LEN
    requires var m := f + t + at(k).free; var r := Analysed(at(k).base, m, |f|); r.Done? && |r.mem| == |m|
    ensures h(k, f + t, |f|)[|f|..] == Analysed(at(k).base, f + t + at(k).free, |f|).mem[|f|..|f + t|]
  {
    hide Analysed;
    var s := f + t;
    assert Does(h(k, s, |f|), Analysed(at(k).base, s + at(k).free, |f|));
  }

  lemma CommandIn(f: bytes, t: bytes, free: bytes)
    requires GLINK_OFFSET_DATA <= |f|
    ensures WireWord(f + t + free, GLINK_OFFSET_CMDID) == WireWord(f, GLINK_OFFSET_CMDID)
  {
    hide WireWord;
    ReadLeft(f, t, GLINK_OFFSET_CMDID);
    ReadLeft(f + t, free, GLINK_OFFSET_CMDID);
  }

  lemma SuffixOf(f: bytes, t: bytes, free: bytes, r: bytes)
    requires |r| == |f + t + free| && r[|f|..] == (f + t + free)[|f|..]
    ensures r[|f|..|f + t|] == t
  {
    assert r[|f|..|f + t|] == r[|f|..][..|t|];
    assert (f + t + free)[|f|..][..|t|] == t;
  }

  lemma ContainedKeeps(h: Receiver.Handler, at: nat -> Place, f: bytes)
    requires IsAnalyse(h, at) && GLINK_OFFSET_DATA <= |f|
    requires var cmd := WireWord(f, GLINK_OFFSET_CMDID); cmd != ID_FIBERSECTIONCFG && Contained(cmd, |f|)
    ensures Receiver.KeepsBehind(h, f)
  {
    hide IsAnalyse, Size, WireWord, ActionOf, Record, After, SameBehind, Offset;
    forall k: nat, t: bytes | |f + t| <= Receiver.BIPBUFFER_LEN ensures h(k, f + t, |f|)[|f|..] == t {
      var m, base := f + t + at(k).free, at(k).base;
      CommandIn(f, t, at(k).free);
      var cmd := WireWord(f, GLINK_OFFSET_CMDID);
      if ActionOf(cmd) == CopyToUse {
        AnalysedFixed(base, m, |f|);
        AfterOutside(m, GLINK_OFFSET_DATA, Record(cmd));
        TailEqual(Analysed(base, m, |f|).mem, After(m, GLINK_OFFSET_DATA, Record(cmd)), m,
                  GLINK_OFFSET_DATA, GLINK_OFFSET_DATA + Size(Record(cmd)), |f|);
      }
      CallBehind(h, at, f, k, t);
      SuffixOf(f, t, at(k).free, Analysed(base, m, |f|).mem);
    }
  }

  lemma TailEqual(a: bytes, b: bytes, c: bytes, i: nat, j: nat, n: nat)
    requires |a| == |b| == |c| && i <= j <= n <= |a|
    requires a[i..] == b[i..] && b[j..] == c[j..]
    ensures a[n..] == c[n..]
  {
    assert a[n..] == a[i..][n - i..] == b[n..];
    assert b[n..] == b[j..][n - j..];
    assert c[n..] == c[j..][n - j..];
  }

  /** Every record that is not empty ends with a word. */
  lemma RecordEnds(cmd: u32)
    requires Record(cmd) != []
    ensures var rec := Record(cmd); var k := |rec| - 1; rec[k] == Word32 && Offset(rec, k) + 4 == Size(rec)
  {
    hide Size, Offset;
    var rec := Record(cmd);
    OffsetNext(rec, |rec| - 1);
    SizeIsOffset(rec);
  }

  lemma LastByte(m: bytes, cmd: u32)
    requires Record(cmd) != [] && GLINK_OFFSET_DATA + Size(Record(cmd)) <= |m|
    ensures var end := GLINK_OFFSET_DATA + Size(Record(cmd));
            4 <= end && After(m, GLINK_OFFSET_DATA, Record(cmd))[end - 1] == m[end - 4]
  {
    hide Size, Mirror, Offset;
    RecordEnds(cmd);
    var rec := Record(cmd);
    MirrorField(rec, |rec| - 1, 3);
    assert Perm(GLINK_OFFSET_DATA, rec, GLINK_OFFSET_DATA + Size(rec) - 1) == GLINK_OFFSET_DATA + Size(rec) - 4;
  }

  /** Bytes to put behind a frame of fewer than `end` bytes, so that the four in front of
      `end` are not the same backwards. */
  function Spoiled(f: bytes, end: nat): (t: bytes)
    requires 4 <= end && |f| < end
    ensures |f + t| == end && (f + t)[end - 1] != (f + t)[end - 4]
  {
    var zeros := seq(end - |f| - 1, _ => 0);
    zeros + [if (f + zeros + [0])[end - 4] == 0 then 1 else 0]
  }

  lemma NotContainedSpoils(h: Receiver.Handler, at: nat -> Place, f: bytes)
    requires IsAnalyse(h, at) && GLINK_OFFSET_DATA <= |f|
    requires var cmd := WireWord(f, GLINK_OFFSET_CMDID); cmd != ID_FIBERSECTIONCFG && !Contained(cmd, |f|)
    ensures !Receiver.KeepsBehind(h, f)
  {
    hide IsAnalyse, Size, WireWord, ActionOf, Record, After, Spoiled;
    var cmd := WireWord(f, GLINK_OFFSET_CMDID);
    RecordSize(cmd);
    RecordNotEmpty(cmd);
    var end := GLINK_OFFSET_DATA + Size(Record(cmd));
    var t, free, base := Spoiled(f, end), at(0).free, at(0).base;
    var m := f + t + free;
    CommandIn(f, t, free);
    AnalysedFixed(base, m, |f|);
    LastByte(m, cmd);
    var mem, r := Analysed(base, m, |f|).mem, After(m, GLINK_OFFSET_DATA, Record(cmd));
    assert mem[end - 1] == mem[GLINK_OFFSET_DATA..][end - 1 - GLINK_OFFSET_DATA] == r[end - 1];
    CallBehind(h, at, f, 0, t);
    assert mem[|f|..|f + t|][end - 1 - |f|] == m[end - 4] != t[end - 1 - |f|];
  }

  lemma RecordNotEmpty(cmd: u32)
    requires 0 < Size(Record(cmd))
    ensures Record(cmd) != []
  {
  }

  /** Exactly the frames that hold the record of their command leave alone what is behind them. */
  lemma KeepsExact(h: Receiver.Handler, at: nat -> Place, f: bytes)
    requires IsAnalyse(h, at) && GLINK_OFFSET_DATA <= |f| && WireWord(f, GLINK_OFFSET_CMDID) != ID_FIBERSECTIONCFG
    ensures Receiver.KeepsBehind(h, f) <==> Contained(WireWord(f, GLINK_OFFSET_CMDID), |f|)
  {
    hide IsAnalyse, Contained, WireWord, Receiver.KeepsBehind;
    if Contained(WireWord(f, GLINK_OFFSET_CMDID), |f|) {
      ContainedKeeps(h, at, f);
    } else {
      NotContainedSpoils(h, at, f);
    }
  }

  /** The same in numbers. */
  lemma KeepsInNumbers(h: Receiver.Handler, at: nat -> Place, f: bytes)
    requires IsAnalyse(h, at) && 36 <= |f| && WireWord(f, 28) != 0x8000_0004
    ensures var cmd := WireWord(f, 28);
            if cmd == 0x2000_0000 || cmd == 0x8000_0014 || cmd == 0x8000_0015
            then Receiver.KeepsBehind(h, f) <==> 68 <= |f|
            else if 0x8000_0005 <= cmd <= 0x8000_0007 || cmd == 0x8000_0020
            then Receiver.KeepsBehind(h, f) <==> 40 <= |f|
            else Receiver.KeepsBehind(h, f)
  {
    hide IsAnalyse, WireWord, Receiver.KeepsBehind, Size;
    RecordSize(WireWord(f, 28));
    KeepsExact(h, at, f);
  }

  /** A well-formed fibre-section message leaves alone what is behind it. */
  lemma FiberKeeps(h: Receiver.Handler, at: nat -> Place, f: bytes, c: Counts)
    requires IsAnalyse(h, at) && GLINK_OFFSET_DATA <= |f| && WireWord(f, GLINK_OFFSET_CMDID) == ID_FIBERSECTIONCFG
    requires WellFormed(f, |f|, c)
    ensures Receiver.KeepsBehind(h, f)
  {
    hide IsAnalyse, Analysed, Addressable, WireWord, WellFormed;
    forall k: nat, t: bytes | |f + t| <= Receiver.BIPBUFFER_LEN ensures h(k, f + t, |f|)[|f|..] == t {
      var m, base := f + t + at(k).free, at(k).base;
      PlaceFits(h, at, k, |m|);
      assert f + (t + at(k).free) == m;
      AnalysedFiber(base, f, t + at(k).free, c);
      CallBehind(h, at, f, k, t);
      SuffixOf(f, t, at(k).free, Analysed(base, m, |f|).mem);
    }
  }

  lemma PlaceFits(h: Receiver.Handler, at: nat -> Place, k: nat, size: nat)
    requires IsAnalyse(h, at) && size <= Receiver.BIPBUFFER_LEN + |at(k).free|
    ensures Addressable(at(k).base, size)
  {
  }

  lemma WellFormedExtends(f: bytes, t: bytes, c: Counts)
    requires WellFormed(f, |f|, c)
    ensures WellFormed(f + t, |f|, c) && CountsAt(f + t, c) && c.End() <= |f|
  {
    hide WireWord;
    ReadLeft(f, t, GLINK_OFFSET_DATA + 20);
    ReadLeft(f, t, c.OtdrHdr() + 12);
    ReadLeft(f, t, c.EventHdr() + 12);
  }

  lemma AnalysedFiber(base: nat, f: bytes, t: bytes, c: Counts)
    requires Addressable(base, |f + t|) && GLINK_OFFSET_DATA <= |f| && WellFormed(f, |f|, c)
    requires WireWord(f, GLINK_OFFSET_CMDID) == ID_FIBERSECTIONCFG
    ensures var r := Analysed(base, f + t, |f|);
            r.Done? && |r.mem| == |f + t| && r.mem[|f|..] == (f + t)[|f|..]
  {
    hide Size, WireWord, After, Sections, Locate, InHostOrder, WellFormed, CountsAt;
    var m := f + t;
    ReadLeft(f, t, GLINK_OFFSET_CMDID);
    WellFormedExtends(f, t, c);
    LocateExact(base, m, |f|, c);
    SectionsWellFormed(m, c);
    OutsideKept(m, c);
    BaseOffsets();
    var r := InHostOrder(m, c);
    AfterOutside(r, 4, BASE_HDR);
    TailEqual(After(r, 4, BASE_HDR), r, m, GLINK_OFFSET_DATA, c.End(), |f|);
  }

  ghost predicate WellFormedFrame(f: bytes) {
    exists c :: WellFormed(f, |f|, c)
  }

  /** A message whose handling stays in its frame. */
  ghost predicate Harmless(m: Msg)
    requires m.Sendable()
  {
    if m.cmdid == ID_FIBERSECTIONCFG then WellFormedFrame(m.Encode())
    else Contained(m.cmdid, MIN_FRAME + |m.payload|)
  }

  /** 28 bytes of payload are enough for every command but the fibre-section message. */
  lemma LongPayload(m: Msg)
    requires m.Sendable() && 28 <= |m.payload| && m.cmdid != ID_FIBERSECTIONCFG
    ensures Harmless(m)
  {
    hide Size, Record;
    RecordSize(m.cmdid);
  }

  /** The same in numbers: of the messages of a fixed size only these three commands can do harm. */
  lemma HarmlessExact(m: Msg)
    requires m.Sendable() && m.cmdid != 0x8000_0004
    ensures Harmless(m) <==>
            (m.cmdid == 0x2000_0000 || m.cmdid == 0x8000_0014 || m.cmdid == 0x8000_0015 ==> 28 <= |m.payload|)
  {
    hide Size;
    RecordSize(m.cmdid);
  }

  lemma HarmlessKeeps(h: Receiver.Handler, at: nat -> Place, m: Msg)
    requires IsAnalyse(h, at) && m.Sendable() && Harmless(m)
    ensures Receiver.KeepsBehind(h, m.Encode())
  {
    hide IsAnalyse, Msg.Encode, Contained, WellFormed, WireWord, Receiver.KeepsBehind;
    EncodeFields(m);
    if m.cmdid == ID_FIBERSECTIONCFG {
      var f := m.Encode();
      var c :| WellFormed(f, |f|, c);
      FiberKeeps(h, at, f, c);
    } else {
      KeepsExact(h, at, m.Encode());
    }
  }

  /** End to end with the handlers of the node: messages whose handling stays in their frames
      are delivered whole, in order and none twice, between any noise in which no frame starts
      and however the bytes are cut into reads. */
  lemma DeliveredToNode(h: Receiver.Handler, at: nat -> Place, items: seq<Item>, trailing: bytes, chunks: seq<bytes>)
    requires IsAnalyse(h, at) && AllValid(items)
    requires forall i :: 0 <= i < |items| ==> Harmless(items[i].msg)
    requires Frameless(trailing, |trailing|)
    requires Receiver.Admissible(h, Receiver.INITIAL, chunks)
    requires Flatten(chunks) <= Stream(items) + trailing
    ensures var r := Receiver.Run(h, Receiver.INITIAL, chunks);
            && r.defined && r.frames <= Frames(items)
            && (Flatten(chunks) == Stream(items) + trailing ==> r.frames == Frames(items))
  {
    hide IsAnalyse, Harmless, Stream, Frames, Frameless, Receiver.KeepsBehind, Receiver.Run, Receiver.Admissible;
    forall i | 0 <= i < |items| ensures Receiver.KeepsBehind(h, items[i].msg.Encode()) {
      HarmlessKeeps(h, at, items[i].msg);
    }
    Delivered(h, items, trailing, chunks);
  }

  /** Memory keeps its length. */
  lemma AnalysedLength(base: nat, m: bytes, len: nat)
    ensures Analysed(base, m, len).Done? ==> |Analysed(base, m, len).mem| == |m|
  {
    hide Size, After, WireWord, Locate, Repeat, Loops, EventLoops, Wrap, CountIn;
  }

  /** There is such a handler for every place the buffer can be at. */
  lemma SomeAnalyse(at: nat -> Place) returns (h: Receiver.Handler)
    requires forall k :: Addressable(at(k).base, Receiver.BIPBUFFER_LEN + |at(k).free|)
    ensures IsAnalyse(h, at)
  {
    hide Analysed;
    forall k: nat, s: bytes, n: nat ensures
      var r := Analysed(at(k).base, s + at(k).free, n);
      r.Done? ==> |r.mem| == |s + at(k).free|
    {
      AnalysedLength(at(k).base, s + at(k).free, n);
    }
    h := (k: nat, s: bytes, n: nat) =>
      var r := Analysed(at(k).base, s + at(k).free, n); if r.Done? then r.mem[..|s|] else s;
  }

  lemma EncodedAlone(m: Msg)
    requires m.Sendable()
    ensures |m.Encode()| == MIN_FRAME + |m.payload| && Find(m.Encode()) == Scan(0, |m.Encode()|)
  {
    hide Msg.Encode, Find;
    EncodeFields(m);
    EncodedFrame(m, []);
    assert m.Encode() + [] == m.Encode();
  }

  /** Setting the OTDR parameters without any spoils the head tag of the message behind. */
  lemma HeadSpoiled(h: Receiver.Handler, at: nat -> Place, f: bytes, e: bytes)
    requires IsAnalyse(h, at) && |f| == |e| == MIN_FRAME && HeadAt(e, 0)
    requires WireWord(f, GLINK_OFFSET_CMDID) == ID_SETOTDRFPGAINFO
    ensures !HeadAt(h(0, f + e, |f|)[|f|..], 0)
  {
    hide IsAnalyse, WireWord, Analysed, After, Size, Mirror, Offset;
    var m, base := f + e + at(0).free, at(0).base;
    CommandIn(f, e, at(0).free);
    RecordSize(ID_SETOTDRFPGAINFO);
    AnalysedFixed(base, m, |f|);
    SecondWord(m);
    CallBehind(h, at, f, 0, e);
    var mem := Analysed(base, m, |f|).mem;
    assert m[GLINK_OFFSET_DATA + 7] == e[3];
    assert mem[MIN_FRAME] == mem[GLINK_OFFSET_DATA..][4];
    assert mem[|f|..|f + e|][0] == mem[MIN_FRAME];
  }

  lemma SecondWord(m: bytes)
    requires GLINK_OFFSET_DATA + Size(FPGA_INFO) <= |m| && 8 <= Size(FPGA_INFO)
    ensures After(m, GLINK_OFFSET_DATA, FPGA_INFO)[GLINK_OFFSET_DATA..][4] == m[GLINK_OFFSET_DATA + 7]
  {
    assert Mirror(FPGA_INFO, 4) == 7;
    hide Mirror, Size;
    assert Perm(GLINK_OFFSET_DATA, FPGA_INFO, GLINK_OFFSET_DATA + 4) == GLINK_OFFSET_DATA + 7;
  }

  /** Two messages of no payload, the first of them ID_SETOTDRFPGAINFO: read one by one both are
      delivered, but read at once the second is lost. */
  lemma NextLost(h: Receiver.Handler, at: nat -> Place, a: Addr, b: Addr, cmd: u32)
    requires IsAnalyse(h, at)
    ensures var e, f := Msg(a, ID_SETOTDRFPGAINFO, []).Encode(), Msg(b, cmd, []).Encode();
            && Receiver.Admissible(h, Receiver.INITIAL, [e, f]) && Receiver.Admissible(h, Receiver.INITIAL, [e + f])
            && Receiver.Run(h, Receiver.INITIAL, [e, f]).frames == [e, f]
            && Receiver.Run(h, Receiver.INITIAL, [e + f]).frames == [e]
  {
    ReadOneByOne(h, a, b, cmd);
    ReadAtOnce(h, at, a, b, cmd);
  }

  lemma ReadOneByOne(h: Receiver.Handler, a: Addr, b: Addr, cmd: u32)
    ensures var e, f := Msg(a, ID_SETOTDRFPGAINFO, []).Encode(), Msg(b, cmd, []).Encode();
            && Receiver.Admissible(h, Receiver.INITIAL, [e, f])
            && Receiver.Run(h, Receiver.INITIAL, [e, f]).frames == [e, f]
  {
    hide Msg.Encode, Receiver.Receive, Find;
    var m1, m2 := Msg(a, ID_SETOTDRFPGAINFO, []), Msg(b, cmd, []);
    EncodedAlone(m1);
    EncodedAlone(m2);
    var e, f := m1.Encode(), m2.Encode();
    Receiver.ArrivesAlone(h, Receiver.INITIAL, e);
    Receiver.ArrivesAlone(h, Receiver.Receive(h, Receiver.INITIAL, e).st, f);
    TwoReads(h, Receiver.INITIAL, e, f);
  }

  /** A run of two reads. */
  lemma TwoReads(h: Receiver.Handler, st: Receiver.Rx, c: bytes, d: bytes)
    requires Receiver.Fits(st, c) && Receiver.Receive(h, st, c).defined
    requires Receiver.Fits(Receiver.Receive(h, st, c).st, d)
    requires Receiver.Receive(h, Receiver.Receive(h, st, c).st, d).defined
    ensures Receiver.Admissible(h, st, [c, d])
    ensures Receiver.Run(h, st, [c, d]).frames ==
            Receiver.Receive(h, st, c).frames + Receiver.Receive(h, Receiver.Receive(h, st, c).st, d).frames
  {
    hide Receiver.Receive, Receiver.Fits;
    assert [c, d][1..] == [d];
    OneRead(h, Receiver.Receive(h, st, c).st, d);
  }

  lemma OneRead(h: Receiver.Handler, st: Receiver.Rx, c: bytes)
    requires Receiver.Fits(st, c) && Receiver.Receive(h, st, c).defined
    ensures Receiver.Admissible(h, st, [c])
    ensures Receiver.Run(h, st, [c]).frames == Receiver.Receive(h, st, c).frames
    ensures Receiver.Run(h, st, [c]).defined
  {
    hide Receiver.Receive, Receiver.Fits;
    var none: seq<bytes> := [];
    assert [c][1..] == none;
  }

  lemma ReadAtOnce(h: Receiver.Handler, at: nat -> Place, a: Addr, b: Addr, cmd: u32)
    requires IsAnalyse(h, at)
    ensures var e, f := Msg(a, ID_SETOTDRFPGAINFO, []).Encode(), Msg(b, cmd, []).Encode();
            && Receiver.Admissible(h, Receiver.INITIAL, [e + f])
            && Receiver.Run(h, Receiver.INITIAL, [e + f]).frames == [e]
  {
    hide IsAnalyse, Msg.Encode, HeadAt, TailAt, WireWord, Find, Receiver.Receive, Receiver.Run, Receiver.Admissible;
    var m1, m2 := Msg(a, ID_SETOTDRFPGAINFO, []), Msg(b, cmd, []);
    var e, f := m1.Encode(), m2.Encode();
    EncodeFields(m1);
    EncodeFields(m2);
    EncodedFrame(m1, f);
    HeadSpoiled(h, at, e, f);
    FirstAlone(h, e, f);
    OneRead(h, Receiver.INITIAL, e + f);
  }

  /** Two least frames in one read, the second of which loses its head tag. */
  lemma FirstAlone(h: Receiver.Handler, e: bytes, f: bytes)
    requires |e| == |f| == MIN_FRAME && Find(e + f) == Scan(0, MIN_FRAME)
    requires !HeadAt(h(0, e + f, |e|)[|e|..], 0)
    ensures Receiver.Fits(Receiver.INITIAL, e + f)
    ensures var r := Receiver.Receive(h, Receiver.INITIAL, e + f); r.defined && r.frames == [e]
  {
    hide HeadAt, Find, Receiver.OnePass, Receiver.Rescan;
    var s := e + f;
    assert [] + s == s && s[..MIN_FRAME] == e;
    var st := Receiver.INITIAL.(bb := Receiver.INITIAL.bb.Commit(s));
    Receiver.RescanDelivers(h, st, MIN_FRAME);
    Receiver.RescanHeadless(h, Receiver.Delivered(h, st, MIN_FRAME));
  }
}
