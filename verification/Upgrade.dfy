/** The firmware upgrade message: tms_Update sends it, tms_AnalyseUpdate takes it apart. */
module Upgrade {
  import opened Bytes
  import opened Scanner
  import opened Convert
  import opened Glink
  import opened Sender
  import opened Delivery

  const ID_UPDATE: u32 := 0x1000_0001

  /** struct tms_dev_update_hdr: frame, slot, type, target name, file length. */
  const UPDATE_HDR: Layout := [Word32, Word32, Word32, Text(16), Word32]
  const UPDATE_HDR_SIZE := 32

  /** struct tms_dev_md5. */
  const MD5_SIZE := 32

  function UpdateHdr(frame: u32, slot: u32, kind: u32, target: bytes, flen: u32): (r: bytes)
    ensures |r| == 16 + |target|
  {
    WireBytes(frame) + WireBytes(slot) + WireBytes(kind) + target + WireBytes(flen)
  }

  /** The upgrade message for a board and a file. */
  function UpdateMsg(addr: Addr, frame: u32, slot: u32, kind: u32, target: bytes, file: bytes, md5: bytes): Msg
    requires |file| <= INT_MAX
  {
    Msg(addr, ID_UPDATE, UpdateHdr(frame, slot, kind, target, |file|) + file + md5)
  }

  /** tms_Update. The five send results are not looked at. */
  method Update(socket: Socket, paddr: Option<Addr>, frame: u32, slot: u32, kind: u32,
                target: bytes, file: bytes, md5: bytes)
    requires |target| == 16 && |md5| == 32
    requires |file| <= INT_MAX
    modifies socket
    ensures old(socket.sent) <= socket.sent
    ensures old(socket.Reliable()) ==>
              var addr := if paddr == None then Addr(0x0e, 0x1e, 0) else paddr.value;
              var m := UpdateMsg(addr, frame, slot, kind, target, file, md5);
              && |m.payload| == 64 + |file| && m.payload[32..] == file + md5
              && socket.sent == old(socket.sent) + Frame(Header(addr, 0x1000_0001, |m.payload|), m.payload)
              && (m.Sendable() ==> socket.sent == old(socket.sent) + m.Encode())
  {
    UpdatePayload(frame, slot, kind, target, file, md5);
    hide Header, UpdateHdr, Frame, GlinkBase.Image, Int32;
    var len := UPDATE_HDR_SIZE + |file| + MD5_SIZE;
    var hdr := UpdateHdr(frame, slot, kind, target, |file|);
    var base := new GlinkBase();
    base.Fill(paddr);
    ghost var addr := base.Address();
    base.Build(ID_UPDATE, len);
    ghost var before, image := socket.sent, base.Image();
    var ret := socket.SendHead(base);
    ret := socket.SendSerial(hdr);
    ret := socket.SendSerial(file);
    ret := socket.SendSerial(md5);
    ret := socket.SendTail();
    Joined(before, image, hdr, file, md5);
  }

  lemma UpdatePayload(frame: u32, slot: u32, kind: u32, target: bytes, file: bytes, md5: bytes)
    requires |target| == 16 && |file| <= INT_MAX
    ensures var p := UpdateHdr(frame, slot, kind, target, |file|) + file + md5;
            |p| == 32 + |file| + |md5| && p[32..] == file + md5
  {
    hide WireBytes;
  }

  lemma Joined(before: bytes, image: bytes, hdr: bytes, file: bytes, md5: bytes)
    ensures before + HEAD_TAG + image + hdr + file + md5 + TAIL_TAG == before + Frame(image, hdr + file + md5)
  {
  }

  /** The words of an upgrade header. */
  lemma UpdateHdrFields(frame: u32, slot: u32, kind: u32, target: bytes, flen: u32)
    requires |target| == 16
    ensures var h := UpdateHdr(frame, slot, kind, target, flen);
            && |h| == UPDATE_HDR_SIZE
            && WireWord(h, 0) == frame && WireWord(h, 4) == slot && WireWord(h, 8) == kind
            && h[12..28] == target && WireWord(h, 28) == flen
  {
    hide Word, WireBytes, WireWord;
    WordOfBytes(frame);
    WordOfBytes(slot);
    WordOfBytes(kind);
    WordOfBytes(flen);
    var a := WireBytes(frame) + WireBytes(slot);
    var b := a + WireBytes(kind);
    var c := b + target;
    ReadLeft(WireBytes(frame), WireBytes(slot), 0);
    ReadRight(WireBytes(frame), WireBytes(slot), 0);
    ReadLeft(a, WireBytes(kind), 0);
    ReadLeft(a, WireBytes(kind), 4);
    ReadRight(a, WireBytes(kind), 0);
    ReadLeft(b, target, 0);
    ReadLeft(b, target, 4);
    ReadLeft(b, target, 8);
    ReadLeft(c, WireBytes(flen), 0);
    ReadLeft(c, WireBytes(flen), 4);
    ReadLeft(c, WireBytes(flen), 8);
    ReadRight(c, WireBytes(flen), 0);
    assert c[12..28] == target;
  }

  /** What tms_AnalyseUpdate reports. */
  datatype Report = Report(frame: u32, slot: u32, kind: u32, target: bytes, flen: u32, md5: bytes)

  /** What is reported of the message `s` when memory has become `m`: the digest is looked
      for behind the file. */
  function Reported(s: bytes, m: bytes): Ret<Report>
    requires GLINK_OFFSET_DATA + UPDATE_HDR_SIZE <= |s| == |m|
  {
    var at := Wrap(GLINK_OFFSET_DATA + UPDATE_HDR_SIZE + WireWord(s, 64));
    if |s| < at + MD5_SIZE then Astray
    else
      Ret(Report(WireWord(s, 36), WireWord(s, 40), WireWord(s, 44), s[48..64], WireWord(s, 64), m[at..at + MD5_SIZE]))
  }

  /** The same in numbers: the digest is the 32 bytes at 68 plus the length, which wraps. */
  lemma ReportedExact(s: bytes, m: bytes)
    requires 68 <= |s| == |m|
    ensures var at := (68 + WireWord(s, 64)) % 0x1_0000_0000;
            && (Reported(s, m) == Astray <==> |s| < at + 32)
            && (at + 32 <= |s| ==>
                  Reported(s, m) == Ret(Report(WireWord(s, 36), WireWord(s, 40), WireWord(s, 44), s[48..64],
                                               WireWord(s, 64), m[at..at + 32])))
  {
    hide WireWord;
  }

  /** tms_AnalyseUpdate: the digest is looked for behind the file, at the length still in
      wire order, and the header is converted in place. Nothing in C keeps a length from
      leading out of memory, or around it. */
  method AnalyseUpdate(mem: array<byte>) returns (r: Ret<Report>)
    modifies mem
    ensures mem.Length < 68 ==> r == Astray && mem[..] == old(mem[..])
    ensures 68 <= mem.Length ==>
              && Converted(mem, old(mem[..]), GLINK_OFFSET_DATA, UPDATE_HDR)
              && r == Reported(old(mem[..]), mem[..])
  {
    hide Converted, Size, After, HostWord, WireWord, Wrap;
    ghost var s := mem[..];
    if mem.Length < GLINK_OFFSET_DATA + UPDATE_HDR_SIZE {
      return Astray;
    }
    var flen: int := WireWord(mem[..], 64);
    var md5At := Wrap(GLINK_OFFSET_DATA + UPDATE_HDR_SIZE + flen);
    NoSize();
    StartConverted(mem, 36);
    ghost var done := SwapNext(mem, 36, s, 36, []);
    done := SwapNext(mem, 40, s, 36, done);
    done := SwapNext(mem, 44, s, 36, done);
    done := KeepNext(mem, 16, s, 36, done);
    done := SwapNext(mem, 64, s, 36, done);
    assert done == UPDATE_HDR;
    ConvertedIs(mem, s, 36, done);
    HostFields(s, mem[..]);
    if mem.Length < md5At + MD5_SIZE {
      return Astray;
    }
    return Ret(Report(HostWord(mem[..], 36), HostWord(mem[..], 40), HostWord(mem[..], 44),
                      mem[48..64], HostWord(mem[..], 64), mem[md5At..md5At + MD5_SIZE]));
  }

  lemma UpdateOffsets()
    ensures Offset(UPDATE_HDR, 0) == 0 && Offset(UPDATE_HDR, 1) == 4 && Offset(UPDATE_HDR, 2) == 8
    ensures Offset(UPDATE_HDR, 3) == 12 && Offset(UPDATE_HDR, 4) == 28
    ensures Size(UPDATE_HDR) == UPDATE_HDR_SIZE
  {
    hide Size, Offset;
    OffsetZero(UPDATE_HDR);
    forall k: nat | k < 5 ensures Offset(UPDATE_HDR, k + 1) == Offset(UPDATE_HDR, k) + UPDATE_HDR[k].Size() {
      OffsetNext(UPDATE_HDR, k);
    }
    SizeIsOffset(UPDATE_HDR);
  }

  /** What memory holds after tms_AnalyseUpdate: four words in host order, the rest unchanged. */
  lemma HostFields(s: bytes, r: bytes)
    requires GLINK_OFFSET_DATA + Size(UPDATE_HDR) <= |s| && r == After(s, GLINK_OFFSET_DATA, UPDATE_HDR)
    ensures 68 <= |s| == |r|
    ensures HostWord(r, 36) == WireWord(s, 36) && HostWord(r, 40) == WireWord(s, 40)
    ensures HostWord(r, 44) == WireWord(s, 44) && HostWord(r, 64) == WireWord(s, 64)
    ensures r[..36] == s[..36] && r[48..64] == s[48..64] && r[68..] == s[68..]
  {
    hide After, Size, Offset, HostWord, WireWord;
    UpdateOffsets();
    AfterOutside(s, GLINK_OFFSET_DATA, UPDATE_HDR);
    forall k: nat | k < 5 ensures FieldConverted(UPDATE_HDR[k], s, r, GLINK_OFFSET_DATA + Offset(UPDATE_HDR, k)) {
      AfterFields(s, GLINK_OFFSET_DATA, UPDATE_HDR, k);
    }
  }

  /** Where the fields of an upgrade message lie in its frame. */
  lemma UpdateFields(addr: Addr, frame: u32, slot: u32, kind: u32, target: bytes, file: bytes, md5: bytes)
    requires |target| == 16 && |md5| == MD5_SIZE
    requires UPDATE_HDR_SIZE + |file| + MD5_SIZE <= INT_MAX - MIN_FRAME
    ensures var s := UpdateMsg(addr, frame, slot, kind, target, file, md5).Encode();
            && |s| == WireWord(s, 4) == MIN_FRAME + UPDATE_HDR_SIZE + |file| + MD5_SIZE
            && WireWord(s, 28) == ID_UPDATE && WireWord(s, 64) == |file|
            && Report(WireWord(s, 36), WireWord(s, 40), WireWord(s, 44), s[48..64], WireWord(s, 64),
                      s[68 + |file|..68 + |file| + MD5_SIZE])
               == Report(frame, slot, kind, target, |file|, md5)
            && s[68..68 + |file|] == file
  {
    hide WireWord, UpdateHdr, Msg.Encode;
    var m := UpdateMsg(addr, frame, slot, kind, target, file, md5);
    var h := UpdateHdr(frame, slot, kind, target, |file|);
    UpdateHdrFields(frame, slot, kind, target, |file|);
    EncodeFields(m);
    var s, p := m.Encode(), m.payload;
    var rest := file + (md5 + s[|s| - 4..]);
    assert s == s[..36] + (h + rest) by {
      assert s == s[..36] + s[36..|s| - 4] + s[|s| - 4..];
    }
    forall i: nat | i + 4 <= UPDATE_HDR_SIZE ensures WireWord(s, 36 + i) == WireWord(h, i) {
      ReadRight(s[..36], h + rest, i);
      ReadLeft(h, rest, i);
    }
    assert WireWord(s, 36 + 0) == frame && WireWord(s, 36 + 4) == slot && WireWord(s, 36 + 8) == kind;
    assert WireWord(s, 36 + 28) == |file|;
    assert s[36..] == h + rest && s[36..][12..28] == h[12..28] && s[68..] == rest;
    assert s[48..64] == s[36..][12..28];
    assert s[68..68 + |file|] == rest[..|file|] == file;
    assert s[68 + |file|..68 + |file| + MD5_SIZE] == rest[|file|..][..MD5_SIZE] == md5;
  }

  lemma SliceOf(s: bytes, i: nat, j: nat, k: nat)
    requires j <= k && i + k <= |s|
    ensures s[i..][j..k] == s[i + j..i + k]
  {
  }

  /** Round trip: on the frame of an upgrade message tms_AnalyseUpdate, which leaves `r` in
      memory, does not leave memory, reports the board and file length that were sent, and
      finds the digest right behind the file bytes. */
  lemma UpdateRoundTrip(addr: Addr, frame: u32, slot: u32, kind: u32, target: bytes, file: bytes, md5: bytes,
                        s: bytes, r: bytes)
    requires |target| == 16 && |md5| == 32
    requires 104 + |file| <= INT_MAX
    requires s == UpdateMsg(addr, frame, slot, kind, target, file, md5).Encode()
    requires GLINK_OFFSET_DATA + Size(UPDATE_HDR) <= |s| && r == After(s, GLINK_OFFSET_DATA, UPDATE_HDR)
    ensures |s| == |r| == WireWord(s, 4) == 104 + |file| && WireWord(s, 28) == 0x1000_0001
    ensures Reported(s, r) == Ret(Report(frame, slot, kind, target, |file|, md5))
    ensures r[68..68 + |file|] == file
  {
    hide WireWord, Wrap, UpdateHdr, Msg.Encode, After, Size;
    UpdateFields(addr, frame, slot, kind, target, file, md5);
    HostFields(s, r);
    WrapSmall(68 + |file|);
    SliceOf(r, 68, |file|, |file| + MD5_SIZE);
    SliceOf(s, 68, |file|, |file| + MD5_SIZE);
    SliceOf(r, 68, 0, |file|);
    SliceOf(s, 68, 0, |file|);
  }
}
