/** What the application gets out of a delivered frame: tms_Copy2Use. */
module Dispatch {
  import opened Bytes
  import opened Scanner
  import opened Convert
  import opened Glink
  import opened Delivery

  /** struct glink_base, behind the head tag. */
  const BASE_HDR: Layout :=
    [Word32, Word32, Word32, Word32, Word16, Word16, Word32, Word32, Word32]

  /** The bytes from the command word on that the callback is shown of the message `s`, when
      memory has become `m`: as many as the data length says, which nothing checks. */
  function Shown(s: bytes, m: bytes): Ret<bytes>
    requires GLINK_OFFSET_DATA <= |s| == |m|
  {
    var datalen := Int32(WireWord(s, 32));
    if 0 <= datalen && GLINK_OFFSET_CMDID + datalen <= |m|
    then Ret(m[GLINK_OFFSET_CMDID..GLINK_OFFSET_CMDID + datalen])
    else Astray
  }

  /** The same in numbers. */
  lemma ShownExact(s: bytes, m: bytes)
    requires 36 <= |s| == |m|
    ensures var d := WireWord(s, 32);
            if d < 0x8000_0000 && 28 + d <= |m| then Shown(s, m) == Ret(m[28..28 + d]) else Shown(s, m) == Astray
  {
    hide WireWord;
  }

  /** tms_Copy2Use: the header in place, then the bytes the callback is shown. */
  method Copy2Use(mem: array<byte>) returns (shown: Ret<bytes>)
    modifies mem
    ensures mem.Length < 36 ==> shown == Astray && mem[..] == old(mem[..])
    ensures 36 <= mem.Length ==>
              Converted(mem, old(mem[..]), 4, BASE_HDR) && shown == Shown(old(mem[..]), mem[..])
  {
    hide Converted, Size, After, HostWord, WireWord;
    ghost var s := mem[..];
    if mem.Length < GLINK_OFFSET_DATA {
      return Astray;
    }
    NoSize();
    StartConverted(mem, 4);
    ghost var done := SwapNext(mem, 4, s, 4, []);
    done := SwapNext(mem, 8, s, 4, done);
    done := SwapNext(mem, 12, s, 4, done);
    done := SwapNext(mem, 16, s, 4, done);
    done := SwapNextHalf(mem, 20, s, 4, done);
    done := SwapNextHalf(mem, 22, s, 4, done);
    done := SwapNext(mem, 24, s, 4, done);
    done := SwapNext(mem, 28, s, 4, done);
    done := SwapNext(mem, 32, s, 4, done);
    assert done == BASE_HDR;
    ConvertedIs(mem, s, 4, BASE_HDR);
    BaseFields(s, mem[..]);
    var datalen := Int32(HostWord(mem[..], 32));
    if datalen < 0 || mem.Length < GLINK_OFFSET_CMDID + datalen {
      return Astray;
    }
    return Ret(mem[GLINK_OFFSET_CMDID..GLINK_OFFSET_CMDID + datalen]);
  }

  lemma BaseOffsets()
    ensures Offset(BASE_HDR, 0) == 0 && Offset(BASE_HDR, 1) == 4 && Offset(BASE_HDR, 2) == 8
    ensures Offset(BASE_HDR, 3) == 12 && Offset(BASE_HDR, 4) == 16 && Offset(BASE_HDR, 5) == 18
    ensures Offset(BASE_HDR, 6) == 20 && Offset(BASE_HDR, 7) == 24 && Offset(BASE_HDR, 8) == 28
    ensures Size(BASE_HDR) == GLINK_BASE_H
  {
    hide Size, Offset;
    OffsetZero(BASE_HDR);
    forall k: nat | k < 9 ensures Offset(BASE_HDR, k + 1) == Offset(BASE_HDR, k) + BASE_HDR[k].Size() {
      OffsetNext(BASE_HDR, k);
    }
    SizeIsOffset(BASE_HDR);
  }

  /** What the context's pgb reads after tms_Copy2Use, and what it leaves alone. */
  lemma BaseFields(s: bytes, r: bytes)
    requires 4 + Size(BASE_HDR) <= |s| && r == After(s, 4, BASE_HDR)
    ensures 4 + GLINK_BASE_H <= |s| == |r|
    ensures HostWord(r, 4) == WireWord(s, 4) && HostWord(r, 8) == WireWord(s, 8)
    ensures HostWord(r, 12) == WireWord(s, 12) && HostWord(r, 16) == WireWord(s, 16)
    ensures HostHalf(r, 20) == WireHalf(s, 20) && HostHalf(r, 22) == WireHalf(s, 22)
    ensures HostWord(r, 24) == WireWord(s, 24) && HostWord(r, 28) == WireWord(s, 28)
    ensures HostWord(r, 32) == WireWord(s, 32)
    ensures r[..4] == s[..4] && r[36..] == s[36..]
  {
    hide After, Size, Offset, HostWord, WireWord, HostHalf, WireHalf;
    BaseOffsets();
    AfterOutside(s, 4, BASE_HDR);
    forall k: nat | k < 9 ensures FieldConverted(BASE_HDR[k], s, r, 4 + Offset(BASE_HDR, k)) {
      AfterFields(s, 4, BASE_HDR, k);
    }
  }

  /** Copying a delivered message to the application: the source, destination, packet id
      and command of the sender, and behind the command and length words the payload. */
  lemma CopyRoundTrip(m: Msg, r: bytes)
    requires m.Sendable()
    requires 4 + Size(BASE_HDR) <= |m.Encode()| && r == After(m.Encode(), 4, BASE_HDR)
    ensures Addr(HostWord(r, 12), HostWord(r, 16), HostHalf(r, 22)) == m.addr
    ensures HostWord(r, 4) == |r| && HostWord(r, 28) == m.cmdid && HostWord(r, 32) == 8 + |m.payload|
    ensures Shown(m.Encode(), r) == Ret(r[GLINK_OFFSET_CMDID..|r| - 4])
    ensures r[GLINK_OFFSET_CMDID + 8..|r| - 4] == m.payload
  {
    hide After, Size, HostWord, WireWord, HostHalf, WireHalf, Msg.Encode;
    var e := m.Encode();
    EncodeFields(m);
    BaseFields(e, r);
    assert r[36..|r| - 4] == r[36..][..|m.payload|];
    assert e[36..|e| - 4] == e[36..][..|m.payload|];
  }
}
