/** Putting frames on a socket that may take any part of what it is offered. */
module Sender {
  import opened Bytes
  import opened Scanner
  import opened Glink

  /** One answer of send(2): some bytes taken, EAGAIN, or another error. */
  datatype SendResult = Wrote(n: nat) | WouldBlock | Broken

  /** What glink_SendSerial returns for a piece it has sent. */
  lemma PieceTotal(len: nat)
    requires len < 0x1_0000_0000
    ensures Int32(4) == 4 && Int32(32) == 32
    ensures if len <= INT_MAX then Int32(len) == len else Int32(len) < 0
  {
  }

  lemma PrefixTrans(a: bytes, b: bytes, c: bytes)
    requires a <= b <= c
    ensures a <= c && (a < b ==> a < c)
  {
  }

  /** The peer's side of a socket. The script holds the answers of the coming send calls;
      after it the socket takes everything, so it covers every call that returns. */
  class Socket {
    var sent: bytes
    var script: seq<SendResult>

    predicate Reliable()
      reads this
    {
      Broken !in script
    }

    constructor (answers: seq<SendResult>)
      ensures sent == [] && script == answers
    {
      sent, script := [], answers;
    }

    /** send(2). */
    method Send(data: bytes) returns (r: SendResult)
      modifies this
      ensures script == if old(script) == [] then [] else old(script)[1..]
      ensures old(script) == [] ==> r == Wrote(|data|)
      ensures r == Broken ==> Broken in old(script)
      ensures r.Wrote? ==> r.n <= |data| && sent == old(sent) + data[..r.n]
      ensures !r.Wrote? ==> sent == old(sent)
    {
      r := if script == [] then Wrote(|data|) else script[0];
      if script != [] {
        script := script[1..];
      }
      if r.Wrote? {
        r := Wrote(if r.n < |data| then r.n else |data|);
        sent := sent + data[..r.n];
      }
    }

    /** glink_SendSerial: all of `data`, however the socket takes it, unless the socket breaks. */
    method SendSerial(data: bytes) returns (ret: int)
      requires |data| < 0x1_0000_0000
      modifies this
      ensures (sent == old(sent) + data && ret == Int32(|data|)) || (sent < old(sent) + data && ret == -1)
      ensures old(sent) <= sent
      ensures old(Reliable()) ==> Reliable() && sent == old(sent) + data
    {
      var pbuf := data;
      while |pbuf| > 0
        invariant sent + pbuf == old(sent) + data && old(sent) <= sent
        invariant old(Reliable()) ==> Reliable()
        decreases |script|, |pbuf|
      {
        ghost var before := sent;
        var r := Send(pbuf);
        match r {
          case Wrote(n) =>
            assert before + pbuf == before + pbuf[..n] + pbuf[n..];
            pbuf := pbuf[n..];
          case WouldBlock =>
          case Broken =>
            return -1;
        }
      }
      return Int32(|data|);
    }

    /** glink_Send: a whole frame around `data`; `hdr` has been built. C adds up the pieces in
        int32_t, and gives a sum over INT_MAX no meaning. */
    method SendFrame(hdr: GlinkBase, data: bytes) returns (r: Ret<int>)
      requires |data| < 0x1_0000_0000
      modifies this
      ensures old(sent) <= sent <= old(sent) + Frame(hdr.Image(), data)
      ensures r.Ret? && 0 <= r.value ==> sent == old(sent) + Frame(hdr.Image(), data) && r.value == MIN_FRAME + |data|
      ensures r.Ret? && r.value < 0 ==> r.value == -1 && sent < old(sent) + Frame(hdr.Image(), data)
      ensures r.Astray? ==> INT_MAX < MIN_FRAME + |data| && |data| <= INT_MAX
      ensures old(Reliable()) && MIN_FRAME + |data| <= INT_MAX ==> Reliable() && r == Ret(MIN_FRAME + |data|)
      ensures INT_MAX < MIN_FRAME + |data| ==> r == Ret(-1) || (r == Astray && |data| <= INT_MAX)
      ensures INT_MAX < |data| ==> r == Ret(-1)
    {
      ghost var head, base := sent + HEAD_TAG, sent + HEAD_TAG + hdr.Image();
      ghost var whole := sent + Frame(hdr.Image(), data);
      PieceTotal(|data|);
      assert whole == base + data + TAIL_TAG;
      assert head <= whole && base <= whole && base + data <= whole && base + data < whole;
      hide Int32, Frame, GlinkBase.Image;
      var total: int := 0;
      var ret := SendSerial(HEAD_TAG);
      if ret < 0 {
        PrefixTrans(sent, head, whole);
        return Ret(-1);
      }
      total := total + ret;
      ret := SendSerial(hdr.Image());
      if ret < 0 {
        PrefixTrans(sent, base, whole);
        return Ret(-1);
      }
      total := total + ret;
      ret := SendSerial(data);
      if ret < 0 {
        PrefixTrans(sent, base + data, whole);
        return Ret(-1);
      }
      total := total + ret;
      if INT_MAX < total {
        return Astray;
      }
      ret := SendSerial(TAIL_TAG);
      if ret < 0 {
        return Ret(-1);
      }
      total := total + ret;
      if INT_MAX < total {
        return Astray;
      }
      return Ret(total);
    }

    /** Fill, build and send, as tms_Tick and tms_RetNodeTime do: the wire carries the message,
        and the result is the declared length. */
    method SendMsg(paddr: Option<Addr>, cmdid: u32, payload: bytes) returns (ret: int)
      requires MIN_FRAME + |payload| <= INT_MAX
      modifies this
      ensures var m := Msg(if paddr == None then Addr(0x0e, 0x1e, 0) else paddr.value, cmdid, payload);
              && old(sent) <= sent <= old(sent) + m.Encode()
              && (ret >= 0 ==> sent == old(sent) + m.Encode() && ret == |m.Encode()|)
              && (ret < 0 ==> ret == -1 && sent < old(sent) + m.Encode())
      ensures old(Reliable()) ==> Reliable() && ret >= 0
    {
      hide Header, GlinkBase.Image;
      var base := new GlinkBase();
      base.Fill(paddr);
      base.Build(cmdid, |payload|);
      var r := SendFrame(base, payload);
      ret := r.value;
    }

    /** glink_SendHead. */
    method SendHead(hdr: GlinkBase) returns (ret: int)
      modifies this
      ensures (ret == 36 && sent == old(sent) + HEAD_TAG + hdr.Image()) ||
              (ret == -1 && sent < old(sent) + HEAD_TAG + hdr.Image())
      ensures old(sent) <= sent
      ensures old(Reliable()) ==> Reliable() && ret == 36
    {
      var total := 0;
      ret := SendSerial(HEAD_TAG);
      if ret < 0 {
        return -1;
      }
      total := total + ret;
      ret := SendSerial(hdr.Image());
      if ret < 0 {
        return -1;
      }
      return total + ret;
    }

    /** glink_SendTail. */
    method SendTail() returns (ret: int)
      modifies this
      ensures (ret == 4 && sent == old(sent) + TAIL_TAG) || (ret == -1 && sent < old(sent) + TAIL_TAG)
      ensures old(sent) <= sent
      ensures old(Reliable()) ==> Reliable() && ret == 4
    {
      ret := SendSerial(TAIL_TAG);
      if ret < 0 {
        return -1;
      }
    }

    /** A caller that sends a long payload in any number of pieces between head and tail,
        as tms_Update does: the wire carries what one glink_Send of the joined payload puts there. */
    method SendPieces(hdr: GlinkBase, pieces: seq<bytes>)
      requires Reliable()
      requires forall p :: p in pieces ==> |p| < 0x1_0000_0000
      modifies this
      ensures Reliable() && sent == old(sent) + Frame(hdr.Image(), Flatten(pieces))
    {
      ghost var image, whole := hdr.Image(), sent + Frame(hdr.Image(), Flatten(pieces));
      ghost var base := sent + HEAD_TAG + image;
      assert whole == base + Flatten(pieces) + TAIL_TAG;
      var ret := SendHead(hdr);
      hide Frame, GlinkBase.Image, Int32;
      for i := 0 to |pieces|
        invariant Reliable()
        invariant sent == base + Flatten(pieces[..i])
      {
        assert pieces[..i + 1] == pieces[..i] + [pieces[i]];
        FlattenConcat(pieces[..i], [pieces[i]]);
        assert Flatten([pieces[i]]) == pieces[i];
        ret := SendSerial(pieces[i]);
        assert sent == base + (Flatten(pieces[..i]) + pieces[i]);
      }
      assert pieces[..|pieces|] == pieces;
      ret := SendTail();
    }
  }
}
