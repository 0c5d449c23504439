/** Both ends joined: messages put on a socket that may break, and what the connection at the
    other end delivers of them. */
module Transfer {
  import opened Bytes
  import opened Scanner
  import opened Splitter
  import opened Glink
  import opened Sender
  import opened Delivery
  import Receiver

  ghost predicate AllSendable(msgs: seq<Msg>) {
    forall i :: 0 <= i < |msgs| ==> msgs[i].Sendable()
  }

  /** The messages on the wire, with nothing between them. */
  function Wire(msgs: seq<Msg>): bytes
    requires AllSendable(msgs)
  {
    if msgs == [] then [] else Wire(msgs[..|msgs| - 1]) + msgs[|msgs| - 1].Encode()
  }

  function Encoded(msgs: seq<Msg>): seq<bytes>
    requires AllSendable(msgs)
  {
    if msgs == [] then [] else Encoded(msgs[..|msgs| - 1]) + [msgs[|msgs| - 1].Encode()]
  }

  /** Any number of messages, up to the first that the socket does not take whole: then the
      connection is given up. */
  method SendMsgs(socket: Socket, msgs: seq<Msg>) returns (n: nat)
    requires AllSendable(msgs)
    modifies socket
    ensures n <= |msgs| && (old(socket.Reliable()) ==> n == |msgs|)
    ensures old(socket.sent) + Wire(msgs[..n]) <= socket.sent
    ensures if n == |msgs| then socket.sent == old(socket.sent) + Wire(msgs)
            else socket.sent < old(socket.sent) + Wire(msgs[..n]) + msgs[n].Encode()
  {
    hide Msg.Encode;
    n := 0;
    while n < |msgs|
      invariant n <= |msgs| && (old(socket.Reliable()) ==> socket.Reliable())
      invariant socket.sent == old(socket.sent) + Wire(msgs[..n])
    {
      var m := msgs[n];
      ghost var before := socket.sent;
      var ret := socket.SendMsg(Some(m.addr), m.cmdid, m.payload);
      if ret < 0 {
        return;
      }
      assert msgs[..n + 1][..n] == msgs[..n];
      assert before + m.Encode() == old(socket.sent) + Wire(msgs[..n + 1]);
      n := n + 1;
    }
    assert msgs[..n] == msgs;
  }

  /** The messages with no noise in front of them. */
  ghost function Items(msgs: seq<Msg>): (items: seq<Item>)
    requires AllSendable(msgs)
    ensures |items| == |msgs| && AllValid(items)
    ensures forall i :: 0 <= i < |msgs| ==> items[i].msg == msgs[i]
  {
    if msgs == [] then []
    else
      TagFreeNoise([], msgs[|msgs| - 1]);
      Items(msgs[..|msgs| - 1]) + [Item([], msgs[|msgs| - 1])]
  }

  lemma {:induction false} StreamNext(items: seq<Item>, i: Item)
    requires AllValid(items) && i.Valid()
    ensures AllValid(items + [i])
    ensures Stream(items + [i]) == Stream(items) + (i.noise + i.msg.Encode())
    ensures Frames(items + [i]) == Frames(items) + [i.msg.Encode()]
  {
    hide Msg.Encode, Frameless;
    if items == [] {
      assert [i][1..] == [];
    } else {
      StreamNext(items[1..], i);
      assert (items + [i])[0] == items[0] && (items + [i])[1..] == items[1..] + [i];
      Associate(items[0].noise + items[0].msg.Encode(), Stream(items[1..]), i.noise + i.msg.Encode());
    }
  }

  lemma Associate(a: bytes, b: bytes, c: bytes)
    ensures a + (b + c) == a + b + c
  {
  }

  lemma {:induction false} WireIsStream(msgs: seq<Msg>)
    requires AllSendable(msgs)
    ensures Stream(Items(msgs)) == Wire(msgs) && Frames(Items(msgs)) == Encoded(msgs)
  {
    hide Msg.Encode, Frameless;
    if msgs != [] {
      var m := msgs[|msgs| - 1];
      WireIsStream(msgs[..|msgs| - 1]);
      TagFreeNoise([], m);
      StreamNext(Items(msgs[..|msgs| - 1]), Item([], m));
      assert [] + m.Encode() == m.Encode();
    }
  }

  /** A message that has not arrived whole is waited for. */
  lemma PartWaits(m: Msg, p: bytes)
    requires m.Sendable() && p < m.Encode()
    ensures Split(p) == Outcome([], true)
  {
    var e := m.Encode();
    EncodeFields(m);
    hide Msg.Encode;
    if MIN_FRAME <= |p| {
      EncodedFrame(m, []);
      assert e == p + e[|p|..];
      FrontFixed(p, e[|p|..]);
    }
  }

  /** Whatever the socket does to any sequence of messages, and however recv cuts what it has
      taken, the connection delivers messages that were sent whole, in order, and exactly
      these once everything on the wire is in, if handling a message leaves alone what is
      behind its frame. */
  lemma Transferred(h: Receiver.Handler, msgs: seq<Msg>, n: nat, sent: bytes, chunks: seq<bytes>)
    requires AllSendable(msgs) && n <= |msgs|
    requires forall i :: 0 <= i < |msgs| ==> Receiver.KeepsBehind(h, msgs[i].Encode())
    requires Wire(msgs[..n]) <= sent
    requires if n == |msgs| then sent == Wire(msgs) else sent < Wire(msgs[..n]) + msgs[n].Encode()
    requires Receiver.Admissible(h, Receiver.INITIAL, chunks) && Flatten(chunks) <= sent
    ensures var r := Receiver.Run(h, Receiver.INITIAL, chunks);
            && r.defined && r.frames <= Encoded(msgs[..n])
            && (Flatten(chunks) == sent ==> r.frames == Encoded(msgs[..n]))
  {
    hide Msg.Encode, Split, Wire, Encoded, Stream, Frames, Items;
    hide Receiver.Run, Receiver.Admissible, Receiver.KeepsBehindAll;
    var whole := msgs[..n];
    var items, part := Items(whole), sent[|Wire(whole)|..];
    assert sent == Wire(whole) + part;
    WireIsStream(whole);
    if n == |msgs| {
      assert whole == msgs && part == [];
      PartNothing();
    } else {
      PartIs(Wire(whole), part, msgs[n].Encode());
      PartWaits(msgs[n], part);
    }
    SplitStream(items, part);
    assert Frames(items) + [] == Frames(items);
    var s := Flatten(chunks);
    SplitExtends(s, sent[|s|..]);
    assert s + sent[|s|..] == sent;
    assert AllKept(h, items);
    FramesKept(h, items, Split(s).frames);
    Receiver.ChunkingIrrelevant(h, chunks);
  }

  lemma PartNothing()
    ensures Split([]) == Outcome([], true)
  {
  }

  lemma PartIs(a: bytes, part: bytes, e: bytes)
    requires a + part < a + e
    ensures part < e
  {
    assert part == (a + part)[|a|..] && e == (a + e)[|a|..];
  }
}
