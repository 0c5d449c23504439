/** From senders to the application: what goes in as messages comes out as the same messages. */
module Delivery {
  import opened Bytes
  import opened Scanner
  import opened Splitter
  import opened Glink
  import Receiver

  lemma FourWords(a: u32, b: u32, c: u32, d: u32)
    ensures var h := WireBytes(a) + WireBytes(b) + WireBytes(c) + WireBytes(d);
            WireWord(h, 0) == a && WireWord(h, 4) == b && WireWord(h, 8) == c && WireWord(h, 12) == d
  {
    hide Word, WireBytes;
    WordOfBytes(a);
    WordOfBytes(b);
    WordOfBytes(c);
    WordOfBytes(d);
  }

  lemma HalvesAndWords(p: u16, c: u32, d: u32)
    ensures var h := [0, 0] + WireBytes16(p) + [0, 0, 0, 0] + WireBytes(c) + WireBytes(d);
            && WireHalf(h, 0) == 0 && WireHalf(h, 2) == p
            && WireWord(h, 4) == 0 && WireWord(h, 8) == c && WireWord(h, 12) == d
  {
    hide Word, Half, WireBytes, WireBytes16, WireWord, WireHalf;
    KindAndPacket(p);
    ZeroWord();
    WordOfBytes(c);
    WordOfBytes(d);
    var x := [0, 0] + WireBytes16(p);
    var y := x + [0, 0, 0, 0];
    var z := y + WireBytes(c);
    ReadLeft(x, [0, 0, 0, 0], 0);
    ReadLeft(x, [0, 0, 0, 0], 2);
    ReadRight(x, [0, 0, 0, 0], 0);
    ReadLeft(y, WireBytes(c), 0);
    ReadLeft(y, WireBytes(c), 2);
    ReadLeft(y, WireBytes(c), 4);
    ReadRight(y, WireBytes(c), 0);
    ReadLeft(z, WireBytes(d), 0);
    ReadLeft(z, WireBytes(d), 2);
    ReadLeft(z, WireBytes(d), 4);
    ReadLeft(z, WireBytes(d), 8);
    ReadRight(z, WireBytes(d), 0);
  }

  lemma HeaderFields(a: Addr, cmdid: u32, n: u32)
    requires MIN_FRAME + n < 0x1_0000_0000
    ensures var h := Header(a, cmdid, n);
            && |h| == GLINK_BASE_H
            && WireWord(h, 0) == MIN_FRAME + n && WireWord(h, 4) == FRAME_VERSION
            && WireWord(h, 8) == a.src && WireWord(h, 12) == a.dst
            && WireHalf(h, 16) == 0 && WireHalf(h, 18) == a.pkid
            && WireWord(h, 20) == 0 && WireWord(h, 24) == cmdid && WireWord(h, 28) == 8 + n
  {
    hide Word, Half, WireBytes, WireBytes16, WireWord, WireHalf;
    FourWords(MIN_FRAME + n, FRAME_VERSION, a.src, a.dst);
    HalvesAndWords(a.pkid, cmdid, 8 + n);
    var x := WireBytes(MIN_FRAME + n) + WireBytes(FRAME_VERSION) + WireBytes(a.src) + WireBytes(a.dst);
    var y := [0, 0] + WireBytes16(a.pkid) + [0, 0, 0, 0] + WireBytes(cmdid) + WireBytes(8 + n);
    forall i: nat | i < 16 ensures i + 4 <= 16 ==> WireWord(x + y, i) == WireWord(x, i) {
      ReadLeft(x, y, i);
    }
    forall i: nat | i < 16
      ensures i + 4 <= 16 ==> WireWord(x + y, 16 + i) == WireWord(y, i)
      ensures i + 2 <= 16 ==> WireHalf(x + y, 16 + i) == WireHalf(y, i)
    {
      ReadRight(x, y, i);
    }
    assert WireHalf(x + y, 16 + 0) == 0 && WireHalf(x + y, 16 + 2) == a.pkid;
    assert WireWord(x + y, 16 + 4) == 0 && WireWord(x + y, 16 + 8) == cmdid && WireWord(x + y, 16 + 12) == 8 + n;
  }

  lemma KindAndPacket(p: u16)
    ensures WireHalf([0, 0] + WireBytes16(p), 0) == 0 && WireHalf([0, 0] + WireBytes16(p), 2) == p
  {
  }

  lemma ZeroWord()
    ensures WireWord([0, 0, 0, 0], 0) == 0
  {
  }

  lemma FrameParts(h: bytes, payload: bytes)
    requires |h| == GLINK_BASE_H
    ensures var e := Frame(h, payload);
            && |e| == MIN_FRAME + |payload|
            && HeadAt(e, 0) && TailAt(e, |e| - 4)
            && e[36..|e| - 4] == payload
            && (forall i: nat :: i + 4 <= GLINK_BASE_H ==> WireWord(e, 4 + i) == WireWord(h, i))
            && (forall i: nat :: i + 2 <= GLINK_BASE_H ==> WireHalf(e, 4 + i) == WireHalf(h, i))
  {
    hide Word, Half;
  }

  /** Every field of an encoded message, where the receiver looks for it. */
  lemma EncodeFields(m: Msg)
    requires m.Sendable()
    ensures var e := m.Encode();
            && |e| == 40 + |m.payload|
            && HeadAt(e, 0) && e[..4] == [0xff, 0xff, 0xee, 0xee]
            && TailAt(e, |e| - 4) && e[|e| - 4..] == [0xee, 0xee, 0xff, 0xff]
            && WireWord(e, 4) == |e| && WireWord(e, 8) == 0x001A_0001
            && WireWord(e, 12) == m.addr.src && WireWord(e, 16) == m.addr.dst
            && WireHalf(e, 20) == 0 && WireHalf(e, 22) == m.addr.pkid
            && WireWord(e, 24) == 0 && WireWord(e, 28) == m.cmdid
            && WireWord(e, 32) == 8 + |m.payload|
            && e[36..|e| - 4] == m.payload
  {
    hide Frame, Header, WireWord, WireHalf, HeadAt, TailAt;
    HeaderFields(m.addr, m.cmdid, |m.payload|);
    FrameParts(Header(m.addr, m.cmdid, |m.payload|), m.payload);
    ghost var e, h := m.Encode(), Header(m.addr, m.cmdid, |m.payload|);
    assert WireWord(e, 4 + 0) == WireWord(h, 0) && WireWord(e, 4 + 4) == WireWord(h, 4);
    assert WireWord(e, 4 + 8) == WireWord(h, 8) && WireWord(e, 4 + 12) == WireWord(h, 12);
    assert WireHalf(e, 4 + 16) == WireHalf(h, 16) && WireHalf(e, 4 + 18) == WireHalf(h, 18);
    assert WireWord(e, 4 + 20) == WireWord(h, 20) && WireWord(e, 4 + 24) == WireWord(h, 24);
    assert WireWord(e, 4 + 28) == WireWord(h, 28);
    TagBytes(e, 0);
    TagBytes(e, |e| - 4);
  }

  /** An encoded message is a whole frame with a good header and a tail tag, so the scanner
      accepts it at its declared length whatever follows. */
  lemma EncodedFrame(m: Msg, t: bytes)
    requires m.Sendable()
    ensures var e := m.Encode();
            && GoodHeader(e) && |e| == Pklen(e) && TailAt(e, |e| - 4)
            && Find(e + t) == Scan(0, MIN_FRAME + |m.payload|)
            && Split(e + t) == Cat([e], Split(t))
  {
    EncodeFields(m);
    var e := m.Encode();
    hide Msg.Encode, WireWord;
    assert Pklen(e) == |e| && Datalen(e) == |e| - 32;
    hide Pklen, Datalen;
    FrontFixed(e, t);
    SplitWhole(e, t);
    assert TailAt(e + t, |e| - 4);
  }

  /** The -2 of a short buffer is not a number of bytes to give up, as its comment has it:
      one byte before any message could be recognised, the scanner asks to give up a byte
      that begins the head tag. Callers must not scan fewer than 40 bytes. */
  lemma ShortBuffer(m: Msg)
    requires m.Sendable()
    ensures |m.Encode()| >= MIN_FRAME
    ensures var s := m.Encode()[..MIN_FRAME - 1];
            Find(s) == Scan(-2, 1) && HeadAt(s, 0)
  {
    EncodeFields(m);
  }

  /** A message on the wire, after bytes in which no frame starts: noise without head tags,
      or with head tags whose headers, which may run on into the message, have lengths that
      disagree. */
  datatype Item = Item(noise: bytes, msg: Msg) {
    ghost predicate Valid() { msg.Sendable() && Frameless(noise + msg.Encode(), |noise|) }
  }

  ghost predicate AllValid(items: seq<Item>) {
    forall i :: 0 <= i < |items| ==> items[i].Valid()
  }

  /** No head tag starts anywhere in `s`. */
  ghost predicate TagFree(s: bytes) {
    forall k: nat :: !HeadAt(s, k)
  }

  ghost function Stream(items: seq<Item>): bytes
    requires AllValid(items)
  {
    if items == [] then [] else items[0].noise + items[0].msg.Encode() + Stream(items[1..])
  }

  ghost function Frames(items: seq<Item>): seq<bytes>
    requires AllValid(items)
  {
    if items == [] then [] else [items[0].msg.Encode()] + Frames(items[1..])
  }

  /** The tag bytes have no border: no tag starts in tag-free bytes and runs on into a
      tag that follows them. */
  lemma NoStraddle(noise: bytes, rest: bytes, k: nat)
    requires TagFree(noise) && k < |noise| && HeadAt(rest, 0)
    ensures !HeadAt(noise + rest, k)
  {
    assert !HeadAt(noise, k);
    var s := noise + rest;
    assert s[|noise|] == 0xff && s[|noise| + 1] == 0xff && s[|noise| + 2] == 0xee;
  }

  /** Tag-free noise is one of the things that can come between messages. */
  lemma TagFreeNoise(noise: bytes, msg: Msg)
    requires TagFree(noise) && msg.Sendable()
    ensures Item(noise, msg).Valid()
  {
    EncodeFields(msg);
    hide Msg.Encode, HeadAt;
    forall k: nat | k < |noise| ensures !HeadAt(noise + msg.Encode(), k) {
      NoStraddle(noise, msg.Encode(), k);
    }
  }

  /** So is a head tag with any header whose lengths disagree. */
  lemma RejectedHead(head: bytes, msg: Msg)
    requires msg.Sendable() && |head| == 40
    requires head[..4] == [0xff, 0xff, 0xee, 0xee] && TagFree(head[1..])
    requires Int32(WireWord(head, 32)) + 32 <= 0x7fff_ffff
    requires Int32(WireWord(head, 4)) != Int32(WireWord(head, 32)) + 32
    ensures Item(head, msg).Valid() && !TagFree(head)
  {
    EncodeFields(msg);
    hide Msg.Encode, Int32, WireWord;
    TagBytes(head, 0);
    var e := msg.Encode();
    var s := head + e;
    FrontFixed(head, e);
    assert s[0..] == s;
    forall k: nat | 0 < k < |head| ensures !HeadAt(s, k) {
      NoStraddle(head[1..], e, k - 1);
      assert s[1..] == head[1..] + e;
      assert !HeadAt(s[1..], k - 1);
    }
  }

  /** The reference finds exactly the messages sent, in order, between any noise in which no
      frame starts, and then what it finds in the bytes behind them. */
  lemma {:induction false} SplitStream(items: seq<Item>, trailing: bytes)
    requires AllValid(items)
    ensures Split(Stream(items) + trailing) == Cat(Frames(items), Split(trailing))
  {
    if items == [] {
      assert [] + trailing == trailing && [] + Split(trailing).frames == Split(trailing).frames;
    } else {
      var noise, e := items[0].noise, items[0].msg.Encode();
      SplitItem(items[0], Stream(items[1..]) + trailing);
      SplitStream(items[1..], trailing);
      hide Msg.Encode, Split;
      Regroup(noise, e, Stream(items[1..]), trailing);
      CatCat([e], Frames(items[1..]), Split(trailing));
    }
  }

  lemma Regroup(a: bytes, b: bytes, c: bytes, d: bytes)
    ensures a + b + c + d == a + (b + (c + d))
  {
  }

  lemma SplitItem(i: Item, rest: bytes)
    requires i.Valid()
    ensures Split(i.noise + (i.msg.Encode() + rest)) == Cat([i.msg.Encode()], Split(rest))
  {
    var noise, e := i.noise, i.msg.Encode();
    EncodedFrame(i.msg, rest);
    hide Msg.Encode, Split, Frameless;
    FrontFixed(e, rest);
    FramelessExtends(noise + e, |noise|, rest);
    assert noise + e + rest == noise + (e + rest);
    assert (noise + (e + rest))[|noise|..] == e + rest;
    SplitResyncs(noise + (e + rest), |noise|);
  }

  /** More bytes do not make a frame start where all headers are complete. */
  lemma FramelessExtends(s: bytes, n: nat, t: bytes)
    requires Frameless(s, n) && n + MIN_FRAME <= |s|
    ensures Frameless(s + t, n)
  {
    forall k: nat | k < n && HeadAt(s + t, k) ensures HeaderDefined((s + t)[k..]) && !LengthsAgree((s + t)[k..]) {
      assert HeadAt(s, k);
      assert (s + t)[k..] == s[k..] + t;
      FrontFixed(s[k..], t);
    }
  }

  /** Handling any of the messages leaves alone what is behind its frame. */
  ghost predicate AllKept(h: Receiver.Handler, items: seq<Item>)
    requires AllValid(items)
  {
    forall i :: 0 <= i < |items| ==> Receiver.KeepsBehind(h, items[i].msg.Encode())
  }

  lemma {:induction false} FramesKept(h: Receiver.Handler, items: seq<Item>, fs: seq<bytes>)
    requires AllValid(items) && AllKept(h, items) && fs <= Frames(items)
    ensures Receiver.KeepsBehindAll(h, fs)
  {
    hide Receiver.KeepsBehind, Msg.Encode;
    if fs != [] {
      FramesKept(h, items[1..], fs[1..]);
      assert fs == [items[0].msg.Encode()] + fs[1..];
    }
  }

  /** End to end: whatever messages are sent, whatever noise in which no frame starts
      surrounds them, and however recv cuts the bytes into reads, the connection delivers a
      prefix of the messages, whole and in order, and all of them once all bytes are in, if
      handling a message leaves alone what is behind its frame. */
  lemma Delivered(h: Receiver.Handler, items: seq<Item>, trailing: bytes, chunks: seq<bytes>)
    requires AllValid(items) && AllKept(h, items)
    requires Frameless(trailing, |trailing|)
    requires Receiver.Admissible(h, Receiver.INITIAL, chunks)
    requires Flatten(chunks) <= Stream(items) + trailing
    ensures var r := Receiver.Run(h, Receiver.INITIAL, chunks);
            && r.defined && r.frames <= Frames(items)
            && (Flatten(chunks) == Stream(items) + trailing ==> r.frames == Frames(items))
  {
    hide Stream, Frames, Split, Receiver.Run, Receiver.Admissible, Frameless, AllKept, Receiver.KeepsBehindAll;
    var s, whole := Flatten(chunks), Stream(items) + trailing;
    SplitStream(items, trailing);
    SplitFrameless(trailing);
    assert Frames(items) + [] == Frames(items);
    SplitExtends(s, whole[|s|..]);
    assert s + whole[|s|..] == whole;
    FramesKept(h, items, Split(s).frames);
    Receiver.ChunkingIrrelevant(h, chunks);
  }
}
