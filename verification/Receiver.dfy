/** epFUI_OnRecv as a state machine on values: one step for each call. */
module Receiver {
  import opened Bytes
  import opened Scanner
  import opened Splitter

  const BIPBUFFER_LEN := 30000

  /** The bip buffer, as one contiguous queue of bytes with a capacity. */
  datatype Fifo = Fifo(data: bytes, cap: nat) {
    predicate Valid() { |data| <= cap }

    /** How many of the `size` bytes asked for can be reserved. */
    function Reserve(size: nat): nat
      requires Valid()
    {
      if size < cap - |data| then size else cap - |data|
    }

    function Commit(chunk: bytes): Fifo {
      Fifo(data + chunk, cap)
    }

    function Decommit(size: nat): Fifo
      requires size <= |data|
    {
      Fifo(data[size..], cap)
    }
  }

  /** tms_Analyse, which is handed a pointer into the receive buffer: `h(k, s, n)` is what call
      number `k` makes of the memory `s` with a frame of `n` bytes in front. */
  type Handler = h: (nat, bytes, nat) -> bytes |
    forall k: nat, s: bytes, n: nat :: |h(k, s, n)| == |s|
    ghost witness ((k: nat, s: bytes, n: nat) => s)

  /** Handling the frame `f` leaves the bytes behind it alone, whatever they are. Behind a
      frame too long for the small buffer there are none. */
  ghost predicate KeepsBehind(h: Handler, f: bytes) {
    forall k: nat, t: bytes :: |f + t| <= BIPBUFFER_LEN ==> h(k, f + t, |f|)[|f|..] == t
  }

  ghost predicate KeepsBehindAll(h: Handler, fs: seq<bytes>) {
    forall f :: f in fs ==> KeepsBehind(h, f)
  }

  /** struct tmsxx_app: the receive state of one connection, and how often it has called tms_Analyse. */
  datatype Rx = Rx(bb: Fifo, lbb: Fifo, large: bool, lbyte: int, morebyte: nat, calls: nat)

  /** One call: the state it leaves, the frames it hands to tms_Analyse, and whether
      C gives the call a meaning. */
  datatype Step = Step(st: Rx, frames: seq<bytes>, defined: bool)

  function Prepend(fs: seq<bytes>, r: Step): Step {
    r.(frames := fs + r.frames)
  }

  lemma PrependPrepend(f: seq<bytes>, g: seq<bytes>, r: Step)
    ensures Prepend(f, Prepend(g, r)) == Prepend(f + g, r)
  {
    assert f + (g + r.frames) == f + g + r.frames;
  }

  /** InitSocketStruct. */
  const INITIAL := Rx(Fifo([], BIPBUFFER_LEN), Fifo([], 0), false, 0, 400, 0)

  /** The bytes received and not yet disposed of. */
  function Pending(st: Rx): bytes {
    if st.large then st.lbb.data else st.bb.data
  }

  /** The number of bytes the call reserves, hence the most recv can return. */
  function Room(st: Rx): nat
    requires st.bb.Valid() && st.lbb.Valid()
  {
    if !st.large then st.bb.Reserve(st.morebyte)
    else st.lbb.Reserve(if st.lbyte < 0 then 0 else st.lbyte)
  }

  /** What recv may return: any 1 to `Room` bytes; it is not called when there is no room. */
  predicate Fits(st: Rx, chunk: bytes) {
    st.bb.Valid() && st.lbb.Valid() && |chunk| <= Room(st) && (0 < Room(st) ==> 0 < |chunk|)
  }

  /** The end of the call: a finished large buffer is swapped out and released. */
  function Release(st: Rx): Rx {
    if st.large && st.lbyte <= 0
    then st.(large := false, bb := st.lbb, lbb := Fifo([], 0))
    else st
  }

  /** A frame longer than the small buffer moves to a buffer of its own. */
  function Enlarge(st: Rx, total: nat): Rx {
    st.(bb := Fifo([], st.bb.cap), lbb := Fifo(st.bb.data, total), large := true, lbyte := total - |st.bb.data|)
  }

  /** A frame is taken off the buffer and analysed in place. */
  function Delivered(h: Handler, st: Rx, n: nat): Rx
    requires n <= |st.bb.data|
  {
    st.(bb := Fifo(h(st.calls, st.bb.data, n)[n..], st.bb.cap), morebyte := 40, calls := st.calls + 1)
  }

  /** How one pass after the label _Again ends: by jumping back, or by leaving the call. */
  datatype Pass = Again(st: Rx, frames: seq<bytes>) | Leave(step: Step)

  function OnePass(h: Handler, st: Rx): (p: Pass)
    ensures p.Again? ==> |p.st.bb.data| < |st.bb.data|
  {
    var s := st.bb.data;
    if |s| < MIN_FRAME then Leave(Step(Release(st), [], true))
    else
      FindProgress(s);
      match Find(s)
      case Undefined => Leave(Step(st, [], false))
      case Scan(ret, n) =>
        if ret == -3 then
          var st1 := st.(morebyte := 40);
          Leave(Step(Release(if |s| + n > BIPBUFFER_LEN then Enlarge(st1, |s| + n) else st1), [], true))
        else if ret == -2 then Again(st.(bb := st.bb.Decommit(n), morebyte := 40), [])
        else
          var st1 := Delivered(h, st, n);
          if !st.large then Again(st1, [s[..n]]) else Leave(Step(Release(st1), [s[..n]], true))
  }

  /** All the passes of one call. */
  function Rescan(h: Handler, st: Rx): Step
    decreases |st.bb.data|
  {
    match OnePass(h, st)
    case Again(st1, fs) => Prepend(fs, Rescan(h, st1))
    case Leave(step) => step
  }

  /** A pass and the passes after it, with the frames `got` by the passes before. */
  lemma RescanStep(h: Handler, got: seq<bytes>, st: Rx)
    ensures OnePass(h, st).Again? ==>
              Prepend(got, Rescan(h, st)) == Prepend(got + OnePass(h, st).frames, Rescan(h, OnePass(h, st).st))
    ensures OnePass(h, st).Leave? ==>
              Prepend(got, Rescan(h, st)) == Prepend(got, OnePass(h, st).step)
  {
    if OnePass(h, st).Again? {
      PrependPrepend(got, OnePass(h, st).frames, Rescan(h, OnePass(h, st).st));
    }
  }

  /** One call of epFUI_OnRecv in which recv returns `chunk`. */
  function Receive(h: Handler, st: Rx, chunk: bytes): Step
    requires Fits(st, chunk)
  {
    if Room(st) == 0 then Rescan(h, st)
    else if !st.large then Rescan(h, st.(bb := st.bb.Commit(chunk)))
    else
      var st1 := st.(lbb := st.lbb.Commit(chunk), lbyte := st.lbyte - |chunk|);
      if st1.lbyte > 0 then Step(st1, [], true)
      else Rescan(h, st1.(bb := st1.lbb, lbb := st1.bb))
  }

  /** Nothing can be done with `s` before more bytes arrive, and the small buffer can hold them. */
  predicate Quiet(s: bytes) {
    |s| < MIN_FRAME || (GoodHeader(s) && |s| < Pklen(s) <= BIPBUFFER_LEN)
  }

  /** The small buffer is in use and the large one is not allocated. */
  predicate Small(st: Rx) {
    && !st.large
    && st.bb.Valid() && st.bb.cap == BIPBUFFER_LEN
    && st.lbb == Fifo([], 0)
    && st.morebyte in {40, 400}
  }

  /** The state between calls. */
  predicate Valid(st: Rx) {
    if st.large then
      && st.bb == Fifo([], BIPBUFFER_LEN)
      && GoodHeader(st.lbb.data)
      && BIPBUFFER_LEN < st.lbb.cap == Pklen(st.lbb.data)
      && 0 < st.lbyte == st.lbb.cap - |st.lbb.data|
      && st.morebyte == 40
    else Small(st) && Quiet(st.bb.data)
  }

  /** Every pass that scans either stops or removes at least one buffered byte and no
      more than are buffered, exactly when C gives the scan a meaning. */
  lemma FindProgress(s: bytes)
    requires MIN_FRAME <= |s|
    ensures Find(s).Scan? <==> !HeadAt(s, 0) || HeaderDefined(s)
    ensures Find(s).Scan? ==> Find(s).ret in {0, -2, -3}
    ensures Find(s).Scan? && Find(s).ret in {0, -2} ==> 1 <= Find(s).framelen <= |s|
    ensures Find(s).Scan? && Find(s).ret == -3 ==> GoodHeader(s) && |s| + Find(s).framelen == Pklen(s)
  {
  }

  /** One scan of a buffer does to the stream what the reference does, whatever follows. */
  lemma FindSplits(s: bytes, t: bytes)
    requires MIN_FRAME <= |s|
    ensures Find(s) == Undefined ==> Split(s + t) == Outcome([], false)
    ensures Find(s).Scan? && Find(s).ret == -2 ==> Split(s + t) == Split(s[Find(s).framelen..] + t)
    ensures Find(s).Scan? && Find(s).ret == 0 ==>
              Split(s + t) == Cat([s[..Find(s).framelen]], Split(s[Find(s).framelen..] + t))
  {
    FrontFixed(s, t);
    if Find(s).Scan? && Find(s).ret != -3 {
      var n := Find(s).framelen;
      assert (s + t)[n..] == s[n..] + t && (s + t)[..n] == s[..n];
      if !HeadAt(s, 0) {
        forall k | 0 <= k < n ensures !HeadAt(s + t, k) {
          assert !HeadAt(s, k);
        }
        SplitSkips(s + t, n);
      }
    }
  }

  /** `r` leaves a call in order, having done to the stream `s` what the reference does. */
  predicate Refines(r: Step, s: bytes, t: bytes) {
    if r.defined then Valid(r.st) && Split(s + t) == Cat(r.frames, Split(Pending(r.st) + t))
    else Split(s + t) == Outcome(r.frames, false)
  }

  predicate PassRefines(p: Pass, s: bytes, t: bytes) {
    match p
    case Again(st, fs) => Small(st) && Split(s + t) == Cat(fs, Split(st.bb.data + t))
    case Leave(step) => Refines(step, s, t)
  }

  lemma DeliveredKeeps(h: Handler, st: Rx, n: nat)
    requires n <= |st.bb.data| <= BIPBUFFER_LEN && KeepsBehind(h, st.bb.data[..n])
    ensures Delivered(h, st, n).bb.data == st.bb.data[n..]
  {
    var f, t := st.bb.data[..n], st.bb.data[n..];
    assert st.bb.data == f + t;
    assert h(st.calls, f + t, |f|)[|f|..] == t;
  }

  /** A pass over the small buffer, whatever tms_Analyse does to the bytes behind a frame. */
  lemma PassValid(h: Handler, st: Rx)
    requires Small(st)
    ensures var p := OnePass(h, st);
            if p.Again? then Small(p.st) else p.step.defined ==> Valid(p.step.st)
  {
    if MIN_FRAME <= |st.bb.data| {
      FindProgress(st.bb.data);
    }
  }

  lemma {:induction false} RescanValid(h: Handler, st: Rx)
    requires Small(st)
    ensures Rescan(h, st).defined ==> Valid(Rescan(h, st).st)
    decreases |st.bb.data|
  {
    PassValid(h, st);
    match OnePass(h, st) {
      case Leave(_) =>
      case Again(st1, _) => RescanValid(h, st1);
    }
  }

  lemma PassSmall(h: Handler, st: Rx, t: bytes)
    requires Small(st) && KeepsBehindAll(h, Split(st.bb.data + t).frames)
    ensures PassRefines(OnePass(h, st), st.bb.data, t)
  {
    var s := st.bb.data;
    assert Cat([], Split(s + t)) == Split(s + t);
    PassValid(h, st);
    if MIN_FRAME <= |s| {
      FindProgress(s);
      FindSplits(s, t);
      if Find(s).Scan? && Find(s).ret == 0 {
        var n := Find(s).framelen;
        assert s[..n] in Split(s + t).frames;
        DeliveredKeeps(h, st, n);
      }
    }
  }

  /** The rescan loop of the small buffer against the reference, if tms_Analyse keeps what is
      behind the frames of the stream. */
  lemma {:induction false} RescanSmall(h: Handler, st: Rx, t: bytes)
    requires Small(st) && KeepsBehindAll(h, Split(st.bb.data + t).frames)
    ensures Refines(Rescan(h, st), st.bb.data, t)
    decreases |st.bb.data|
  {
    PassSmall(h, st, t);
    match OnePass(h, st) {
      case Leave(_) =>
      case Again(st1, fs) =>
        RescanSmall(h, st1, t);
        var r := Rescan(h, st1);
        CatCat(fs, r.frames, Split(Pending(r.st) + t));
    }
  }

  /** The small buffer with a frame in front: the frame is analysed, and the rescan goes on. */
  lemma RescanDelivers(h: Handler, st: Rx, n: nat)
    requires Small(st) && MIN_FRAME <= |st.bb.data| && Find(st.bb.data) == Scan(0, n)
    ensures n <= |st.bb.data|
    ensures Small(Delivered(h, st, n))
    ensures Rescan(h, st) == Prepend([st.bb.data[..n]], Rescan(h, Delivered(h, st, n)))
  {
    FindProgress(st.bb.data);
    hide Find;
  }

  /** The small buffer with too little for a scan. */
  lemma RescanWaits(h: Handler, st: Rx)
    requires Small(st) && |st.bb.data| < MIN_FRAME
    ensures Rescan(h, st) == Step(st, [], true)
  {
  }

  /** A frame that arrives alone in the small buffer is delivered, and the buffer is empty again. */
  lemma ArrivesAlone(h: Handler, st: Rx, f: bytes)
    requires Small(st) && st.bb.data == []
    requires MIN_FRAME <= |f| <= Room(st) && Find(f) == Scan(0, |f|)
    ensures var r := Receive(h, st, f);
            && r.defined && r.frames == [f]
            && Small(r.st) && r.st.bb.data == [] && r.st.morebyte == 40
  {
    hide Rescan, Find, Prepend;
    var st1 := st.(bb := st.bb.Commit(f));
    assert [] + f == f && f[..|f|] == f;
    RescanDelivers(h, st1, |f|);
    var st2 := Delivered(h, st1, |f|);
    RescanWaits(h, st2);
    PrependOne(f, st2);
  }

  lemma PrependOne(f: bytes, st: Rx)
    ensures Prepend([f], Step(st, [], true)) == Step(st, [f], true)
  {
  }

  /** 40 bytes without a head tag in front give no frame. */
  lemma RescanHeadless(h: Handler, st: Rx)
    requires Small(st) && |st.bb.data| == MIN_FRAME && !HeadAt(st.bb.data, 0)
    ensures Rescan(h, st).defined && Rescan(h, st).frames == []
  {
    var n := FirstHead(st.bb.data, 0);
    var st1 := st.(bb := st.bb.Decommit(n), morebyte := 40);
    assert OnePass(h, st) == Again(st1, []);
    RescanWaits(h, st1);
  }

  /** A filled large buffer holds one frame: it is delivered or dropped whole, and the
      connection is back in its small buffer, which is empty. */
  lemma RescanLarge(h: Handler, st: Rx)
    requires st.large && st.lbyte <= 0 && st.lbb == Fifo([], BIPBUFFER_LEN)
    requires GoodHeader(st.bb.data) && |st.bb.data| == Pklen(st.bb.data)
    ensures var f := st.bb.data;
            Rescan(h, st) == Step(Rx(Fifo([], BIPBUFFER_LEN), Fifo([], 0), false, st.lbyte, 40,
                                     st.calls + if TailAt(f, |f| - 4) then 1 else 0),
                                  if TailAt(f, |f| - 4) then [f] else [], true)
  {
    var f := st.bb.data;
    var st1 := st.(bb := st.bb.Decommit(|f|), morebyte := 40);
    assert f[..|f|] == f;
    assert Find(f) == Scan(if TailAt(f, |f| - 4) then 0 else -2, |f|);
    assert Rescan(h, st1) == Step(Release(st1), [], true);
  }

  /** Large mode, one call: until the frame is whole the bytes only gather in its buffer. */
  lemma LargeStays(h: Handler, st: Rx, chunk: bytes)
    requires Valid(st) && st.large && Fits(st, chunk)
    requires |chunk| < st.lbyte
    ensures var f := st.lbb.data + chunk;
            && Receive(h, st, chunk) == Step(Rx(st.bb, Fifo(f, Pklen(f)), true, Pklen(f) - |f|, 40, st.calls), [], true)
            && Valid(Receive(h, st, chunk).st)
  {
    HeaderKept(st.lbb.data, chunk);
    hide GoodHeader, Pklen;
  }

  /** Large mode, the last call: the frame is delivered, or dropped if it has no tail tag,
      and either way the connection is back in its small buffer, which is empty. */
  lemma LargeEnds(h: Handler, st: Rx, chunk: bytes)
    requires Valid(st) && st.large && Fits(st, chunk)
    requires st.lbyte <= |chunk|
    ensures var f := st.lbb.data + chunk;
            && GoodHeader(f) && |f| == Pklen(f)
            && Receive(h, st, chunk) ==
               Step(Rx(Fifo([], BIPBUFFER_LEN), Fifo([], 0), false, 0, 40,
                       st.calls + if TailAt(f, |f| - 4) then 1 else 0),
                    if TailAt(f, |f| - 4) then [f] else [], true)
  {
    hide GoodHeader, Pklen, Rescan, TailAt;
    HeaderKept(st.lbb.data, chunk);
    var f := st.lbb.data + chunk;
    RescanLarge(h, st.(lbb := st.bb, bb := Fifo(f, st.lbb.cap), lbyte := 0));
  }

  /** One call leaves a valid state, whatever tms_Analyse does to the buffer. */
  lemma ReceiveValid(h: Handler, st: Rx, chunk: bytes)
    requires Valid(st) && Fits(st, chunk)
    ensures Receive(h, st, chunk).defined ==> Valid(Receive(h, st, chunk).st)
  {
    NeverStalls(st);
    assert Quiet([]);
    if !st.large {
      hide Rescan, Quiet;
      RescanValid(h, st.(bb := st.bb.Commit(chunk)));
    } else if |chunk| < st.lbyte {
      LargeStays(h, st, chunk);
    } else {
      LargeEnds(h, st, chunk);
    }
  }

  /** One call against the reference, whatever arrives later. */
  lemma ReceiveRefines(h: Handler, st: Rx, chunk: bytes, t: bytes)
    requires Valid(st) && Fits(st, chunk)
    requires KeepsBehindAll(h, Split(Pending(st) + chunk + t).frames)
    ensures Refines(Receive(h, st, chunk), Pending(st) + chunk, t)
  {
    hide Valid, Fits, Refines, Receive, KeepsBehindAll;
    if st.large {
      LargeRefines(h, st, chunk, t);
    } else {
      SmallRefines(h, st, chunk, t);
    }
  }

  /** In large mode there is nothing behind the frame that tms_Analyse could change. */
  lemma LargeRefines(h: Handler, st: Rx, chunk: bytes, t: bytes)
    requires Valid(st) && st.large && Fits(st, chunk)
    ensures Refines(Receive(h, st, chunk), Pending(st) + chunk, t)
  {
    hide Split, Rescan, Quiet, Receive, GoodHeader, Pklen, TailAt;
    ReceiveValid(h, st, chunk);
    if |chunk| < st.lbyte {
      LargeStays(h, st, chunk);
      CatNone(Split(st.lbb.data + chunk + t));
    } else {
      LargeEnds(h, st, chunk);
      SplitWhole(st.lbb.data + chunk, t);
      CatNone(Split(t));
      assert [] + t == t;
    }
  }

  lemma SmallRefines(h: Handler, st: Rx, chunk: bytes, t: bytes)
    requires Valid(st) && !st.large && Fits(st, chunk)
    requires KeepsBehindAll(h, Split(Pending(st) + chunk + t).frames)
    ensures Refines(Receive(h, st, chunk), Pending(st) + chunk, t)
  {
    hide Split, Rescan, Quiet;
    NeverStalls(st);
    RescanSmall(h, st.(bb := st.bb.Commit(chunk)), t);
  }

  lemma QuietSplits(st: Rx)
    requires Valid(st)
    ensures Split(Pending(st)) == Outcome([], true)
  {
  }

  /** One call delivers what the reference finds in the bytes at hand. */
  lemma ReceiveSplits(h: Handler, st: Rx, chunk: bytes)
    requires Valid(st) && Fits(st, chunk)
    requires KeepsBehindAll(h, Split(Pending(st) + chunk).frames)
    ensures var r := Receive(h, st, chunk);
            Split(Pending(st) + chunk) == Outcome(r.frames, r.defined) && (r.defined ==> Valid(r.st))
  {
    assert Pending(st) + chunk + [] == Pending(st) + chunk;
    ReceiveRefines(h, st, chunk, []);
    var r := Receive(h, st, chunk);
    if r.defined {
      assert Pending(r.st) + [] == Pending(r.st);
      QuietSplits(r.st);
    }
  }

  /** Between calls there is always room, and a read never crosses the end of a large frame. */
  lemma NeverStalls(st: Rx)
    requires Valid(st)
    ensures 0 < Room(st)
    ensures st.large ==> Room(st) == st.lbyte == Pklen(st.lbb.data) - |st.lbb.data|
  {
  }

  /** Every chunk of the run fits the state it meets. */
  predicate Admissible(h: Handler, st: Rx, chunks: seq<bytes>)
    decreases |chunks|
  {
    chunks == [] ||
    (Fits(st, chunks[0]) &&
     (Receive(h, st, chunks[0]).defined ==> Admissible(h, Receive(h, st, chunks[0]).st, chunks[1..])))
  }

  /** Any number of calls; a run ends early where C gives no meaning. */
  function Run(h: Handler, st: Rx, chunks: seq<bytes>): Step
    requires Admissible(h, st, chunks)
    decreases |chunks|
  {
    if chunks == [] then Step(st, [], true)
    else
      var r := Receive(h, st, chunks[0]);
      if !r.defined then r
      else
        Prepend(r.frames, Run(h, r.st, chunks[1..]))
  }

  lemma {:induction false} RunValid(h: Handler, st: Rx, chunks: seq<bytes>)
    requires Valid(st) && Admissible(h, st, chunks)
    ensures Run(h, st, chunks).defined ==> Valid(Run(h, st, chunks).st)
    decreases |chunks|
  {
    hide Valid, Receive;
    if chunks != [] {
      ReceiveValid(h, st, chunks[0]);
      var r := Receive(h, st, chunks[0]);
      if r.defined {
        RunValid(h, r.st, chunks[1..]);
      }
    }
  }

  lemma KeepsRest(h: Handler, fs: seq<bytes>, r: Outcome)
    requires KeepsBehindAll(h, Cat(fs, r).frames)
    ensures KeepsBehindAll(h, r.frames)
  {
  }

  /** Any run against the reference, if tms_Analyse keeps what is behind the frames of the stream. */
  lemma {:induction false} RunRefines(h: Handler, st: Rx, chunks: seq<bytes>, t: bytes)
    requires Valid(st) && Admissible(h, st, chunks)
    requires KeepsBehindAll(h, Split(Pending(st) + Flatten(chunks) + t).frames)
    ensures Refines(Run(h, st, chunks), Pending(st) + Flatten(chunks), t)
    decreases |chunks|
  {
    hide Valid, Receive, Split, KeepsBehindAll, Pending;
    if chunks == [] {
      assert Pending(st) + [] + t == Pending(st) + t;
      CatNone(Split(Pending(st) + t));
    } else {
      var c, rest := chunks[0], Flatten(chunks[1..]);
      var r := Receive(h, st, c);
      assert Pending(st) + (c + rest) + t == Pending(st) + c + (rest + t);
      ReceiveRefines(h, st, c, rest + t);
      if r.defined {
        assert Pending(r.st) + rest + t == Pending(r.st) + (rest + t);
        KeepsRest(h, r.frames, Split(Pending(r.st) + (rest + t)));
        RunRefines(h, r.st, chunks[1..], t);
        RunCat(r, Run(h, r.st, chunks[1..]), rest, t);
      }
    }
  }

  /** Joining a call's outcome with that of the calls after it. */
  lemma RunCat(r: Step, q: Step, rest: bytes, t: bytes)
    requires Refines(q, Pending(r.st) + rest, t)
    ensures Cat(r.frames, Split(Pending(r.st) + (rest + t))) ==
            if q.defined then Cat(r.frames + q.frames, Split(Pending(q.st) + t))
            else Outcome(r.frames + q.frames, false)
  {
    assert Pending(r.st) + (rest + t) == Pending(r.st) + rest + t;
    if q.defined {
      CatCat(r.frames, q.frames, Split(Pending(q.st) + t));
    }
  }

  /** However the stream is cut into reads, the connection delivers the frames of the
      reference, and has a meaning in C exactly when the stream has, if tms_Analyse keeps
      what is behind those frames. */
  lemma ChunkingIrrelevant(h: Handler, chunks: seq<bytes>)
    requires Admissible(h, INITIAL, chunks)
    requires KeepsBehindAll(h, Split(Flatten(chunks)).frames)
    ensures Run(h, INITIAL, chunks).frames == Split(Flatten(chunks)).frames
    ensures Run(h, INITIAL, chunks).defined == Split(Flatten(chunks)).defined
    ensures Run(h, INITIAL, chunks).defined ==> Valid(Run(h, INITIAL, chunks).st)
  {
    assert Pending(INITIAL) + Flatten(chunks) + [] == Flatten(chunks);
    RunRefines(h, INITIAL, chunks, []);
    var r := Run(h, INITIAL, chunks);
    if r.defined {
      assert Pending(r.st) + [] == Pending(r.st);
      QuietSplits(r.st);
    }
  }

  /** The number of bytes to ask for is 400 until 40 bytes have been scanned, and 40 from then on. */
  predicate AsksRight(st: Rx) {
    st.morebyte == 400 ==> !st.large && |st.bb.data| < MIN_FRAME
  }

  lemma {:induction false} RescanForty(h: Handler, st: Rx)
    requires Small(st) && st.morebyte == 40
    ensures Rescan(h, st).defined ==> Rescan(h, st).st.morebyte == 40
    decreases |st.bb.data|
  {
    PassValid(h, st);
    if MIN_FRAME <= |st.bb.data| {
      FindProgress(st.bb.data);
    }
    hide Find;
    if OnePass(h, st).Again? {
      RescanForty(h, OnePass(h, st).st);
    }
  }

  lemma RescanAsks(h: Handler, st: Rx)
    requires Small(st)
    ensures var r := Rescan(h, st);
            r.defined ==> if st.morebyte == 400 && |st.bb.data| < MIN_FRAME then r.st == st else r.st.morebyte == 40
  {
    if |st.bb.data| < MIN_FRAME {
      RescanWaits(h, st);
      hide Rescan;
    } else {
      PassValid(h, st);
      FindProgress(st.bb.data);
      hide Find;
      if OnePass(h, st).Again? {
        RescanForty(h, OnePass(h, st).st);
      }
    }
  }

  lemma ReceiveAsks(h: Handler, st: Rx, chunk: bytes)
    requires Valid(st) && AsksRight(st) && Fits(st, chunk)
    ensures var r := Receive(h, st, chunk);
            r.defined ==>
              if st.morebyte == 400 && |Pending(st)| + |chunk| < MIN_FRAME
              then r.st.morebyte == 400 && !r.st.large && Pending(r.st) == Pending(st) + chunk
              else r.st.morebyte == 40
  {
    hide Rescan, Quiet, GoodHeader, Pklen, TailAt;
    NeverStalls(st);
    if !st.large {
      RescanAsks(h, st.(bb := st.bb.Commit(chunk)));
    } else if |chunk| < st.lbyte {
      LargeStays(h, st, chunk);
    } else {
      LargeEnds(h, st, chunk);
    }
  }

  lemma {:induction false} RunAsks(h: Handler, st: Rx, chunks: seq<bytes>)
    requires Valid(st) && AsksRight(st) && Admissible(h, st, chunks)
    ensures Run(h, st, chunks).defined ==>
              Run(h, st, chunks).st.morebyte ==
              if st.morebyte == 400 && |Pending(st)| + |Flatten(chunks)| < MIN_FRAME then 400 else 40
    decreases |chunks|
  {
    if chunks == [] {
      MoreBytes(st);
    } else {
      hide Valid, Fits, Receive;
      ReceiveValid(h, st, chunks[0]);
      ReceiveAsks(h, st, chunks[0]);
      var r := Receive(h, st, chunks[0]);
      if r.defined {
        RunAsks(h, r.st, chunks[1..]);
      }
    }
  }

  lemma MoreBytes(st: Rx)
    requires Valid(st)
    ensures st.morebyte in {40, 400} && (st.morebyte == 400 ==> !st.large)
  {
  }

  /** In every run, at every call: while a large frame is being received the small buffer is
      empty, the large one holds a proper prefix of that frame, the countdown is what is
      missing, and no read can cross the end of the frame. Nothing that tms_Analyse does to
      the buffer can change this. */
  lemma LargeInvariant(h: Handler, chunks: seq<bytes>)
    requires Admissible(h, INITIAL, chunks)
    ensures var r := Run(h, INITIAL, chunks);
            r.defined && r.st.large ==>
              && r.st.bb == Fifo([], 30000)
              && GoodHeader(r.st.lbb.data)
              && 30000 < Pklen(r.st.lbb.data) == |r.st.lbb.data| + r.st.lbyte == r.st.lbb.cap
              && 0 < r.st.lbyte == Room(r.st)
  {
    RunValid(h, INITIAL, chunks);
    hide Run, Admissible, Split, GoodHeader, Pklen;
    if Run(h, INITIAL, chunks).defined {
      NeverStalls(Run(h, INITIAL, chunks).st);
    }
  }

  /** In every run the small buffer never stalls: what it keeps is under 40 bytes or an
      incomplete frame that fits, and the next read gets at least one byte of room, whatever
      tms_Analyse does to the buffer. */
  lemma SmallInvariant(h: Handler, chunks: seq<bytes>)
    requires Admissible(h, INITIAL, chunks)
    ensures var r := Run(h, INITIAL, chunks);
            r.defined && !r.st.large ==>
              && (|r.st.bb.data| < MIN_FRAME ||
                  (GoodHeader(r.st.bb.data) && |r.st.bb.data| < Pklen(r.st.bb.data) <= 30000))
              && |r.st.bb.data| < r.st.bb.cap == 30000 && r.st.lbb == Fifo([], 0)
              && r.st.morebyte == (if |Flatten(chunks)| < 40 then 400 else 40)
              && 0 < Room(r.st)
              && Room(r.st) == if r.st.morebyte < 30000 - |r.st.bb.data| then r.st.morebyte else 30000 - |r.st.bb.data|
  {
    RunValid(h, INITIAL, chunks);
    RunAsks(h, INITIAL, chunks);
    hide Run, Admissible, Split, GoodHeader, Pklen;
    if Run(h, INITIAL, chunks).defined {
      NeverStalls(Run(h, INITIAL, chunks).st);
    }
  }

  /** Every stream can arrive, for instance byte by byte. */
  function Singles(s: bytes): seq<bytes> {
    if s == [] then [] else [[s[0]]] + Singles(s[1..])
  }

  lemma OneByteFits(st: Rx, b: byte)
    requires Valid(st)
    ensures Fits(st, [b])
  {
    NeverStalls(st);
  }

  lemma {:induction false} AnyStreamArrives(h: Handler, st: Rx, s: bytes)
    requires Valid(st)
    ensures Admissible(h, st, Singles(s)) && Flatten(Singles(s)) == s
    decreases |s|
  {
    hide Valid, Fits, Receive;
    if s != [] {
      var c := [s[0]];
      OneByteFits(st, s[0]);
      ReceiveValid(h, st, c);
      if Receive(h, st, c).defined {
        AnyStreamArrives(h, Receive(h, st, c).st, s[1..]);
      } else {
        AnyStreamArrives(h, st, s[1..]);
      }
      assert Singles(s)[0] == c && Singles(s)[1..] == Singles(s[1..]);
    }
  }
}
