/** epFUI_OnRecv in its own form: fields changed in place and a rescan loop. */
module Connection {
  import opened Bytes
  import opened Scanner
  import opened Splitter
  import opened Receiver

  class Connection {
    const analyse: Handler
    var bb: Fifo
    var lbb: Fifo
    var enableLbb: bool
    var lbyte: int
    var morebyte: nat
    /** How often tms_Analyse has been called. */
    var calls: nat
    /** The frames handed to it, in order, as they were received. */
    var analysed: seq<bytes>

    function State(): Rx
      reads this
    {
      Rx(bb, lbb, enableLbb, lbyte, morebyte, calls)
    }

    /** InitSocketStruct. */
    constructor (h: Handler)
      ensures State() == INITIAL && Receiver.Valid(State()) && analysed == [] && analyse == h
      ensures State() == Rx(Fifo([], 30000), Fifo([], 0), false, 0, 400, 0)
    {
      analyse := h;
      bb, lbb := Fifo([], BIPBUFFER_LEN), Fifo([], 0);
      enableLbb, lbyte, morebyte, calls := false, 0, 400, 0;
      analysed := [];
    }

    method SwapBuffers()
      modifies `bb, `lbb
      ensures bb == old(lbb) && lbb == old(bb)
    {
      var tbb := lbb;
      lbb := bb;
      bb := tbb;
    }

    /** One call; `chunk` is what recv returns. `ok` is false where C gives the scan no meaning. */
    method OnRecv(chunk: bytes) returns (ok: bool)
      requires Receiver.Valid(State()) && Fits(State(), chunk)
      modifies this
      ensures var r := Receive(analyse, old(State()), chunk);
              State() == r.st && ok == r.defined && analysed == old(analysed) + r.frames
      ensures var s := old(Pending(State())) + chunk;
              KeepsBehindAll(analyse, Split(s).frames) ==>
                ok == Split(s).defined && analysed == old(analysed) + Split(s).frames
      ensures ok ==> Receiver.Valid(State())
    {
      hide Split, Receiver.Rescan, Receiver.Valid, KeepsBehindAll;
      ghost var before := State();
      ReceiveValid(analyse, before, chunk);
      if KeepsBehindAll(analyse, Split(Pending(before) + chunk).frames) {
        ReceiveSplits(analyse, before, chunk);
      }
      NeverStalls(before);
      if !enableLbb {
        bb := bb.Commit(chunk);
      } else {
        lbb := lbb.Commit(chunk);
        lbyte := lbyte - |chunk|;
        if lbyte > 0 {
          assert analysed == old(analysed) + [];
          return true;
        }
        SwapBuffers();
      }
      ok := Rescan();
    }

    /** A large buffer for one whole frame takes over what has been received of it. */
    method EnlargeBuffer(total: nat)
      modifies this
      ensures State() == Enlarge(old(State()), total) && analysed == old(analysed)
    {
      lbyte := total;
      lbb := Fifo([], lbyte);
      lbb := lbb.Commit(bb.data);
      bb := bb.Decommit(|bb.data|);
      lbyte := lbyte - |lbb.data|;
      enableLbb := true;
    }

    /** The end of the call. */
    method ReleaseBuffer()
      modifies this
      ensures State() == Release(old(State())) && analysed == old(analysed)
    {
      if enableLbb && lbyte <= 0 {
        enableLbb := false;
        SwapBuffers();
        lbb := Fifo([], 0);
      }
    }

    /** The pass that appended to `before` and ended with the results `again` and `ok`. */
    function PassOf(before: seq<bytes>, again: bool, ok: bool): Pass
      requires before <= analysed
      reads this
    {
      var fs := analysed[|before|..];
      if again then Again(State(), fs) else Leave(Step(State(), fs, ok))
    }

    /** tms_Analyse, on a pointer to where the frame still is: it may write behind the frame. */
    method Analyse(pdata: bytes, len: nat)
      requires len <= |pdata| && bb.data == pdata[len..]
      modifies `bb, `calls, `analysed
      ensures bb == Fifo(analyse(old(calls), pdata, len)[len..], old(bb.cap))
      ensures calls == old(calls) + 1 && analysed == old(analysed) + [pdata[..len]]
    {
      bb := Fifo(analyse(calls, pdata, len)[len..], bb.cap);
      calls := calls + 1;
      analysed := analysed + [pdata[..len]];
    }

    /** One pass after the label _Again; `again` is the jump back to it. */
    method OnePass() returns (again: bool, ok: bool)
      modifies this
      ensures old(analysed) <= analysed
      ensures Receiver.OnePass(analyse, old(State())) == PassOf(old(analysed), again, ok)
    {
      var recvTotal := |bb.data|;
      if MIN_FRAME <= recvTotal {
        var scan := FindFrame(bb.data);
        FindProgress(bb.data);
        if scan.Undefined? {
          return false, false;
        }
        var ret, retFramelen := scan.ret, scan.framelen;
        morebyte := 40;
        if ret == 0 {
          var pdata := bb.data;
          bb := bb.Decommit(retFramelen);
          Analyse(pdata, retFramelen);
          if !enableLbb {
            return true, true;
          }
        } else if ret == -2 {
          bb := bb.Decommit(retFramelen);
          return true, true;
        } else if retFramelen + recvTotal > BIPBUFFER_LEN {
          EnlargeBuffer(recvTotal + retFramelen);
        }
      }
      ReleaseBuffer();
      return false, true;
    }

    /** The passes of one call. */
    method Rescan() returns (ok: bool)
      modifies this
      ensures var r := Receiver.Rescan(analyse, old(State()));
              State() == r.st && ok == r.defined && analysed == old(analysed) + r.frames
    {
      hide Receiver.OnePass, Receiver.Rescan;
      ghost var goal := Receiver.Rescan(analyse, State());
      ghost var got: seq<bytes> := [];
      var again := true;
      ok := true;
      while again
        invariant analysed == old(analysed) + got
        invariant again ==> goal == Prepend(got, Receiver.Rescan(analyse, State()))
        invariant !again ==> goal == Step(State(), got, ok)
        decreases again, |bb.data|
      {
        ghost var before := analysed;
        RescanStep(analyse, got, State());
        again, ok := OnePass();
        got := got + analysed[|before|..];
      }
    }
  }
}
