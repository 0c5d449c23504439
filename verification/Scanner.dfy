/** glink_FindFrame: looking for one frame at the front of a receive buffer. */
module Scanner {
  import opened Bytes

  const HEAD_TAG: bytes := [0xff, 0xff, 0xee, 0xee]
  const TAIL_TAG: bytes := [0xee, 0xee, 0xff, 0xff]
  const MIN_FRAME := 40

  predicate HeadAt(s: bytes, i: nat) {
    i + 4 <= |s| && s[i] == 0xff && s[i + 1] == 0xff && s[i + 2] == 0xee && s[i + 3] == 0xee
  }

  predicate TailAt(s: bytes, i: nat) {
    i + 4 <= |s| && s[i] == 0xee && s[i + 1] == 0xee && s[i + 2] == 0xff && s[i + 3] == 0xff
  }

  /** The declared frame length, a signed word after the head tag. */
  function Pklen(s: bytes): int
    requires MIN_FRAME <= |s|
  {
    Int32(WireWord(s, 4))
  }

  /** The declared data length, the last word of the base header. */
  function Datalen(s: bytes): int
    requires MIN_FRAME <= |s|
  {
    Int32(WireWord(s, 32))
  }

  predicate LengthsAgree(s: bytes)
    requires MIN_FRAME <= |s|
  {
    Pklen(s) == Datalen(s) + 32
  }

  /** C gives the scan a meaning: `datalen + 32` does not overflow, and the tail of
      a frame whose two lengths agree does not start before the frame does. */
  predicate HeaderDefined(s: bytes)
    requires MIN_FRAME <= |s|
  {
    Datalen(s) + 32 <= INT_MAX && (LengthsAgree(s) ==> 4 <= Pklen(s))
  }

  /** The return code and *retframelen, or Undefined where C leaves the scan undefined. */
  datatype Scan = Undefined | Scan(ret: int, framelen: int)

  /** The first head tag at or after `i`, not looking at the last four bytes. */
  function FirstHead(s: bytes, i: nat): (k: nat)
    requires i + 4 <= |s|
    ensures i <= k && k + 4 <= |s|
    ensures forall j :: i <= j < k ==> !HeadAt(s, j)
    ensures k + 4 == |s| || HeadAt(s, k)
    decreases |s| - i
  {
    if i + 4 == |s| || HeadAt(s, i) then i else FirstHead(s, i + 1)
  }

  function Find(s: bytes): Scan {
    if |s| < MIN_FRAME then Scan(-2, MIN_FRAME - |s|)
    else if !HeadAt(s, 0) then Scan(-2, FirstHead(s, 0))
    else if !HeaderDefined(s) then Undefined
    else if !LengthsAgree(s) then Scan(-2, 4)
    else if |s| < Pklen(s) then Scan(-3, Pklen(s) - |s|)
    else if !TailAt(s, Pklen(s) - 4) then Scan(-2, Pklen(s))
    else Scan(0, Pklen(s))
  }

  /** The C function, with its search loop. */
  method FindFrame(pdata: bytes) returns (r: Scan)
    ensures r == Find(pdata)
  {
    if |pdata| < MIN_FRAME {
      return Scan(-2, MIN_FRAME - |pdata|);
    }
    if !HeadAt(pdata, 0) {
      var i, find := 0, false;
      while i < |pdata| - 4 && !find
        invariant i + 4 <= |pdata|
        invariant find ==> i < |pdata| - 4 && HeadAt(pdata, i)
        invariant FirstHead(pdata, 0) == FirstHead(pdata, i)
        decreases |pdata| - i, !find
      {
        if HeadAt(pdata, i) {
          find := true;
        } else {
          i := i + 1;
        }
      }
      return Scan(-2, if find then i else |pdata| - 4);
    }
    if !HeaderDefined(pdata) {
      return Undefined;
    }
    var pklen, datalen := Pklen(pdata), Datalen(pdata);
    if pklen != datalen + 32 {
      return Scan(-2, 4);
    }
    if |pdata| < pklen {
      return Scan(-3, pklen - |pdata|);
    }
    if !TailAt(pdata, pklen - 4) {
      return Scan(-2, pklen);
    }
    return Scan(0, pklen);
  }

  /** What the scanner makes of a head tag, in the bytes and numbers of the wire alone. */
  lemma FindAtHead(s: bytes)
    requires 40 <= |s| && s[..4] == [0xff, 0xff, 0xee, 0xee]
    ensures var p, d := Int32(WireWord(s, 4)), Int32(WireWord(s, 32));
            && (Find(s) == Undefined <==> 0x7fff_ffff < d + 32 || (p == d + 32 && p < 4))
            && (d + 32 <= 0x7fff_ffff && p != d + 32 ==> Find(s) == Scan(-2, 4))
            && (4 <= p == d + 32 && |s| < p ==> Find(s) == Scan(-3, p - |s|))
            && (4 <= p == d + 32 && p <= |s| ==>
                  Find(s) == Scan(if s[p - 4..p] == [0xee, 0xee, 0xff, 0xff] then 0 else -2, p))
  {
    TagBytes(s, 0);
    var p := Int32(WireWord(s, 4));
    Int32Value(WireWord(s, 4));
    hide Int32, WireWord, HeadAt, TailAt;
    if 4 <= p <= |s| {
      TagBytes(s, p - 4);
    }
  }

  /** What it gives up of other bytes. */
  lemma FindInNoise(s: bytes)
    requires 40 <= |s| && s[..4] != [0xff, 0xff, 0xee, 0xee]
    ensures Find(s).Scan? && Find(s).ret == -2
    ensures var n := Find(s).framelen;
            && 0 < n <= |s| - 4
            && (forall j :: 0 <= j < n ==> !(s[j] == 0xff && s[j + 1] == 0xff && s[j + 2] == 0xee && s[j + 3] == 0xee))
            && (n == |s| - 4 || s[n..n + 4] == [0xff, 0xff, 0xee, 0xee])
  {
    TagBytes(s, 0);
    var n := FirstHead(s, 0);
    TagBytes(s, n);
    forall j | 0 <= j < n ensures !(s[j] == 0xff && s[j + 1] == 0xff && s[j + 2] == 0xee && s[j + 3] == 0xee) {
      assert !HeadAt(s, j);
    }
  }

  /** A short buffer. */
  lemma FindShort(s: bytes)
    requires |s| < 40
    ensures Find(s) == Scan(-2, 40 - |s|)
  {
  }

  lemma TagBytes(s: bytes, i: nat)
    requires i + 4 <= |s|
    ensures HeadAt(s, i) <==> s[i..i + 4] == [0xff, 0xff, 0xee, 0xee]
    ensures TailAt(s, i) <==> s[i..i + 4] == [0xee, 0xee, 0xff, 0xff]
  {
    assert s[i..i + 4] == [s[i], s[i + 1], s[i + 2], s[i + 3]];
  }

  /** When the scanner gives up noise, or a head tag whose two lengths disagree, no other
      head tag begins in the bytes given up; of noise it keeps the last four bytes, where a
      tag could be incomplete, and it stops at the first tag before them. */
  lemma ScanKeepsHeads(s: bytes)
    requires MIN_FRAME <= |s| && Find(s).Scan? && Find(s).ret == -2
    requires !(HeadAt(s, 0) && LengthsAgree(s))
    ensures forall k: nat :: 0 < k < Find(s).framelen ==> !HeadAt(s, k)
    ensures HeadAt(s, 0) ==> Find(s).framelen == 4
    ensures !HeadAt(s, 0) ==>
              var n := Find(s).framelen;
              0 < n <= |s| - 4 && (n == |s| - 4 || HeadAt(s, n))
  {
    hide Pklen, Datalen;
  }
}
