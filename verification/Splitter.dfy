/** The reference: cutting a whole byte stream into frames, with no buffers and no chunks. */
module Splitter {
  import opened Bytes
  import opened Scanner

  /** The frames of a stream, and whether every header met had a meaning in C. */
  datatype Outcome = Outcome(frames: seq<bytes>, defined: bool)

  function Cat(fs: seq<bytes>, r: Outcome): Outcome {
    Outcome(fs + r.frames, r.defined)
  }

  lemma CatNone(r: Outcome)
    ensures Cat([], r) == r
  {
  }

  lemma CatCat(f: seq<bytes>, g: seq<bytes>, r: Outcome)
    ensures Cat(f, Cat(g, r)) == Cat(f + g, r)
  {
    assert f + (g + r.frames) == f + g + r.frames;
  }

  /** What to do with the front of a stream. */
  datatype Cut = Wait | Meaningless | Skip(n: nat) | Deliver(n: nat)

  /** Step over a byte that starts no head tag; drop a head tag whose two lengths
      disagree; drop a whole frame without a tail tag; deliver a whole frame. */
  function Front(s: bytes): (c: Cut)
    ensures c.Skip? || c.Deliver? ==> 1 <= c.n <= |s|
  {
    if |s| < MIN_FRAME then Wait
    else if !HeadAt(s, 0) then Skip(1)
    else if !HeaderDefined(s) then Meaningless
    else if !LengthsAgree(s) then Skip(4)
    else if |s| < Pklen(s) then Wait
    else if !TailAt(s, Pklen(s) - 4) then Skip(Pklen(s))
    else Deliver(Pklen(s))
  }

  function Split(s: bytes): Outcome
    decreases |s|
  {
    match Front(s)
    case Wait => Outcome([], true)
    case Meaningless => Outcome([], false)
    case Skip(n) => Split(s[n..])
    case Deliver(n) => Cat([s[..n]], Split(s[n..]))
  }

  /** Skipping tag-free bytes in one go, however few bytes remain. */
  lemma {:induction false} SplitSkips(s: bytes, n: nat)
    requires n <= |s|
    requires forall k :: 0 <= k < n ==> !HeadAt(s, k)
    ensures Split(s) == Split(s[n..])
  {
    if n == 0 {
      assert s[0..] == s;
    } else if MIN_FRAME <= |s| {
      forall k | 0 <= k < n - 1 ensures !HeadAt(s[1..], k) {
        assert !HeadAt(s, k + 1);
      }
      SplitSkips(s[1..], n - 1);
      assert s[1..][n - 1..] == s[n..];
    }
  }

  /** Bytes arriving later do not change what the front of the stream says. */
  lemma FrontFixed(s: bytes, t: bytes)
    requires MIN_FRAME <= |s|
    ensures HeadAt(s + t, 0) == HeadAt(s, 0)
    ensures Pklen(s + t) == Pklen(s) && Datalen(s + t) == Datalen(s)
    ensures Front(s).Wait? || Front(s + t) == Front(s)
  {
    assert forall i: nat :: i + 4 <= |s| ==> TailAt(s + t, i) == TailAt(s, i);
  }

  /** Splitting is incremental: more bytes only add frames at the end, and a stream
      that lost its meaning stays so. */
  lemma {:induction false} SplitExtends(s: bytes, t: bytes)
    ensures Split(s).frames <= Split(s + t).frames
    ensures !Split(s).defined ==> Split(s + t) == Split(s)
    decreases |s|
  {
    if !Front(s).Wait? {
      FrontFixed(s, t);
      if !Front(s).Meaningless? {
        var n := Front(s).n;
        hide Front;
        assert (s + t)[n..] == s[n..] + t && (s + t)[..n] == s[..n];
        SplitExtends(s[n..], t);
      }
    }
  }

  /** No frame starts in the first `n` bytes: a head tag there has a header whose two
      lengths disagree, or too few bytes behind it for a header. */
  ghost predicate Frameless(s: bytes, n: nat) {
    forall k: nat :: k < n && HeadAt(s, k) && k + MIN_FRAME <= |s| ==>
      HeaderDefined(s[k..]) && !LengthsAgree(s[k..])
  }

  lemma FramelessRest(s: bytes, n: nat, m: nat)
    requires Frameless(s, n) && m <= n && m <= |s|
    ensures Frameless(s[m..], n - m)
  {
    forall k: nat | k < n - m && HeadAt(s[m..], k) && k + MIN_FRAME <= |s[m..]|
      ensures HeaderDefined(s[m..][k..]) && !LengthsAgree(s[m..][k..])
    {
      assert s[m..][k..] == s[m + k..];
      assert HeadAt(s, m + k);
    }
  }

  /** How far the reference steps over the front of bytes in which no frame starts. */
  lemma FramelessFront(s: bytes, n: nat)
    requires Frameless(s, n) && 0 < n && MIN_FRAME <= |s|
    ensures Front(s) == Skip(if HeadAt(s, 0) then 4 else 1)
    ensures HeadAt(s, 0) && HeadAt(s, n) ==> 4 <= n
  {
    assert s[0..] == s;
  }

  /** Resynchronisation: over bytes in which no frame starts, with or without head tags, to
      the next head tag. */
  lemma {:induction false} SplitResyncs(s: bytes, n: nat)
    requires Frameless(s, n) && HeadAt(s, n) && n + MIN_FRAME <= |s|
    ensures Split(s) == Split(s[n..])
    decreases n
  {
    hide Front, Frameless;
    if n == 0 {
      assert s[0..] == s;
    } else {
      FramelessFront(s, n);
      var m := Front(s).n;
      FramelessRest(s, n, m);
      assert HeadAt(s[m..], n - m);
      SplitResyncs(s[m..], n - m);
      assert s[m..][n - m..] == s[n..];
    }
  }

  /** In a stream in which no frame starts the reference finds none, and meets no header
      without a meaning. */
  lemma {:induction false} SplitFrameless(s: bytes)
    requires Frameless(s, |s|)
    ensures Split(s) == Outcome([], true)
    decreases |s|
  {
    hide Frameless;
    if MIN_FRAME <= |s| {
      FramelessFront(s, |s|);
      var m := Front(s).n;
      FramelessRest(s, |s|, m);
      hide Front;
      SplitFrameless(s[m..]);
    }
  }

  /** A head tag whose two lengths disagree, in the numbers of the wire. */
  predicate Disagreeing(s: bytes)
    requires 40 <= |s|
  {
    Int32(WireWord(s, 32)) + 32 <= 0x7fff_ffff && Int32(WireWord(s, 4)) != Int32(WireWord(s, 32)) + 32
  }

  /** Such a head costs its four bytes and nothing else. */
  lemma SplitDisagreeing(s: bytes)
    requires 40 <= |s| && s[..4] == [0xff, 0xff, 0xee, 0xee]
    requires Int32(WireWord(s, 32)) + 32 <= 0x7fff_ffff && Int32(WireWord(s, 4)) != Int32(WireWord(s, 32)) + 32
    ensures Find(s) == Scan(-2, 4) && Split(s) == Split(s[4..])
  {
    hide Int32, WireWord;
    FindAtHead(s);
    TagBytes(s, 0);
  }

  /** No frame starts in the first `n` bytes exactly when every head tag there with a header
      behind it has lengths that disagree. */
  lemma FramelessExact(s: bytes, n: nat)
    ensures Frameless(s, n) <==>
            forall k: nat :: k < n && k + 40 <= |s| && s[k..k + 4] == [0xff, 0xff, 0xee, 0xee] ==> Disagreeing(s[k..])
  {
    hide Int32, WireWord;
    forall k: nat | k + 4 <= |s| ensures HeadAt(s, k) <==> s[k..k + 4] == [0xff, 0xff, 0xee, 0xee] {
      TagBytes(s, k);
    }
    if Frameless(s, n) {
      forall k: nat | k < n && k + 40 <= |s| && s[k..k + 4] == [0xff, 0xff, 0xee, 0xee]
        ensures Disagreeing(s[k..])
      {
        assert HeadAt(s, k);
      }
    }
  }

  /** `s` starts with a head tag and two lengths that agree on `Pklen(s)`. */
  predicate GoodHeader(s: bytes) {
    MIN_FRAME <= |s| && HeadAt(s, 0) && HeaderDefined(s) && LengthsAgree(s)
  }

  lemma HeaderKept(s: bytes, t: bytes)
    requires GoodHeader(s)
    ensures GoodHeader(s + t) && Pklen(s + t) == Pklen(s)
  {
    FrontFixed(s, t);
  }

  /** A whole frame at the front is delivered, or dropped if it has no tail tag. */
  lemma SplitWhole(f: bytes, t: bytes)
    requires GoodHeader(f) && |f| == Pklen(f)
    ensures Split(f + t) == if TailAt(f, |f| - 4) then Cat([f], Split(t)) else Split(t)
  {
    FrontFixed(f, t);
    assert Front(f) == if TailAt(f, |f| - 4) then Deliver(|f|) else Skip(|f|);
    hide Front;
    assert (f + t)[|f|..] == t && (f + t)[..|f|] == f;
  }

  /** A frame from its head tag to its tail tag, of the length it declares. Its data length,
      where it is long enough to hold that word, agrees. */
  predicate WholeFrame(f: bytes) {
    && 12 <= |f| && HeadAt(f, 0) && TailAt(f, |f| - 4)
    && WireWord(f, 4) == |f|
    && (36 <= |f| ==> WireWord(f, 32) == |f| - 32)
  }

  /** Gaps and frames in turn. */
  function Weave(gaps: seq<bytes>, frames: seq<bytes>): bytes
    requires |gaps| == |frames|
  {
    if gaps == [] then [] else gaps[0] + frames[0] + Weave(gaps[1..], frames[1..])
  }

  /** Whatever the stream: the frames found are whole, lie in it one after another without
      overlap, and only the bytes between and after them are given up. */
  lemma {:induction false} SplitDecomposes(s: bytes) returns (gaps: seq<bytes>, rest: bytes)
    ensures forall f :: f in Split(s).frames ==> WholeFrame(f)
    ensures |gaps| == |Split(s).frames| && s == Weave(gaps, Split(s).frames) + rest
    decreases |s|
  {
    hide Front, WholeFrame;
    match Front(s) {
      case Wait => gaps, rest := [], s;
      case Meaningless => gaps, rest := [], s;
      case Skip(n) =>
        gaps, rest := SplitDecomposes(s[n..]);
        assert s == s[..n] + s[n..];
        if gaps == [] {
          rest := s[..n] + rest;
        } else {
          WidenGap(s[..n], gaps, Split(s).frames, rest);
          gaps := [s[..n] + gaps[0]] + gaps[1..];
        }
      case Deliver(n) =>
        DeliversWhole(s);
        gaps, rest := SplitDecomposes(s[n..]);
        AddFrame(s[..n], gaps, Split(s[n..]).frames, rest);
        gaps := [[]] + gaps;
        assert s == s[..n] + s[n..];
    }
  }

  lemma WidenGap(a: bytes, gaps: seq<bytes>, fs: seq<bytes>, rest: bytes)
    requires |gaps| == |fs| && gaps != []
    ensures Weave([a + gaps[0]] + gaps[1..], fs) + rest == a + (Weave(gaps, fs) + rest)
  {
    var w := Weave(gaps[1..], fs[1..]);
    assert ([a + gaps[0]] + gaps[1..])[1..] == gaps[1..];
    Regroup(a, gaps[0], fs[0]);
    Regroup(a, gaps[0] + fs[0], w);
    Regroup(a, gaps[0] + fs[0] + w, rest);
  }

  lemma Regroup(a: bytes, b: bytes, c: bytes)
    ensures a + b + c == a + (b + c)
  {
  }

  lemma AddFrame(f: bytes, gaps: seq<bytes>, fs: seq<bytes>, rest: bytes)
    requires |gaps| == |fs|
    ensures Weave([[]] + gaps, [f] + fs) + rest == f + (Weave(gaps, fs) + rest)
  {
    var w := Weave(gaps, fs);
    assert ([[]] + gaps)[1..] == gaps && ([f] + fs)[1..] == fs;
    assert Weave([[]] + gaps, [f] + fs) == [] + f + w;
    assert [] + f == f;
    Regroup(f, w, rest);
  }

  lemma DeliversWhole(s: bytes)
    requires Front(s).Deliver?
    ensures WholeFrame(s[..Front(s).n])
  {
    var n := Front(s).n;
    var f := s[..n];
    DeclaredLength(s);
    hide Pklen, Datalen, Word;
  }

  /** A tail tag in front of the end of the length word would contradict that word. */
  lemma DeclaredLength(s: bytes)
    requires Front(s).Deliver?
    ensures var n := Front(s).n; 12 <= n && WireWord(s, 4) == n && (32 <= n ==> WireWord(s, 32) == n - 32)
  {
  }

  /** A stream that C gives no meaning: a head tag, declared length 0 and data length -32.
      The lengths agree, so the scan looks for a tail tag in front of the frame. */
  lemma NoMeaning()
    ensures var s := HEAD_TAG + [0, 0, 0, 0] + seq(24, _ => 0) + [0xff, 0xff, 0xff, 0xe0] + [0, 0, 0, 0];
            |s| == MIN_FRAME && !Split(s).defined && Pklen(s) == 0 && LengthsAgree(s)
  {
    var s := HEAD_TAG + [0, 0, 0, 0] + seq(24, _ => 0) + [0xff, 0xff, 0xff, 0xe0] + [0, 0, 0, 0];
    assert Pklen(s) == 0;
    assert Datalen(s) == -32;
  }
}
