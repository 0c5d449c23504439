/** The rolling RAM log: an append stream cut into files of a fixed size. */
module RamLog {
  import opened Bytes

  const K := 1024

  /** `data` cut into files of `size` bytes; the last may be shorter, and there is always one. */
  function Pack(data: bytes, size: nat): (fs: seq<bytes>)
    requires 0 < size
    ensures fs != []
    decreases |data|
  {
    if |data| <= size then [data] else [data[..size]] + Pack(data[size..], size)
  }

  /** One write: the last file goes on with the new bytes. */
  function Log(fs: seq<bytes>, str: bytes, size: nat): (r: seq<bytes>)
    requires fs != [] && 0 < size
    ensures r != []
  {
    fs[..|fs| - 1] + Pack(fs[|fs| - 1] + str, size)
  }

  /** What is logged: the files in id order, and s_cur. */
  datatype Book = Book(files: seq<bytes>, sCur: nat) {
    function Last(): bytes
      requires files != []
    {
      files[|files| - 1]
    }

    /** s_cur is the length of the last file, which is not overfull. */
    predicate Aligned(size: nat) {
      files != [] && sCur == |Last()| <= size
    }
  }

  const NEW := Book([[]], 0)

  /** One rl_multifile from whatever state: Astray when the count it gives to fwrite is negative.
      Where an "a+" stream stands before any output decides s_cur after an empty write. */
  function Write(b: Book, str: bytes, size: nat, atEnd: bool): (r: Ret<Book>)
    requires b.files != [] && 0 < size
    ensures r.Ret? ==> r.value.files != []
  {
    var before := b.files[..|b.files| - 1];
    if b.sCur + |str| <= size then
      Ret(Book(before + [b.Last() + str], if str == [] && !atEnd then 0 else |b.Last() + str|))
    else if size < b.sCur then Astray
    else
      var files := before + [b.Last() + str[..size - b.sCur]] + Rest(str[size - b.sCur..], size);
      Ret(Book(files, |files[|files| - 1]|))
  }

  function WriteAll(b: Book, strs: seq<bytes>, size: nat, atEnd: bool): (r: Ret<Book>)
    requires b.files != [] && 0 < size
    decreases |strs|
  {
    if strs == [] then Ret(b)
    else
      var r := Write(b, strs[0], size, atEnd);
      if r.Astray? then Astray else WriteAll(r.value, strs[1..], size, atEnd)
  }

  /** The files with ids 0 to `n` - 1, in order. */
  function Listing(files: map<nat, bytes>, n: nat): seq<bytes> {
    seq(n, id requires 0 <= id => if id in files then files[id] else [])
  }

  class RamLog {
    /** Where an "a+" stream stands before any output: C leaves it to the implementation. */
    const appendAtEnd: bool
    var sLog: nat
    var sCur: nat
    var curid: nat
    var files: map<nat, bytes>

    function Content(id: nat): bytes
      reads `files
    {
      if id in files then files[id] else []
    }

    /** The files in id order. */
    function Files(): (fs: seq<bytes>)
      reads `files, `curid
      ensures |fs| == curid + 1 && fs[curid] == Content(curid)
    {
      Listing(files, curid + 1)
    }

    /** The files in id order and s_cur. */
    ghost function State(): (b: Book)
      reads `files, `curid, `sCur
      ensures b.files != [] && |b.files| == curid + 1
    {
      Book(Files(), sCur)
    }

    /** There is a file size, and no file has an id still to come. */
    ghost predicate Valid()
      reads `files, `curid, `sLog
    {
      0 < sLog && forall id :: id in files ==> id <= curid
    }

    /** rl_init, after the RAM directory has been emptied. */
    constructor (size: int, atEnd: bool)
      ensures Valid() && State() == NEW && curid == 0
      ensures sLog == if size < 4096 then 4096 else size
      ensures appendAtEnd == atEnd
    {
      appendAtEnd := atEnd;
      sLog := if size < 4 * K then 4 * K else size;
      sCur, curid, files := 0, 0, map[];
    }

    /** rl_onefile: append to the current file and say where the stream stands. */
    method OneFile(str: bytes) returns (len: nat)
      modifies `files
      ensures files == old(files)[curid := old(Content(curid)) + str]
      ensures Files() == old(Files())[..curid] + [old(Content(curid)) + str]
      ensures len == if str == [] && !appendAtEnd then 0 else |Content(curid)|
    {
      files := files[curid := Content(curid) + str];
      len := if str == [] && !appendAtEnd then 0 else |files[curid]|;
    }

    /** The next id, and rl_onefile to its file. */
    method NextFile(str: bytes)
      requires forall id :: id in files ==> id <= curid
      requires 0 < |str| <= sLog
      modifies `files, `curid, `sCur
      ensures forall id :: id in files ==> id <= curid
      ensures Files() == old(Files()) + [str]
      ensures sCur == |Content(curid)| <= sLog
    {
      curid := curid + 1;
      assert Files() == old(Files()) + [[]] && Files()[..curid] == old(Files()) && [] + str == str;
      sCur := OneFile(str);
    }

    /** The loop of rl_multifile: what the current file has no room for goes to new files. */
    method Roll(str: bytes)
      requires 0 < sLog && forall id :: id in files ==> id <= curid
      modifies `files, `sCur, `curid
      ensures forall id :: id in files ==> id <= curid
      ensures Files() == old(Files()) + Rest(str, sLog)
      ensures if str == [] then sCur == old(sCur) && curid == old(curid) else sCur == |Content(curid)| <= sLog
    {
      hide Files, Pack;
      var offset, n := 0, |str|;
      assert str[0..] == str;
      while n > 0
        invariant 0 <= n && 0 <= offset && offset + n == |str|
        invariant forall id :: id in files ==> id <= curid
        invariant Files() + Rest(str[offset..], sLog) == old(Files()) + Rest(str, sLog)
        invariant if offset == 0 then sCur == old(sCur) && curid == old(curid) else sCur == |Content(curid)| <= sLog
      {
        var byte := if n > sLog then sLog else n;
        var piece := str[offset..offset + byte];
        RestNext(str[offset..], byte, sLog);
        assert str[offset..][..byte] == piece && str[offset..][byte..] == str[offset + byte..];
        NextFile(piece);
        offset, n := offset + byte, n - byte;
      }
    }

    /** rl_multifile. */
    method MultiFile(str: bytes) returns (r: Ret<nat>)
      requires Valid()
      modifies `files, `sCur, `curid
      ensures Valid()
      ensures Write(old(State()), str, sLog, appendAtEnd) == if r.Ret? then Ret(State()) else Astray
      ensures if r.Ret? then r.value == sCur else State() == old(State())
    {
      hide Files, Pack, Rest, Content;
      ghost var b := State();
      assert b.Last() == Content(curid) && b.files[..|b.files| - 1] == Files()[..curid];
      if sCur + |str| > sLog {
        var byte := sLog - sCur;
        if byte < 0 {
          return Astray;
        }
        RestShape(str[byte..], sLog);
        sCur := OneFile(str[..byte]);
        Roll(str[byte..]);
      } else {
        sCur := OneFile(str);
      }
      r := Ret(sCur);
    }
  }

  function Rest(s: bytes, size: nat): seq<bytes>
    requires 0 < size
  {
    if s == [] then [] else Pack(s, size)
  }

  lemma PackNext(s: bytes, size: nat)
    requires 0 < size
    ensures Pack(s, size) == if |s| <= size then [s] else [s[..size]] + Rest(s[size..], size)
  {
  }

  lemma RestNext(s: bytes, byte: nat, size: nat)
    requires 0 < size && s != [] && byte == if |s| > size then size else |s|
    ensures Rest(s, size) == [s[..byte]] + Rest(s[byte..], size)
  {
    if byte == |s| {
      assert s[..byte] == s;
    }
  }

  /** Packing can go on from the last file. */
  lemma {:induction false} PackAppend(d: bytes, e: bytes, size: nat)
    requires 0 < size
    ensures Log(Pack(d, size), e, size) == Pack(d + e, size)
    decreases |d|
  {
    var p := Pack(d, size);
    if |d| <= size {
      assert p[..0] + Pack(d + e, size) == Pack(d + e, size);
    } else {
      var q := Pack(d[size..], size);
      PackAppend(d[size..], e, size);
      assert (d + e)[..size] == d[..size] && (d + e)[size..] == d[size..] + e;
      assert p[..|p| - 1] == [d[..size]] + q[..|q| - 1];
      assert p[..|p| - 1] + Pack(q[|q| - 1] + e, size) == [d[..size]] + (q[..|q| - 1] + Pack(q[|q| - 1] + e, size));
    }
  }

  /** Chunk independence: logging a and then b leaves the files that logging a + b leaves. */
  lemma ChunkIndependent(fs: seq<bytes>, a: bytes, b: bytes, size: nat)
    requires fs != [] && 0 < size
    ensures Log(Log(fs, a, size), b, size) == Log(fs, a + b, size)
  {
    var start, last := fs[..|fs| - 1], fs[|fs| - 1];
    var p := Pack(last + a, size);
    PackAppend(last + a, b, size);
    assert last + a + b == last + (a + b);
    assert (start + p)[..|start + p| - 1] == start + p[..|p| - 1];
    assert start + p[..|p| - 1] + Pack(p[|p| - 1] + b, size) == start + (p[..|p| - 1] + Pack(p[|p| - 1] + b, size));
  }

  /** Conservation and packing: the files in order are the bytes logged, every file but the
      last is exactly full, no file is overfull, and there are as few files as that allows. */
  lemma {:induction false} PackShape(d: bytes, size: nat)
    requires 0 < size
    ensures var p := Pack(d, size);
            && Flatten(p) == d
            && (forall i :: 0 <= i < |p| - 1 ==> |p[i]| == size)
            && |p[|p| - 1]| <= size && (d != [] ==> p[|p| - 1] != [])
            && |d| == (|p| - 1) * size + |p[|p| - 1]|
    decreases |d|
  {
    var p := Pack(d, size);
    if |d| <= size {
      assert Flatten(p) == d + Flatten([]);
    } else {
      PackShape(d[size..], size);
      var q := Pack(d[size..], size);
      assert p[1..] == q;
      Times(|q|, size);
    }
  }

  lemma Times(n: nat, size: nat)
    ensures n * size == (n - 1) * size + size
  {
  }

  /** The number of files: one, or the number of bytes divided by the file size, rounded up. */
  lemma PackCount(d: bytes, size: nat)
    requires 0 < size
    ensures |Pack(d, size)| == if d == [] then 1 else (|d| + size - 1) / size
  {
    PackShape(d, size);
    var p := Pack(d, size);
    if d != [] {
      var q, r := |p|, |p[|p| - 1]| - 1;
      assert q * size == (q - 1) * size + size;
      DivisionUnique(|d| + size - 1, size, q, r);
    }
  }

  lemma DivisionUnique(n: nat, size: nat, q: nat, r: nat)
    requires 0 < size && r < size && n == q * size + r
    ensures n / size == q
  {
    var m := n / size;
    assert n == m * size + n % size;
    assert m < q ==> (m + 1) * size <= q * size;
    assert q < m ==> (q + 1) * size <= m * size;
  }

  lemma RestShape(s: bytes, size: nat)
    requires 0 < size && s != []
    ensures Rest(s, size) != [] && Rest(s, size)[|Rest(s, size)| - 1] != []
  {
    PackShape(s, size);
  }

  /** A write from an aligned state goes on with the packing, and leaves an aligned state
      exactly when it is not empty, or streams start at the end, or the last file is empty. */
  lemma WriteAligned(b: Book, str: bytes, size: nat, atEnd: bool)
    requires 0 < size && b.Aligned(size)
    ensures var r := Write(b, str, size, atEnd);
            && r.Ret? && r.value.files == Log(b.files, str, size)
            && r.value.sCur == (if str == [] && !atEnd then 0 else |r.value.Last()|)
            && (r.value.Aligned(size) <==> str != [] || atEnd || b.sCur == 0)
  {
    var last := b.Last();
    PackNext(last + str, size);
    PackShape(last + str, size);
    hide Pack, Rest;
    if b.sCur + |str| > size {
      var byte := size - b.sCur;
      assert (last + str)[..size] == last + str[..byte] && (last + str)[size..] == str[byte..];
    }
  }

  /** The length of the last file after `n` bytes. */
  function Fill(n: nat, size: nat): nat
    requires 0 < size
  {
    if n == 0 then 0 else (n - 1) % size + 1
  }

  lemma LastLength(d: bytes, size: nat)
    requires 0 < size
    ensures |Pack(d, size)[|Pack(d, size)| - 1]| == Fill(|d|, size)
  {
    PackShape(d, size);
    var p := Pack(d, size);
    hide Pack;
    if d != [] {
      RemainderUnique(|d| - 1, size, |p| - 1, |p[|p| - 1]| - 1);
    }
  }

  lemma RemainderUnique(n: nat, size: nat, q: nat, r: nat)
    requires 0 < size && r < size && n == q * size + r
    ensures n % size == r
  {
    DivisionUnique(n, size, q, r);
  }

  /** The writes that keep the log in order after `n` bytes, `lost` telling that s_cur is 0
      whatever the last file holds: no write that follows an empty one overfills the file. */
  predicate Tidy(n: nat, lost: bool, strs: seq<bytes>, size: nat, atEnd: bool)
    requires 0 < size
    decreases |strs|
  {
    strs == [] ||
    ((lost && strs[0] != [] && 0 < n ==> Fill(n, size) + |strs[0]| <= size) &&
     Tidy(n + |strs[0]|, strs[0] == [] && !atEnd, strs[1..], size, atEnd))
  }

  /** Writes that are not empty are always tidy, and so are all writes to streams that start at the end. */
  lemma {:induction false} TidyWrites(n: nat, strs: seq<bytes>, size: nat, atEnd: bool)
    requires 0 < size
    requires atEnd || forall i :: 0 <= i < |strs| ==> strs[i] != []
    ensures Tidy(n, false, strs, size, atEnd)
    decreases |strs|
  {
    if strs != [] {
      TidyWrites(n + |strs[0]|, strs[1..], size, atEnd);
    }
  }

  /** s_cur is 0 after the last of these writes, whatever the last file holds. */
  predicate Loses(lost: bool, strs: seq<bytes>, atEnd: bool) {
    if strs == [] then lost else strs[|strs| - 1] == [] && !atEnd
  }

  /** The state of a log in order, after the bytes `d`. */
  function InOrder(d: bytes, lost: bool, size: nat): (b: Book)
    requires 0 < size
    ensures b.files == Pack(d, size)
  {
    Book(Pack(d, size), if lost then 0 else Fill(|d|, size))
  }

  ghost predicate Overfull(fs: seq<bytes>, size: nat) {
    exists i :: 0 <= i < |fs| && size < |fs[i]|
  }

  /** Conservation from every state: a write fails exactly when s_cur is over the file size, and
      else it appends the bytes and changes no file but the last. */
  lemma WriteConserves(b: Book, str: bytes, size: nat, atEnd: bool)
    requires b.files != [] && 0 < size
    ensures var r := Write(b, str, size, atEnd);
            && (r == Astray <==> size < b.sCur)
            && (r.Ret? ==>
                  && Flatten(r.value.files) == Flatten(b.files) + str
                  && |b.files| <= |r.value.files|
                  && (forall i :: 0 <= i < |b.files| - 1 ==> r.value.files[i] == b.files[i])
                  && (forall i :: |b.files| <= i < |r.value.files| ==> 0 < |r.value.files[i]| <= size)
                  && (|b.files| < |r.value.files| <==> size < b.sCur + |str|))
  {
    hide Pack, Rest, Flatten;
    var before, last := b.files[..|b.files| - 1], b.Last();
    assert b.files == before + [last];
    if b.sCur + |str| <= size {
      LastGrows(before, last, str, []);
      assert before + [last + str] + [] == before + [last + str];
    } else if b.sCur <= size {
      var byte := size - b.sCur;
      RestSizes(str[byte..], size);
      LastGrows(before, last, str[..byte], Rest(str[byte..], size));
      assert Flatten(b.files) + str[..byte] + str[byte..] == Flatten(b.files) + str by {
        assert str == str[..byte] + str[byte..];
      }
    }
  }

  /** More bytes in the last file, and more files behind it. */
  lemma LastGrows(before: seq<bytes>, last: bytes, more: bytes, rest: seq<bytes>)
    ensures Flatten(before + [last + more] + rest) == Flatten(before + [last]) + more + Flatten(rest)
    ensures Flatten(before + [last + more]) == Flatten(before + [last]) + more
  {
    hide Flatten;
    FlattenConcat(before, [last]);
    FlattenConcat(before, [last + more]);
    FlattenConcat(before + [last + more], rest);
    FlattenOne(last);
    FlattenOne(last + more);
    assert Flatten(before) + (last + more) == Flatten(before) + last + more;
  }

  lemma FlattenOne(a: bytes)
    ensures Flatten([a]) == a
  {
    assert Flatten([a]) == a + Flatten([]);
  }

  lemma RestSizes(s: bytes, size: nat)
    requires 0 < size && s != []
    ensures Flatten(Rest(s, size)) == s && Rest(s, size) != []
    ensures forall i :: 0 <= i < |Rest(s, size)| ==> 0 < |Rest(s, size)[i]| <= size
  {
    PackShape(s, size);
  }

  /** An overfull file stays so. */
  lemma {:induction false} OverfullStays(b: Book, strs: seq<bytes>, size: nat, atEnd: bool)
    requires b.files != [] && 0 < size && Overfull(b.files, size)
    ensures WriteAll(b, strs, size, atEnd).Ret? ==> Overfull(WriteAll(b, strs, size, atEnd).value.files, size)
    decreases |strs|
  {
    if strs != [] {
      var r := Write(b, strs[0], size, atEnd);
      if r.Ret? {
        var i :| 0 <= i < |b.files| && size < |b.files[i]|;
        assert |b.files[i]| <= |r.value.files[i]|;
        OverfullStays(r.value, strs[1..], size, atEnd);
      }
    }
  }

  lemma PackNotOverfull(d: bytes, size: nat)
    requires 0 < size
    ensures !Overfull(Pack(d, size), size)
  {
    PackShape(d, size);
  }

  /** One write to a log in order. */
  lemma WriteInOrder(d: bytes, lost: bool, str: bytes, size: nat, atEnd: bool)
    requires 0 < size && (lost ==> !atEnd)
    ensures var r := Write(InOrder(d, lost, size), str, size, atEnd);
            && r.Ret?
            && if lost && str != [] && d != [] && size < Fill(|d|, size) + |str| then Overfull(r.value.files, size)
               else r.value == InOrder(d + str, str == [] && !atEnd, size)
  {
    var b := InOrder(d, false, size);
    LastLength(d, size);
    LastLength(d + str, size);
    PackShape(d, size);
    PackAppend(d, str, size);
    WriteAligned(b, str, size, atEnd);
    hide Pack, Rest, Fill;
    if lost {
      var r := Write(InOrder(d, lost, size), str, size, atEnd);
      var last := |b.files| - 1;
      if size < Fill(|d|, size) + |str| && d != [] {
        assert size < |r.value.files[last]|;
      }
    }
  }

  /** Any sequence of writes to a log in order: the files are the packing of all bytes
      logged, with s_cur the length of the last one unless the last write was empty, exactly
      when the writes are tidy. */
  lemma {:induction false} RunExact(d: bytes, lost: bool, strs: seq<bytes>, size: nat, atEnd: bool)
    requires 0 < size && (lost ==> !atEnd)
    ensures var r, all := WriteAll(InOrder(d, lost, size), strs, size, atEnd), d + Flatten(strs);
            && (r.Ret? && r.value.files == Pack(all, size) <==> Tidy(|d|, lost, strs, size, atEnd))
            && (Tidy(|d|, lost, strs, size, atEnd) ==> r == Ret(InOrder(all, Loses(lost, strs, atEnd), size)))
    decreases |strs|
  {
    hide Pack, Write, Fill, InOrder, Overfull;
    if strs == [] {
      assert d + [] == d;
    } else {
      var str, all := strs[0], d + Flatten(strs);
      WriteInOrder(d, lost, str, size, atEnd);
      var r := Write(InOrder(d, lost, size), str, size, atEnd);
      assert d + str + Flatten(strs[1..]) == all;
      if lost && str != [] && d != [] && size < Fill(|d|, size) + |str| {
        OverfullStays(r.value, strs[1..], size, atEnd);
        PackNotOverfull(all, size);
      } else {
        RunExact(d + str, str == [] && !atEnd, strs[1..], size, atEnd);
      }
    }
  }

  lemma TwoWrites(b: Book, a: bytes, c: bytes, size: nat, atEnd: bool)
    requires b.files != [] && 0 < size
    ensures WriteAll(b, [a, c], size, atEnd) ==
            var r := Write(b, a, size, atEnd); if r.Astray? then Astray else Write(r.value, c, size, atEnd)
  {
    hide Write;
    assert [a, c][1..] == [c];
    var r := Write(b, a, size, atEnd);
    if r.Ret? {
      OneWrite(r.value, c, size, atEnd);
    }
  }

  lemma OneWrite(b: Book, c: bytes, size: nat, atEnd: bool)
    requires b.files != [] && 0 < size
    ensures WriteAll(b, [c], size, atEnd) == Write(b, c, size, atEnd)
  {
    hide Write;
    assert [c][1..] == [];
  }

  lemma OneFileWrite(x: bytes, s: nat, v: bytes, size: nat)
    requires s + |v| <= size && 0 < size
    ensures Write(Book([x], s), v, size, false) == Ret(Book([x + v], if v == [] then 0 else |x + v|))
  {
    assert [x][..0] + [x + v] == [x + v];
  }

  lemma OneFileStuck(x: bytes, s: nat, v: bytes, size: nat)
    requires 0 < size < s
    ensures Write(Book([x], s), v, size, false) == Astray
  {
  }

  /** Two writes of the least file size with an empty one between them: both end up in one
      file, and the next write gives fwrite a negative count. */
  lemma EmptyWriteOverfills(v: bytes, w: bytes, next: bytes)
    requires |v| == |w| == 4096
    ensures WriteAll(NEW, [v, [], w], 4096, false) == Ret(Book([v + w], 8192))
    ensures Write(Book([v + w], 8192), next, 4096, false) == Astray
  {
    hide Write;
    OneFileWrite([], 0, v, 4 * K);
    OneFileWrite(v, 4 * K, [], 4 * K);
    OneFileWrite(v, 0, w, 4 * K);
    OneFileStuck(v + w, 8 * K, next, 4 * K);
    assert [] + v == v && v + [] == v;
    assert [v, [], w][1..] == [[], w];
    TwoWrites(Book([v], 4 * K), [], w, 4 * K, false);
  }

  /** Chunk independence: from an aligned state, logging a and then c leaves the files and
      s_cur that logging a + c in one call leaves, exactly when neither is empty, or streams
      start at the end, or the empty one does no harm. */
  lemma ChunkExact(b: Book, a: bytes, c: bytes, size: nat, atEnd: bool)
    requires 0 < size && b.Aligned(size)
    ensures WriteAll(b, [a, c], size, atEnd) == Write(b, a + c, size, atEnd) <==>
            || atEnd || (a != [] && c != [])
            || (a == [] && (c == [] || b.sCur == 0 || b.sCur + |c| <= size))
  {
    hide Write, WriteAll, Log;
    TwoWrites(b, a, c, size, atEnd);
    WriteAligned(b, a, size, atEnd);
    WriteAligned(b, a + c, size, atEnd);
    var r := Write(b, a, size, atEnd).value;
    if r.Aligned(size) {
      WriteAligned(r, c, size, atEnd);
      ChunkIndependent(b.files, a, c, size);
      LogNotEmpty(b.files, a, size);
    } else {
      EmptyFirst(b, c, size);
      assert a + c == c;
    }
  }

  /** After a write that is not empty the last file is not. */
  lemma LogNotEmpty(fs: seq<bytes>, a: bytes, size: nat)
    requires fs != [] && 0 < size
    ensures var r := Log(fs, a, size); a != [] ==> r[|r| - 1] != []
  {
    PackShape(fs[|fs| - 1] + a, size);
  }

  /** A write to a last file whose length s_cur has lost. */
  lemma EmptyFirst(b: Book, c: bytes, size: nat)
    requires 0 < size && b.Aligned(size) && 0 < b.sCur
    ensures Write(b, [], size, false) == Ret(Book(b.files, 0))
    ensures Write(Book(b.files, 0), c, size, false) == Write(b, c, size, false) <==>
            c == [] || b.sCur + |c| <= size
  {
    hide Pack, Rest;
    assert b.Last() + [] == b.Last();
    assert b.files[..|b.files| - 1] + [b.Last()] == b.files;
    var last := |b.files| - 1;
    if size < b.sCur + |c| {
      assert |Write(b, c, size, false).value.files[last]| == size;
      assert size < |Write(Book(b.files, 0), c, size, false).value.files[last]|;
    }
  }

  /** A new log and any number of writes. */
  method LogRun(size: int, atEnd: bool, strs: seq<bytes>) returns (log: RamLog, ok: bool)
    ensures fresh(log) && log.Valid() && log.sLog == (if size < 4096 then 4096 else size)
    ensures ok && log.Files() == Pack(Flatten(strs), log.sLog) <==> Tidy(0, false, strs, log.sLog, atEnd)
    ensures Tidy(0, false, strs, log.sLog, atEnd) ==>
              var n := |Flatten(strs)|;
              && log.curid + 1 == (if n == 0 then 1 else (n + log.sLog - 1) / log.sLog)
              && log.sCur == if Loses(false, strs, atEnd) then 0 else |log.Content(log.curid)|
  {
    hide Pack, Write, Tidy, Loses, RamLog.Files;
    log := new RamLog(size, atEnd);
    ok := true;
    var i := 0;
    assert strs[0..] == strs;
    while i < |strs| && ok
      invariant 0 <= i <= |strs| && fresh(log) && log.Valid() && log.appendAtEnd == atEnd
      invariant log.sLog == if size < 4 * K then 4 * K else size
      invariant WriteAll(NEW, strs, log.sLog, atEnd) ==
                if ok then WriteAll(log.State(), strs[i..], log.sLog, atEnd) else Astray
    {
      var r := log.MultiFile(strs[i]);
      ok := r.Ret?;
      assert strs[i..][1..] == strs[i + 1..];
      i := i + 1;
    }
    RunExact([], false, strs, log.sLog, atEnd);
    NewInOrder(log.sLog);
    assert [] + Flatten(strs) == Flatten(strs);
    LastLength(Flatten(strs), log.sLog);
    PackCount(Flatten(strs), log.sLog);
  }

  lemma NewInOrder(size: nat)
    requires 0 < size
    ensures InOrder([], false, size) == NEW
  {
  }
}
