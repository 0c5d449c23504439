/** Bytes, machine words, and the two byte orders in play: the wire's and the host's. */
module Bytes {
  type byte = x: int | 0 <= x < 0x100
  type bytes = seq<byte>
  type u16 = x: int | 0 <= x < 0x1_0000
  type u32 = x: int | 0 <= x < 0x1_0000_0000

  const INT_MAX := 0x7FFF_FFFF

  /** The low 32 bits of `n`, read as a two's-complement int32_t. */
  function Int32(n: int): int {
    var w := n % 0x1_0000_0000;
    if w <= INT_MAX then w else w - 0x1_0000_0000
  }

  /** The word whose bytes are `a`, `b`, `c`, `d` from most to least significant. */
  function Word(a: byte, b: byte, c: byte, d: byte): u32 {
    var x: int, y: int, z: int := a, b, c;
    ((x * 0x100 + y) * 0x100 + z) * 0x100 + d
  }

  function Half(a: byte, b: byte): u16 {
    var x: int := a;
    x * 0x100 + b
  }

  /** The value of the big-endian word at offset `i`: what ntohl makes of it. */
  function WireWord(s: bytes, i: nat): u32
    requires i + 4 <= |s|
  {
    Word(s[i], s[i + 1], s[i + 2], s[i + 3])
  }

  /** The value a little-endian host reads at offset `i`. */
  function HostWord(s: bytes, i: nat): u32
    requires i + 4 <= |s|
  {
    Word(s[i + 3], s[i + 2], s[i + 1], s[i])
  }

  function WireHalf(s: bytes, i: nat): u16
    requires i + 2 <= |s|
  {
    Half(s[i], s[i + 1])
  }

  function HostHalf(s: bytes, i: nat): u16
    requires i + 2 <= |s|
  {
    Half(s[i + 1], s[i])
  }

  /** The four big-endian bytes of `w`. */
  function WireBytes(w: u32): (r: bytes)
    ensures |r| == 4
  {
    [w / 0x100 / 0x100 / 0x100, w / 0x100 / 0x100 % 0x100, w / 0x100 % 0x100, w % 0x100]
  }

  /** The four bytes a little-endian host stores for `w`. */
  function HostBytes(w: u32): (r: bytes)
    ensures |r| == 4
  {
    [w % 0x100, w / 0x100 % 0x100, w / 0x100 / 0x100 % 0x100, w / 0x100 / 0x100 / 0x100]
  }

  function HostBytes16(w: u16): (r: bytes)
    ensures |r| == 2
  {
    [w % 0x100, w / 0x100]
  }

  function WireBytes16(w: u16): (r: bytes)
    ensures |r| == 2
  {
    [w / 0x100, w % 0x100]
  }

  /** htonl on a little-endian host; ntohl is the same function. */
  function Htonl(w: u32): u32 {
    HostWord(WireBytes(w), 0)
  }

  /** htons on a little-endian host. */
  function Htons(w: u16): u16 {
    HostHalf(WireBytes16(w), 0)
  }

  /** What a C function returns, or Astray where it leaves the memory the model knows. */
  datatype Ret<+T> = Astray | Ret(value: T)

  /** Addresses and sizes of the 32-bit target wrap around. */
  function Wrap(n: int): u32 {
    n % 0x1_0000_0000
  }

  lemma WrapSmall(n: int)
    requires 0 <= n < 0x1_0000_0000
    ensures Wrap(n) == n
  {
  }

  function Flatten<T>(parts: seq<seq<T>>): seq<T> {
    if parts == [] then [] else parts[0] + Flatten(parts[1..])
  }

  /** Appending a base-256 digit and taking it off again. */
  lemma Digit(h: nat, d: byte)
    ensures (h * 0x100 + d) / 0x100 == h && (h * 0x100 + d) % 0x100 == d
  {
  }

  /** The value a word has on the wire and on the host, byte by byte. */
  lemma WordValues(s: bytes, i: nat)
    requires i + 4 <= |s|
    ensures var a: int, b: int, c: int, d: int := s[i], s[i + 1], s[i + 2], s[i + 3];
            && WireWord(s, i) == 0x100_0000 * a + 0x1_0000 * b + 0x100 * c + d
            && HostWord(s, i) == 0x100_0000 * d + 0x1_0000 * c + 0x100 * b + a
            && WireHalf(s, i) == 0x100 * a + b && HostHalf(s, i) == 0x100 * b + a
  {
  }

  /** int32_t. */
  lemma Int32Value(n: u32)
    ensures Int32(n) == if n < 0x8000_0000 then n else n - 0x1_0000_0000
    ensures Wrap(n + 0x1_0000_0000) == Wrap(n - 0x1_0000_0000) == n
  {
  }

  lemma WordDigits(a: byte, b: byte, c: byte, d: byte)
    ensures WireBytes(Word(a, b, c, d)) == [a, b, c, d]
    ensures HostBytes(Word(a, b, c, d)) == [d, c, b, a]
  {
    var h := Half(a, b);
    var g := h * 0x100 + c;
    Digit(g, d);
    Digit(h, c);
    Digit(a, b);
    assert Word(a, b, c, d) == g * 0x100 + d;
    assert Word(a, b, c, d) / 0x100 == g && g / 0x100 == h && h / 0x100 == a;
  }

  /** Storing a word and reading it back, in either order, gives the word. */
  lemma WordOfBytes(w: u32)
    ensures WireWord(WireBytes(w), 0) == w
    ensures HostWord(HostBytes(w), 0) == w
  {
    var h := w / 0x100;
    assert w == h * 0x100 + w % 0x100 && h == h / 0x100 * 0x100 + h % 0x100;
  }

  /** What the host stores after htonl is the big-endian form, which is the point of htonl. */
  lemma HtonlBytes(w: u32)
    ensures HostBytes(Htonl(w)) == WireBytes(w)
  {
    var b := WireBytes(w);
    WordDigits(b[3], b[2], b[1], b[0]);
  }

  lemma HtonsBytes(w: u16)
    ensures HostBytes16(Htons(w)) == WireBytes16(w)
  {
  }

  /** Reading inside one half of a concatenation. */
  lemma ReadLeft(a: bytes, b: bytes, i: nat)
    ensures i + 4 <= |a| ==> WireWord(a + b, i) == WireWord(a, i)
    ensures i + 2 <= |a| ==> WireHalf(a + b, i) == WireHalf(a, i)
  {
    hide Word, Half;
  }

  lemma ReadRight(a: bytes, b: bytes, i: nat)
    ensures i + 4 <= |b| ==> WireWord(a + b, |a| + i) == WireWord(b, i)
    ensures i + 2 <= |b| ==> WireHalf(a + b, |a| + i) == WireHalf(b, i)
  {
    hide Word, Half;
  }

  lemma {:induction false} FlattenConcat<T>(a: seq<seq<T>>, b: seq<seq<T>>)
    ensures Flatten(a + b) == Flatten(a) + Flatten(b)
  {
    if a == [] {
      assert a + b == b;
    } else {
      assert (a + b)[0] == a[0] && (a + b)[1..] == a[1..] + b;
      FlattenConcat(a[1..], b);
    }
  }
}
