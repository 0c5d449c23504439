/** The MD5 block transformation: the unrolled code against the step table of RFC 1321. */
module Md5Block {
  type word = bv32
  type octet = bv8

  datatype State = State(a: word, b: word, c: word, d: word)

  // The four auxiliary functions and the rotation.
  function F(x: word, y: word, z: word): word { (x & y) | (!x & z) }
  function G(x: word, y: word, z: word): word { (x & z) | (y & !z) }
  function H(x: word, y: word, z: word): word { x ^ y ^ z }
  function I(x: word, y: word, z: word): word { y ^ (x | !z) }

  /** F takes each bit from y where x has a 1, and from z where it has a 0. */
  lemma FSelects(f: word, x: word, y: word, z: word)
    requires f == F(x, y, z)
    ensures f & x == y & x && f & !x == z & !x
  {
    Selects(f, x, y, z);
  }

  lemma Selects(f: word, x: word, y: word, z: word)
    requires f == (x & y) | (!x & z)
    ensures f & x == y & x && f & !x == z & !x
  {
  }

  /** G does so from x and y, by z. */
  lemma GSelects(g: word, x: word, y: word, z: word)
    requires g == G(x, y, z)
    ensures g & z == x & z && g & !z == y & !z
  {
    SelectsLast(g, x, y, z);
  }

  lemma SelectsLast(g: word, x: word, y: word, z: word)
    requires g == (x & z) | (y & !z)
    ensures g & z == x & z && g & !z == y & !z
  {
  }

  /** H has a 1 where one argument has it, or all three. */
  lemma HParity(h: word, x: word, y: word, z: word)
    requires h == H(x, y, z)
    ensures h == (x & !y & !z) | (y & !x & !z) | (z & !x & !y) | (x & y & z)
  {
    Parity(h, x, y, z);
  }

  lemma Parity(h: word, x: word, y: word, z: word)
    requires h == x ^ y ^ z
    ensures h == (x & !y & !z) | (y & !x & !z) | (z & !x & !y) | (x & y & z)
  {
  }

  /** A bit of I differs from y except where z has a 1 and x a 0. */
  lemma IDiffers(i: word, x: word, y: word, z: word)
    requires i == I(x, y, z)
    ensures i & (z & !x) == y & (z & !x) && i & (x | !z) == !y & (x | !z)
  {
    Differs(i, x, y, z);
  }

  lemma Differs(i: word, x: word, y: word, z: word)
    requires i == y ^ (x | !z)
    ensures i & (z & !x) == y & (z & !x) && i & (x | !z) == !y & (x | !z)
  {
  }

  function RotateLeft(x: word, n: nat): word
    requires n <= 32
  {
    (x << n) | (x >> (32 - n))
  }

  // The step macros: the new value of their first argument.
  function FF(a: word, b: word, c: word, d: word, x: word, s: nat, ac: word): word
    requires s <= 32
  {
    RotateLeft(a + F(b, c, d) + x + ac, s) + b
  }

  function GG(a: word, b: word, c: word, d: word, x: word, s: nat, ac: word): word
    requires s <= 32
  {
    RotateLeft(a + G(b, c, d) + x + ac, s) + b
  }

  function HH(a: word, b: word, c: word, d: word, x: word, s: nat, ac: word): word
    requires s <= 32
  {
    RotateLeft(a + H(b, c, d) + x + ac, s) + b
  }

  function II(a: word, b: word, c: word, d: word, x: word, s: nat, ac: word): word
    requires s <= 32
  {
    RotateLeft(a + I(b, c, d) + x + ac, s) + b
  }

  // The table T of section 3.4 of RFC 1321, one round at a time.
  function T1(j: nat): word {
    match j
    case 0 => 0xd76aa478
    case 1 => 0xe8c7b756
    case 2 => 0x242070db
    case 3 => 0xc1bdceee
    case 4 => 0xf57c0faf
    case 5 => 0x4787c62a
    case 6 => 0xa8304613
    case 7 => 0xfd469501
    case 8 => 0x698098d8
    case 9 => 0x8b44f7af
    case 10 => 0xffff5bb1
    case 11 => 0x895cd7be
    case 12 => 0x6b901122
    case 13 => 0xfd987193
    case 14 => 0xa679438e
    case _ => 0x49b40821
  }

  function T2(j: nat): word {
    match j
    case 0 => 0xf61e2562
    case 1 => 0xc040b340
    case 2 => 0x265e5a51
    case 3 => 0xe9b6c7aa
    case 4 => 0xd62f105d
    case 5 => 0x2441453
    case 6 => 0xd8a1e681
    case 7 => 0xe7d3fbc8
    case 8 => 0x21e1cde6
    case 9 => 0xc33707d6
    case 10 => 0xf4d50d87
    case 11 => 0x455a14ed
    case 12 => 0xa9e3e905
    case 13 => 0xfcefa3f8
    case 14 => 0x676f02d9
    case _ => 0x8d2a4c8a
  }

  function T3(j: nat): word {
    match j
    case 0 => 0xfffa3942
    case 1 => 0x8771f681
    case 2 => 0x6d9d6122
    case 3 => 0xfde5380c
    case 4 => 0xa4beea44
    case 5 => 0x4bdecfa9
    case 6 => 0xf6bb4b60
    case 7 => 0xbebfbc70
    case 8 => 0x289b7ec6
    case 9 => 0xeaa127fa
    case 10 => 0xd4ef3085
    case 11 => 0x4881d05
    case 12 => 0xd9d4d039
    case 13 => 0xe6db99e5
    case 14 => 0x1fa27cf8
    case _ => 0xc4ac5665
  }

  function T4(j: nat): word {
    match j
    case 0 => 0xf4292244
    case 1 => 0x432aff97
    case 2 => 0xab9423a7
    case 3 => 0xfc93a039
    case 4 => 0x655b59c3
    case 5 => 0x8f0ccc92
    case 6 => 0xffeff47d
    case 7 => 0x85845dd1
    case 8 => 0x6fa87e4f
    case 9 => 0xfe2ce6e0
    case 10 => 0xa3014314
    case 11 => 0x4e0811a1
    case 12 => 0xf7537e82
    case 13 => 0xbd3af235
    case 14 => 0x2ad7d2bb
    case _ => 0xeb86d391
  }

  /** The constant of step `i`. */
  function T(i: nat): word
    requires i < 64
  {
    if i < 16 then T1(i) else if i < 32 then T2(i - 16) else if i < 48 then T3(i - 32) else T4(i - 48)
  }

  /** The message word that step `i` uses: each round walks the 16 words in its own order. */
  function K(i: nat): (k: nat)
    requires i < 64
    ensures k < 16
  {
    if i < 16 then i
    else if i < 32 then (5 * i + 1) % 16
    else if i < 48 then (3 * i + 5) % 16
    else 7 * i % 16
  }

  /** The rotation of step `i`: four amounts for each round, in turn. */
  function S(i: nat): (s: nat)
    requires i < 64
    ensures s <= 32
  {
    var j := i % 4;
    if i < 16 then (if j == 0 then 7 else if j == 1 then 12 else if j == 2 then 17 else 22)
    else if i < 32 then (if j == 0 then 5 else if j == 1 then 9 else if j == 2 then 14 else 20)
    else if i < 48 then (if j == 0 then 4 else if j == 1 then 11 else if j == 2 then 16 else 23)
    else (if j == 0 then 6 else if j == 1 then 10 else if j == 2 then 15 else 21)
  }

  /** Step `i` of section 3.4: compute a new `a`, then the four registers change roles. */
  function Step(v: State, x: seq<word>, i: nat): State
    requires |x| == 16 && i < 64
  {
    var t := if i < 16 then FF(v.a, v.b, v.c, v.d, x[K(i)], S(i), T(i))
             else if i < 32 then GG(v.a, v.b, v.c, v.d, x[K(i)], S(i), T(i))
             else if i < 48 then HH(v.a, v.b, v.c, v.d, x[K(i)], S(i), T(i))
             else II(v.a, v.b, v.c, v.d, x[K(i)], S(i), T(i));
    State(v.d, t, v.b, v.c)
  }

  /** The steps from `i` up to `n`. */
  function Steps(v: State, x: seq<word>, i: nat, n: nat): State
    requires |x| == 16 && i <= n <= 64
  {
    if i == n then v else Step(Steps(v, x, i, n - 1), x, n - 1)
  }

  lemma FourSteps(v: State, x: seq<word>, i: nat, n: nat)
    requires |x| == 16 && i <= n <= 60
    ensures Steps(v, x, i, n + 4) == Step(Step(Step(Step(Steps(v, x, i, n), x, n), x, n + 1), x, n + 2), x, n + 3)
  {
    hide Step;
    assert Steps(v, x, i, n + 2) == Step(Step(Steps(v, x, i, n), x, n), x, n + 1);
  }

  lemma StepsNone(v: State, x: seq<word>, i: nat)
    requires |x| == 16 && i <= 64
    ensures Steps(v, x, i, i) == v
  {
  }

  lemma Table1()
    ensures T(0) == 0xd76aa478
    ensures T(1) == 0xe8c7b756
    ensures T(2) == 0x242070db
    ensures T(3) == 0xc1bdceee
    ensures T(4) == 0xf57c0faf
    ensures T(5) == 0x4787c62a
    ensures T(6) == 0xa8304613
    ensures T(7) == 0xfd469501
    ensures T(8) == 0x698098d8
    ensures T(9) == 0x8b44f7af
    ensures T(10) == 0xffff5bb1
    ensures T(11) == 0x895cd7be
    ensures T(12) == 0x6b901122
    ensures T(13) == 0xfd987193
    ensures T(14) == 0xa679438e
    ensures T(15) == 0x49b40821
  {
  }

  lemma Order1()
    ensures K(0) == 0 && S(0) == 7
    ensures K(1) == 1 && S(1) == 12
    ensures K(2) == 2 && S(2) == 17
    ensures K(3) == 3 && S(3) == 22
    ensures K(4) == 4 && S(4) == 7
    ensures K(5) == 5 && S(5) == 12
    ensures K(6) == 6 && S(6) == 17
    ensures K(7) == 7 && S(7) == 22
    ensures K(8) == 8 && S(8) == 7
    ensures K(9) == 9 && S(9) == 12
    ensures K(10) == 10 && S(10) == 17
    ensures K(11) == 11 && S(11) == 22
    ensures K(12) == 12 && S(12) == 7
    ensures K(13) == 13 && S(13) == 12
    ensures K(14) == 14 && S(14) == 17
    ensures K(15) == 15 && S(15) == 22
  {
  }

  /** Round 1 of MD5Transform. */
  method Round1(v: State, x: seq<word>) returns (r: State)
    requires |x| == 16
    ensures r == Steps(v, x, 0, 16)
  {
    hide FF, Steps, T, K, S;
    Table1();
    Order1();
    StepsNone(v, x, 0);
    var a, b, c, d := v.a, v.b, v.c, v.d;
    a := FF(a, b, c, d, x[0], 7, 0xd76aa478);
    d := FF(d, a, b, c, x[1], 12, 0xe8c7b756);
    c := FF(c, d, a, b, x[2], 17, 0x242070db);
    b := FF(b, c, d, a, x[3], 22, 0xc1bdceee);
    FourSteps(v, x, 0, 0);
    assert State(a, b, c, d) == Steps(v, x, 0, 4);
    a := FF(a, b, c, d, x[4], 7, 0xf57c0faf);
    d := FF(d, a, b, c, x[5], 12, 0x4787c62a);
    c := FF(c, d, a, b, x[6], 17, 0xa8304613);
    b := FF(b, c, d, a, x[7], 22, 0xfd469501);
    FourSteps(v, x, 0, 4);
    assert State(a, b, c, d) == Steps(v, x, 0, 8);
    a := FF(a, b, c, d, x[8], 7, 0x698098d8);
    d := FF(d, a, b, c, x[9], 12, 0x8b44f7af);
    c := FF(c, d, a, b, x[10], 17, 0xffff5bb1);
    b := FF(b, c, d, a, x[11], 22, 0x895cd7be);
    FourSteps(v, x, 0, 8);
    assert State(a, b, c, d) == Steps(v, x, 0, 12);
    a := FF(a, b, c, d, x[12], 7, 0x6b901122);
    d := FF(d, a, b, c, x[13], 12, 0xfd987193);
    c := FF(c, d, a, b, x[14], 17, 0xa679438e);
    b := FF(b, c, d, a, x[15], 22, 0x49b40821);
    FourSteps(v, x, 0, 12);
    assert State(a, b, c, d) == Steps(v, x, 0, 16);
    r := State(a, b, c, d);
  }

  lemma Table2()
    ensures T(16) == 0xf61e2562
    ensures T(17) == 0xc040b340
    ensures T(18) == 0x265e5a51
    ensures T(19) == 0xe9b6c7aa
    ensures T(20) == 0xd62f105d
    ensures T(21) == 0x2441453
    ensures T(22) == 0xd8a1e681
    ensures T(23) == 0xe7d3fbc8
    ensures T(24) == 0x21e1cde6
    ensures T(25) == 0xc33707d6
    ensures T(26) == 0xf4d50d87
    ensures T(27) == 0x455a14ed
    ensures T(28) == 0xa9e3e905
    ensures T(29) == 0xfcefa3f8
    ensures T(30) == 0x676f02d9
    ensures T(31) == 0x8d2a4c8a
  {
  }

  lemma Order2()
    ensures K(16) == 1 && S(16) == 5
    ensures K(17) == 6 && S(17) == 9
    ensures K(18) == 11 && S(18) == 14
    ensures K(19) == 0 && S(19) == 20
    ensures K(20) == 5 && S(20) == 5
    ensures K(21) == 10 && S(21) == 9
    ensures K(22) == 15 && S(22) == 14
    ensures K(23) == 4 && S(23) == 20
    ensures K(24) == 9 && S(24) == 5
    ensures K(25) == 14 && S(25) == 9
    ensures K(26) == 3 && S(26) == 14
    ensures K(27) == 8 && S(27) == 20
    ensures K(28) == 13 && S(28) == 5
    ensures K(29) == 2 && S(29) == 9
    ensures K(30) == 7 && S(30) == 14
    ensures K(31) == 12 && S(31) == 20
  {
  }

  /** Round 2 of MD5Transform. */
  method Round2(v: State, x: seq<word>) returns (r: State)
    requires |x| == 16
    ensures r == Steps(v, x, 16, 32)
  {
    hide GG, Steps, T, K, S;
    Table2();
    Order2();
    StepsNone(v, x, 16);
    var a, b, c, d := v.a, v.b, v.c, v.d;
    a := GG(a, b, c, d, x[1], 5, 0xf61e2562);
    d := GG(d, a, b, c, x[6], 9, 0xc040b340);
    c := GG(c, d, a, b, x[11], 14, 0x265e5a51);
    b := GG(b, c, d, a, x[0], 20, 0xe9b6c7aa);
    FourSteps(v, x, 16, 16);
    assert State(a, b, c, d) == Steps(v, x, 16, 20);
    a := GG(a, b, c, d, x[5], 5, 0xd62f105d);
    d := GG(d, a, b, c, x[10], 9, 0x2441453);
    c := GG(c, d, a, b, x[15], 14, 0xd8a1e681);
    b := GG(b, c, d, a, x[4], 20, 0xe7d3fbc8);
    FourSteps(v, x, 16, 20);
    assert State(a, b, c, d) == Steps(v, x, 16, 24);
    a := GG(a, b, c, d, x[9], 5, 0x21e1cde6);
    d := GG(d, a, b, c, x[14], 9, 0xc33707d6);
    c := GG(c, d, a, b, x[3], 14, 0xf4d50d87);
    b := GG(b, c, d, a, x[8], 20, 0x455a14ed);
    FourSteps(v, x, 16, 24);
    assert State(a, b, c, d) == Steps(v, x, 16, 28);
    a := GG(a, b, c, d, x[13], 5, 0xa9e3e905);
    d := GG(d, a, b, c, x[2], 9, 0xfcefa3f8);
    c := GG(c, d, a, b, x[7], 14, 0x676f02d9);
    b := GG(b, c, d, a, x[12], 20, 0x8d2a4c8a);
    FourSteps(v, x, 16, 28);
    assert State(a, b, c, d) == Steps(v, x, 16, 32);
    r := State(a, b, c, d);
  }

  lemma Table3()
    ensures T(32) == 0xfffa3942
    ensures T(33) == 0x8771f681
    ensures T(34) == 0x6d9d6122
    ensures T(35) == 0xfde5380c
    ensures T(36) == 0xa4beea44
    ensures T(37) == 0x4bdecfa9
    ensures T(38) == 0xf6bb4b60
    ensures T(39) == 0xbebfbc70
    ensures T(40) == 0x289b7ec6
    ensures T(41) == 0xeaa127fa
    ensures T(42) == 0xd4ef3085
    ensures T(43) == 0x4881d05
    ensures T(44) == 0xd9d4d039
    ensures T(45) == 0xe6db99e5
    ensures T(46) == 0x1fa27cf8
    ensures T(47) == 0xc4ac5665
  {
  }

  lemma Order3()
    ensures K(32) == 5 && S(32) == 4
    ensures K(33) == 8 && S(33) == 11
    ensures K(34) == 11 && S(34) == 16
    ensures K(35) == 14 && S(35) == 23
    ensures K(36) == 1 && S(36) == 4
    ensures K(37) == 4 && S(37) == 11
    ensures K(38) == 7 && S(38) == 16
    ensures K(39) == 10 && S(39) == 23
    ensures K(40) == 13 && S(40) == 4
    ensures K(41) == 0 && S(41) == 11
    ensures K(42) == 3 && S(42) == 16
    ensures K(43) == 6 && S(43) == 23
    ensures K(44) == 9 && S(44) == 4
    ensures K(45) == 12 && S(45) == 11
    ensures K(46) == 15 && S(46) == 16
    ensures K(47) == 2 && S(47) == 23
  {
  }

  /** Round 3 of MD5Transform. */
  method Round3(v: State, x: seq<word>) returns (r: State)
    requires |x| == 16
    ensures r == Steps(v, x, 32, 48)
  {
    hide HH, Steps, T, K, S;
    Table3();
    Order3();
    StepsNone(v, x, 32);
    var a, b, c, d := v.a, v.b, v.c, v.d;
    a := HH(a, b, c, d, x[5], 4, 0xfffa3942);
    d := HH(d, a, b, c, x[8], 11, 0x8771f681);
    c := HH(c, d, a, b, x[11], 16, 0x6d9d6122);
    b := HH(b, c, d, a, x[14], 23, 0xfde5380c);
    FourSteps(v, x, 32, 32);
    assert State(a, b, c, d) == Steps(v, x, 32, 36);
    a := HH(a, b, c, d, x[1], 4, 0xa4beea44);
    d := HH(d, a, b, c, x[4], 11, 0x4bdecfa9);
    c := HH(c, d, a, b, x[7], 16, 0xf6bb4b60);
    b := HH(b, c, d, a, x[10], 23, 0xbebfbc70);
    FourSteps(v, x, 32, 36);
    assert State(a, b, c, d) == Steps(v, x, 32, 40);
    a := HH(a, b, c, d, x[13], 4, 0x289b7ec6);
    d := HH(d, a, b, c, x[0], 11, 0xeaa127fa);
    c := HH(c, d, a, b, x[3], 16, 0xd4ef3085);
    b := HH(b, c, d, a, x[6], 23, 0x4881d05);
    FourSteps(v, x, 32, 40);
    assert State(a, b, c, d) == Steps(v, x, 32, 44);
    a := HH(a, b, c, d, x[9], 4, 0xd9d4d039);
    d := HH(d, a, b, c, x[12], 11, 0xe6db99e5);
    c := HH(c, d, a, b, x[15], 16, 0x1fa27cf8);
    b := HH(b, c, d, a, x[2], 23, 0xc4ac5665);
    FourSteps(v, x, 32, 44);
    assert State(a, b, c, d) == Steps(v, x, 32, 48);
    r := State(a, b, c, d);
  }

  lemma Table4()
    ensures T(48) == 0xf4292244
    ensures T(49) == 0x432aff97
    ensures T(50) == 0xab9423a7
    ensures T(51) == 0xfc93a039
    ensures T(52) == 0x655b59c3
    ensures T(53) == 0x8f0ccc92
    ensures T(54) == 0xffeff47d
    ensures T(55) == 0x85845dd1
    ensures T(56) == 0x6fa87e4f
    ensures T(57) == 0xfe2ce6e0
    ensures T(58) == 0xa3014314
    ensures T(59) == 0x4e0811a1
    ensures T(60) == 0xf7537e82
    ensures T(61) == 0xbd3af235
    ensures T(62) == 0x2ad7d2bb
    ensures T(63) == 0xeb86d391
  {
  }

  lemma Order4()
    ensures K(48) == 0 && S(48) == 6
    ensures K(49) == 7 && S(49) == 10
    ensures K(50) == 14 && S(50) == 15
    ensures K(51) == 5 && S(51) == 21
    ensures K(52) == 12 && S(52) == 6
    ensures K(53) == 3 && S(53) == 10
    ensures K(54) == 10 && S(54) == 15
    ensures K(55) == 1 && S(55) == 21
    ensures K(56) == 8 && S(56) == 6
    ensures K(57) == 15 && S(57) == 10
    ensures K(58) == 6 && S(58) == 15
    ensures K(59) == 13 && S(59) == 21
    ensures K(60) == 4 && S(60) == 6
    ensures K(61) == 11 && S(61) == 10
    ensures K(62) == 2 && S(62) == 15
    ensures K(63) == 9 && S(63) == 21
  {
  }

  /** Round 4 of MD5Transform. */
  method Round4(v: State, x: seq<word>) returns (r: State)
    requires |x| == 16
    ensures r == Steps(v, x, 48, 64)
  {
    hide II, Steps, T, K, S;
    Table4();
    Order4();
    StepsNone(v, x, 48);
    var a, b, c, d := v.a, v.b, v.c, v.d;
    a := II(a, b, c, d, x[0], 6, 0xf4292244);
    d := II(d, a, b, c, x[7], 10, 0x432aff97);
    c := II(c, d, a, b, x[14], 15, 0xab9423a7);
    b := II(b, c, d, a, x[5], 21, 0xfc93a039);
    FourSteps(v, x, 48, 48);
    assert State(a, b, c, d) == Steps(v, x, 48, 52);
    a := II(a, b, c, d, x[12], 6, 0x655b59c3);
    d := II(d, a, b, c, x[3], 10, 0x8f0ccc92);
    c := II(c, d, a, b, x[10], 15, 0xffeff47d);
    b := II(b, c, d, a, x[1], 21, 0x85845dd1);
    FourSteps(v, x, 48, 52);
    assert State(a, b, c, d) == Steps(v, x, 48, 56);
    a := II(a, b, c, d, x[8], 6, 0x6fa87e4f);
    d := II(d, a, b, c, x[15], 10, 0xfe2ce6e0);
    c := II(c, d, a, b, x[6], 15, 0xa3014314);
    b := II(b, c, d, a, x[13], 21, 0x4e0811a1);
    FourSteps(v, x, 48, 56);
    assert State(a, b, c, d) == Steps(v, x, 48, 60);
    a := II(a, b, c, d, x[4], 6, 0xf7537e82);
    d := II(d, a, b, c, x[11], 10, 0xbd3af235);
    c := II(c, d, a, b, x[2], 15, 0x2ad7d2bb);
    b := II(b, c, d, a, x[9], 21, 0xeb86d391);
    FourSteps(v, x, 48, 60);
    assert State(a, b, c, d) == Steps(v, x, 48, 64);
    r := State(a, b, c, d);
  }

  lemma {:induction false} StepsJoin(v: State, x: seq<word>, i: nat, m: nat, n: nat)
    requires |x| == 16 && i <= m <= n <= 64
    ensures Steps(Steps(v, x, i, m), x, m, n) == Steps(v, x, i, n)
  {
    hide Step;
    if m < n {
      StepsJoin(v, x, i, m, n - 1);
    }
  }

  // Words and octets, low-order octet first.

  function EncodeWord(w: word): (s: seq<octet>)
    ensures |s| == 4
  {
    [(w & 0xff) as octet, ((w >> 8) & 0xff) as octet, ((w >> 16) & 0xff) as octet, ((w >> 24) & 0xff) as octet]
  }

  function DecodeWord(s: seq<octet>): word
    requires |s| == 4
  {
    (s[0] as word) | ((s[1] as word) << 8) | ((s[2] as word) << 16) | ((s[3] as word) << 24)
  }

  function EncodeWords(ws: seq<word>): (s: seq<octet>)
    ensures |s| == 4 * |ws|
  {
    if ws == [] then [] else EncodeWords(ws[..|ws| - 1]) + EncodeWord(ws[|ws| - 1])
  }

  function DecodeWords(s: seq<octet>): (ws: seq<word>)
    requires |s| % 4 == 0
    ensures |ws| == |s| / 4
  {
    if s == [] then [] else DecodeWords(s[..|s| - 4]) + [DecodeWord(s[|s| - 4..])]
  }

  lemma EncodeDecodeWord(w: word)
    ensures DecodeWord(EncodeWord(w)) == w
  {
  }

  lemma DecodeEncodeWord(s: seq<octet>)
    requires |s| == 4
    ensures EncodeWord(DecodeWord(s)) == s
  {
  }

  /** Encode and Decode undo each other. */
  lemma {:induction false} EncodeDecode(ws: seq<word>)
    ensures DecodeWords(EncodeWords(ws)) == ws
  {
    hide EncodeWord, DecodeWord;
    if ws != [] {
      var n := |ws| - 1;
      var a, b := EncodeWords(ws[..n]), EncodeWord(ws[n]);
      EncodeDecode(ws[..n]);
      EncodeDecodeWord(ws[n]);
      assert (a + b)[..|a + b| - 4] == a && (a + b)[|a + b| - 4..] == b;
      assert ws == ws[..n] + [ws[n]];
    }
  }

  lemma {:induction false} DecodeEncode(s: seq<octet>)
    requires |s| % 4 == 0
    ensures EncodeWords(DecodeWords(s)) == s
  {
    hide EncodeWord, DecodeWord;
    if s != [] {
      var ws := DecodeWords(s);
      DecodeEncode(s[..|s| - 4]);
      DecodeEncodeWord(s[|s| - 4..]);
      assert ws[..|ws| - 1] == DecodeWords(s[..|s| - 4]);
      assert s == s[..|s| - 4] + s[|s| - 4..];
    }
  }

  lemma EncodeNone(ws: seq<word>)
    requires ws == []
    ensures EncodeWords(ws) == []
  {
  }

  lemma EncodeNext(ws: seq<word>, i: nat)
    requires i < |ws|
    ensures EncodeWords(ws[..i + 1]) == EncodeWords(ws[..i]) + EncodeWord(ws[i])
  {
    hide EncodeWord;
    assert ws[..i + 1][..i] == ws[..i];
  }

  /** The Encode of the C code: `len` octets of `output` from the words of `input`. */
  method Encode(output: array<octet>, input: seq<word>, len: nat)
    requires len % 4 == 0 && len <= output.Length && len <= 4 * |input|
    modifies output
    ensures output[..len] == EncodeWords(input[..len / 4])
    ensures output[len..] == old(output[len..])
  {
    hide EncodeWord, EncodeWords;
    var i, j := 0, 0;
    EncodeNone(input[..0]);
    while j < len
      invariant j == 4 * i && j <= len
      invariant output[..j] == EncodeWords(input[..i])
      invariant output[len..] == old(output[len..])
    {
      var w := EncodeWord(input[i]);
      ghost var before := output[..j];
      output[j], output[j + 1], output[j + 2], output[j + 3] := w[0], w[1], w[2], w[3];
      assert output[..j + 4] == before + w;
      EncodeNext(input, i);
      i, j := i + 1, j + 4;
    }
  }

  lemma DecodeNone(s: seq<octet>)
    requires s == []
    ensures DecodeWords(s) == []
  {
  }

  lemma DecodeNext(s: seq<octet>, j: nat)
    requires j % 4 == 0 && j + 4 <= |s|
    ensures DecodeWords(s[..j + 4]) == DecodeWords(s[..j]) + [DecodeWord(s[j..j + 4])]
  {
    hide DecodeWord;
    assert s[..j + 4][..j] == s[..j] && s[..j + 4][j..] == s[j..j + 4];
  }

  /** The Decode of the C code: the words of the first `len` octets of `input`. */
  method Decode(output: array<word>, input: seq<octet>, len: nat)
    requires len % 4 == 0 && len <= |input| && len <= 4 * output.Length
    modifies output
    ensures output[..len / 4] == DecodeWords(input[..len])
    ensures output[len / 4..] == old(output[len / 4..])
  {
    hide DecodeWord, DecodeWords;
    var i, j := 0, 0;
    DecodeNone(input[..0]);
    while j < len
      invariant j == 4 * i && j <= len
      invariant output[..i] == DecodeWords(input[..j])
      invariant output[len / 4..] == old(output[len / 4..])
    {
      output[i] := DecodeWord(input[j..j + 4]);
      DecodeNext(input, j);
      i, j := i + 1, j + 4;
    }
  }

  /** The 64 steps on a block. */
  function BlockSteps(v: State, block: seq<octet>): State
    requires |block| == 64
  {
    Steps(v, DecodeWords(block), 0, 64)
  }

  function Sum(v: State, w: State): State {
    State(v.a + w.a, v.b + w.b, v.c + w.c, v.d + w.d)
  }

  /** Section 3.4 of RFC 1321 for one 64-octet block. */
  function Compress(v: State, block: seq<octet>): State
    requires |block| == 64
  {
    Sum(v, BlockSteps(v, block))
  }

  /** The four rounds of MD5Transform. */
  method Rounds(v: State, x: seq<word>, ghost block: seq<octet>) returns (r: State)
    requires |block| == 64 && x == DecodeWords(block)
    ensures r == BlockSteps(v, block)
  {
    hide Steps;
    r := Round1(v, x);
    r := Round2(r, x);
    StepsJoin(v, x, 0, 16, 32);
    r := Round3(r, x);
    StepsJoin(v, x, 0, 32, 48);
    r := Round4(r, x);
    StepsJoin(v, x, 0, 48, 64);
  }

  /** MD5Transform. */
  method Transform(v: State, block: seq<octet>) returns (r: State)
    requires |block| == 64
    ensures r == Compress(v, block)
  {
    hide Steps, DecodeWords, BlockSteps, Sum;
    var x := new word[16];
    Decode(x, block, 64);
    assert block[..64] == block;
    var w := Rounds(v, x[..16], block);
    r := Sum(v, w);
  }
}
