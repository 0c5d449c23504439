/** The digest of "abc" from the test suite in section A.5 of RFC 1321, worked through all 64
    steps of the table: it ties the auxiliary functions, the table, the orders, the rotations
    and the initial registers to values that come from nowhere else. */
module Md5Suite {
  import opened Md5Block
  import opened Md5

  /** The 16 words of the padded message. */
  const WORDS: seq<word> := [0x80636261, 0, 0, 0, 0, 0, 0, 0, 0, 0, 0, 0, 0, 0, 24, 0]

  lemma StepsNext(v: State, x: seq<word>, i: nat, n: nat)
    requires |x| == 16 && i <= n < 64
    ensures Steps(v, x, i, n + 1) == Step(Steps(v, x, i, n), x, n)
  {
  }

  // What the first round computes, step by step.
  lemma Values1()
    ensures FF(0x67452301, 0xefcdab89, 0x98badcfe, 0x10325476, 0x80636261, 7, 0xd76aa478) == 0xd6d117b4
    ensures FF(0x10325476, 0xd6d117b4, 0xefcdab89, 0x98badcfe, 0x00000000, 12, 0xe8c7b756) == 0x344a8432
    ensures FF(0x98badcfe, 0x344a8432, 0xd6d117b4, 0xefcdab89, 0x00000000, 17, 0x242070db) == 0x2f6fbd72
    ensures FF(0xefcdab89, 0x2f6fbd72, 0x344a8432, 0xd6d117b4, 0x00000000, 22, 0xc1bdceee) == 0x7ad956f2
    ensures FF(0xd6d117b4, 0x7ad956f2, 0x2f6fbd72, 0x344a8432, 0x00000000, 7, 0xf57c0faf) == 0xc73741ef
    ensures FF(0x344a8432, 0xc73741ef, 0x7ad956f2, 0x2f6fbd72, 0x00000000, 12, 0x4787c62a) == 0x8bac3051
    ensures FF(0x2f6fbd72, 0x8bac3051, 0xc73741ef, 0x7ad956f2, 0x00000000, 17, 0xa8304613) == 0x207dc67b
    ensures FF(0x7ad956f2, 0x207dc67b, 0x8bac3051, 0xc73741ef, 0x00000000, 22, 0xfd469501) == 0x928d99f6
    ensures FF(0xc73741ef, 0x928d99f6, 0x207dc67b, 0x8bac3051, 0x00000000, 7, 0x698098d8) == 0x854b3712
    ensures FF(0x8bac3051, 0x854b3712, 0x928d99f6, 0x207dc67b, 0x00000000, 12, 0x8b44f7af) == 0x74e2f284
    ensures FF(0x207dc67b, 0x74e2f284, 0x854b3712, 0x928d99f6, 0x00000000, 17, 0xffff5bb1) == 0x3020401c
    ensures FF(0x928d99f6, 0x3020401c, 0x74e2f284, 0x854b3712, 0x00000000, 22, 0x895cd7be) == 0x5ed49596
    ensures FF(0x854b3712, 0x5ed49596, 0x3020401c, 0x74e2f284, 0x00000000, 7, 0x6b901122) == 0xdda9b9a6
    ensures FF(0x74e2f284, 0xdda9b9a6, 0x5ed49596, 0x3020401c, 0x00000000, 12, 0xfd987193) == 0xa1051895
    ensures FF(0x3020401c, 0xa1051895, 0xdda9b9a6, 0x5ed49596, 0x00000018, 17, 0xa679438e) == 0xe396856b
    ensures FF(0x5ed49596, 0xe396856b, 0xa1051895, 0xdda9b9a6, 0x00000000, 22, 0x49b40821) == 0x72aff2e0
  {
  }

  lemma Round1OfAbc()
    ensures Steps(State(0x67452301, 0xefcdab89, 0x98badcfe, 0x10325476), WORDS, 0, 16) ==
            State(0xdda9b9a6, 0x72aff2e0, 0xe396856b, 0xa1051895)
  {
    hide FF, GG, HH, II, Steps, T, K, S;
    Values1();
    Table1();
    Order1();
    var v := State(0x67452301, 0xefcdab89, 0x98badcfe, 0x10325476);
    StepsNone(v, WORDS, 0);
    StepsNext(v, WORDS, 0, 0);
    StepsNext(v, WORDS, 0, 1);
    StepsNext(v, WORDS, 0, 2);
    StepsNext(v, WORDS, 0, 3);
    assert Steps(v, WORDS, 0, 4) == State(0xd6d117b4, 0x7ad956f2, 0x2f6fbd72, 0x344a8432);
    StepsNext(v, WORDS, 0, 4);
    StepsNext(v, WORDS, 0, 5);
    StepsNext(v, WORDS, 0, 6);
    StepsNext(v, WORDS, 0, 7);
    assert Steps(v, WORDS, 0, 8) == State(0xc73741ef, 0x928d99f6, 0x207dc67b, 0x8bac3051);
    StepsNext(v, WORDS, 0, 8);
    StepsNext(v, WORDS, 0, 9);
    StepsNext(v, WORDS, 0, 10);
    StepsNext(v, WORDS, 0, 11);
    assert Steps(v, WORDS, 0, 12) == State(0x854b3712, 0x5ed49596, 0x3020401c, 0x74e2f284);
    StepsNext(v, WORDS, 0, 12);
    StepsNext(v, WORDS, 0, 13);
    StepsNext(v, WORDS, 0, 14);
    StepsNext(v, WORDS, 0, 15);
    assert Steps(v, WORDS, 0, 16) == State(0xdda9b9a6, 0x72aff2e0, 0xe396856b, 0xa1051895);
  }

  // What the second round computes, step by step.
  lemma Values2()
    ensures GG(0xdda9b9a6, 0x72aff2e0, 0xe396856b, 0xa1051895, 0x00000000, 5, 0xf61e2562) == 0x3e9e9126
    ensures GG(0xa1051895, 0x3e9e9126, 0x72aff2e0, 0xe396856b, 0x00000000, 9, 0xc040b340) == 0x4a1d804e
    ensures GG(0xe396856b, 0x4a1d804e, 0x3e9e9126, 0x72aff2e0, 0x00000000, 14, 0x265e5a51) == 0xe25e1652
    ensures GG(0x72aff2e0, 0xe25e1652, 0x4a1d804e, 0x3e9e9126, 0x80636261, 20, 0xe9b6c7aa) == 0xb5b204e4
    ensures GG(0x3e9e9126, 0xb5b204e4, 0xe25e1652, 0x4a1d804e, 0x00000000, 5, 0xd62f105d) == 0x59a8ffda
    ensures GG(0x4a1d804e, 0x59a8ffda, 0xb5b204e4, 0xe25e1652, 0x00000000, 9, 0x02441453) == 0x6d002f1e
    ensures GG(0xe25e1652, 0x6d002f1e, 0x59a8ffda, 0xb5b204e4, 0x00000000, 14, 0xd8a1e681) == 0xabfc7920
    ensures GG(0xb5b204e4, 0xabfc7920, 0x6d002f1e, 0x59a8ffda, 0x00000000, 20, 0xe7d3fbc8) == 0x47092c07
    ensures GG(0x59a8ffda, 0x47092c07, 0xabfc7920, 0x6d002f1e, 0x00000000, 5, 0x21e1cde6) == 0xb7f268cf
    ensures GG(0x6d002f1e, 0xb7f268cf, 0x47092c07, 0xabfc7920, 0x00000018, 9, 0xc33707d6) == 0x09388eff
    ensures GG(0xabfc7920, 0x09388eff, 0xb7f268cf, 0x47092c07, 0x00000000, 14, 0xf4d50d87) == 0xfe1623b1
    ensures GG(0x47092c07, 0xfe1623b1, 0x09388eff, 0xb7f268cf, 0x00000000, 20, 0x455a14ed) == 0x786acb8f
    ensures GG(0xb7f268cf, 0x786acb8f, 0xfe1623b1, 0x09388eff, 0x00000000, 5, 0xa9e3e905) == 0x790a77fb
    ensures GG(0x09388eff, 0x790a77fb, 0x786acb8f, 0xfe1623b1, 0x00000000, 9, 0xfcefa3f8) == 0x9f47e4f8
    ensures GG(0xfe1623b1, 0x9f47e4f8, 0x790a77fb, 0x786acb8f, 0x00000000, 14, 0x676f02d9) == 0xa62884aa
    ensures GG(0x786acb8f, 0xa62884aa, 0x9f47e4f8, 0x790a77fb, 0x00000000, 20, 0x8d2a4c8a) == 0x726342d3
  {
  }

  lemma Round2OfAbc()
    ensures Steps(State(0xdda9b9a6, 0x72aff2e0, 0xe396856b, 0xa1051895), WORDS, 16, 32) ==
            State(0x790a77fb, 0x726342d3, 0xa62884aa, 0x9f47e4f8)
  {
    hide FF, GG, HH, II, Steps, T, K, S;
    Values2();
    Table2();
    Order2();
    var v := State(0xdda9b9a6, 0x72aff2e0, 0xe396856b, 0xa1051895);
    StepsNone(v, WORDS, 16);
    StepsNext(v, WORDS, 16, 16);
    StepsNext(v, WORDS, 16, 17);
    StepsNext(v, WORDS, 16, 18);
    StepsNext(v, WORDS, 16, 19);
    assert Steps(v, WORDS, 16, 20) == State(0x3e9e9126, 0xb5b204e4, 0xe25e1652, 0x4a1d804e);
    StepsNext(v, WORDS, 16, 20);
    StepsNext(v, WORDS, 16, 21);
    StepsNext(v, WORDS, 16, 22);
    StepsNext(v, WORDS, 16, 23);
    assert Steps(v, WORDS, 16, 24) == State(0x59a8ffda, 0x47092c07, 0xabfc7920, 0x6d002f1e);
    StepsNext(v, WORDS, 16, 24);
    StepsNext(v, WORDS, 16, 25);
    StepsNext(v, WORDS, 16, 26);
    StepsNext(v, WORDS, 16, 27);
    assert Steps(v, WORDS, 16, 28) == State(0xb7f268cf, 0x786acb8f, 0xfe1623b1, 0x09388eff);
    StepsNext(v, WORDS, 16, 28);
    StepsNext(v, WORDS, 16, 29);
    StepsNext(v, WORDS, 16, 30);
    StepsNext(v, WORDS, 16, 31);
    assert Steps(v, WORDS, 16, 32) == State(0x790a77fb, 0x726342d3, 0xa62884aa, 0x9f47e4f8);
  }

  // What the third round computes, step by step.
  lemma Values3()
    ensures HH(0x790a77fb, 0x726342d3, 0xa62884aa, 0x9f47e4f8, 0x00000000, 4, 0xfffa3942) == 0xb3707ebf
    ensures HH(0x9f47e4f8, 0xb3707ebf, 0x726342d3, 0xa62884aa, 0x00000000, 11, 0x8771f681) == 0x60127b2e
    ensures HH(0xa62884aa, 0x60127b2e, 0xb3707ebf, 0x726342d3, 0x00000000, 16, 0x6d9d6122) == 0x8d212ff5
    ensures HH(0x726342d3, 0x8d212ff5, 0x60127b2e, 0xb3707ebf, 0x00000018, 23, 0xfde5380c) == 0x3b0875c7
    ensures HH(0xb3707ebf, 0x3b0875c7, 0x8d212ff5, 0x60127b2e, 0x00000000, 4, 0xa4beea44) == 0x21b117b9
    ensures HH(0x60127b2e, 0x21b117b9, 0x3b0875c7, 0x8d212ff5, 0x00000000, 11, 0x4bdecfa9) == 0x6e7429d5
    ensures HH(0x8d212ff5, 0x6e7429d5, 0x21b117b9, 0x3b0875c7, 0x00000000, 16, 0xf6bb4b60) == 0x3575227e
    ensures HH(0x3b0875c7, 0x3575227e, 0x6e7429d5, 0x21b117b9, 0x00000000, 23, 0xbebfbc70) == 0x5a2f5ea5
    ensures HH(0x21b117b9, 0x5a2f5ea5, 0x3575227e, 0x6e7429d5, 0x00000000, 4, 0x289b7ec6) == 0x11de1779
    ensures HH(0x6e7429d5, 0x11de1779, 0x5a2f5ea5, 0x3575227e, 0x80636261, 11, 0xeaa127fa) == 0xfadcaa38
    ensures HH(0x3575227e, 0xfadcaa38, 0x11de1779, 0x5a2f5ea5, 0x00000000, 16, 0xd4ef3085) == 0x31c465ca
    ensures HH(0x5a2f5ea5, 0x31c465ca, 0xfadcaa38, 0x11de1779, 0x00000000, 23, 0x04881d05) == 0x4c6124f4
    ensures HH(0x11de1779, 0x4c6124f4, 0x31c465ca, 0xfadcaa38, 0x00000000, 4, 0xd9d4d039) == 0x7f2e507b
    ensures HH(0xfadcaa38, 0x7f2e507b, 0x4c6124f4, 0x31c465ca, 0x00000000, 11, 0xe6db99e5) == 0x99d9679d
    ensures HH(0x31c465ca, 0x99d9679d, 0x7f2e507b, 0x4c6124f4, 0x00000000, 16, 0x1fa27cf8) == 0x8fae6399
    ensures HH(0x4c6124f4, 0x8fae6399, 0x99d9679d, 0x7f2e507b, 0x00000000, 23, 0xc4ac5665) == 0x7beb9700
  {
  }

  lemma Round3OfAbc()
    ensures Steps(State(0x790a77fb, 0x726342d3, 0xa62884aa, 0x9f47e4f8), WORDS, 32, 48) ==
            State(0x7f2e507b, 0x7beb9700, 0x8fae6399, 0x99d9679d)
  {
    hide FF, GG, HH, II, Steps, T, K, S;
    Values3();
    Table3();
    Order3();
    var v := State(0x790a77fb, 0x726342d3, 0xa62884aa, 0x9f47e4f8);
    StepsNone(v, WORDS, 32);
    StepsNext(v, WORDS, 32, 32);
    StepsNext(v, WORDS, 32, 33);
    StepsNext(v, WORDS, 32, 34);
    StepsNext(v, WORDS, 32, 35);
    assert Steps(v, WORDS, 32, 36) == State(0xb3707ebf, 0x3b0875c7, 0x8d212ff5, 0x60127b2e);
    StepsNext(v, WORDS, 32, 36);
    StepsNext(v, WORDS, 32, 37);
    StepsNext(v, WORDS, 32, 38);
    StepsNext(v, WORDS, 32, 39);
    assert Steps(v, WORDS, 32, 40) == State(0x21b117b9, 0x5a2f5ea5, 0x3575227e, 0x6e7429d5);
    StepsNext(v, WORDS, 32, 40);
    StepsNext(v, WORDS, 32, 41);
    StepsNext(v, WORDS, 32, 42);
    StepsNext(v, WORDS, 32, 43);
    assert Steps(v, WORDS, 32, 44) == State(0x11de1779, 0x4c6124f4, 0x31c465ca, 0xfadcaa38);
    StepsNext(v, WORDS, 32, 44);
    StepsNext(v, WORDS, 32, 45);
    StepsNext(v, WORDS, 32, 46);
    StepsNext(v, WORDS, 32, 47);
    assert Steps(v, WORDS, 32, 48) == State(0x7f2e507b, 0x7beb9700, 0x8fae6399, 0x99d9679d);
  }

  // What the fourth round computes, step by step.
  lemma Values4()
    ensures II(0x7f2e507b, 0x7beb9700, 0x8fae6399, 0x99d9679d, 0x80636261, 6, 0xf4292244) == 0x7b201df8
    ensures II(0x99d9679d, 0x7b201df8, 0x7beb9700, 0x8fae6399, 0x00000000, 10, 0x432aff97) == 0xf4e8e96e
    ensures II(0x8fae6399, 0xf4e8e96e, 0x7b201df8, 0x7beb9700, 0x00000018, 15, 0xab9423a7) == 0xb298cefd
    ensures II(0x7beb9700, 0xb298cefd, 0xf4e8e96e, 0x7b201df8, 0x00000000, 21, 0xfc93a039) == 0x8bf025c4
    ensures II(0x7b201df8, 0x8bf025c4, 0xb298cefd, 0xf4e8e96e, 0x00000000, 6, 0x655b59c3) == 0x06cc5e8a
    ensures II(0xf4e8e96e, 0x06cc5e8a, 0x8bf025c4, 0xb298cefd, 0x00000000, 10, 0x8f0ccc92) == 0x5b0d97aa
    ensures II(0xb298cefd, 0x5b0d97aa, 0x06cc5e8a, 0x8bf025c4, 0x00000000, 15, 0xffeff47d) == 0x7d632dd0
    ensures II(0x8bf025c4, 0x7d632dd0, 0x5b0d97aa, 0x06cc5e8a, 0x00000000, 21, 0x85845dd1) == 0x3bfa2c27
    ensures II(0x06cc5e8a, 0x3bfa2c27, 0x7d632dd0, 0x5b0d97aa, 0x00000000, 6, 0x6fa87e4f) == 0x7f81cc35
    ensures II(0x5b0d97aa, 0x7f81cc35, 0x3bfa2c27, 0x7d632dd0, 0x00000000, 10, 0xfe2ce6e0) == 0x094454ab
    ensures II(0x7d632dd0, 0x094454ab, 0x7f81cc35, 0x3bfa2c27, 0x00000000, 15, 0xa3014314) == 0x4f9dbe3f
    ensures II(0x3bfa2c27, 0x4f9dbe3f, 0x094454ab, 0x7f81cc35, 0x00000000, 21, 0x4e0811a1) == 0x7327d604
    ensures II(0x7f81cc35, 0x7327d604, 0x4f9dbe3f, 0x094454ab, 0x00000000, 6, 0xf7537e82) == 0x310ade8f
    ensures II(0x094454ab, 0x310ade8f, 0x7327d604, 0x4f9dbe3f, 0x00000000, 10, 0xbd3af235) == 0x624d8cb2
    ensures II(0x4f9dbe3f, 0x624d8cb2, 0x310ade8f, 0x7327d604, 0x00000000, 15, 0x2ad7d2bb) == 0xe484b9d8
    ensures II(0x7327d604, 0xe484b9d8, 0x624d8cb2, 0x310ade8f, 0x00000000, 21, 0xeb86d391) == 0xc08226b3
  {
  }

  lemma Round4OfAbc()
    ensures Steps(State(0x7f2e507b, 0x7beb9700, 0x8fae6399, 0x99d9679d), WORDS, 48, 64) ==
            State(0x310ade8f, 0xc08226b3, 0xe484b9d8, 0x624d8cb2)
  {
    hide FF, GG, HH, II, Steps, T, K, S;
    Values4();
    Table4();
    Order4();
    var v := State(0x7f2e507b, 0x7beb9700, 0x8fae6399, 0x99d9679d);
    StepsNone(v, WORDS, 48);
    StepsNext(v, WORDS, 48, 48);
    StepsNext(v, WORDS, 48, 49);
    StepsNext(v, WORDS, 48, 50);
    StepsNext(v, WORDS, 48, 51);
    assert Steps(v, WORDS, 48, 52) == State(0x7b201df8, 0x8bf025c4, 0xb298cefd, 0xf4e8e96e);
    StepsNext(v, WORDS, 48, 52);
    StepsNext(v, WORDS, 48, 53);
    StepsNext(v, WORDS, 48, 54);
    StepsNext(v, WORDS, 48, 55);
    assert Steps(v, WORDS, 48, 56) == State(0x06cc5e8a, 0x3bfa2c27, 0x7d632dd0, 0x5b0d97aa);
    StepsNext(v, WORDS, 48, 56);
    StepsNext(v, WORDS, 48, 57);
    StepsNext(v, WORDS, 48, 58);
    StepsNext(v, WORDS, 48, 59);
    assert Steps(v, WORDS, 48, 60) == State(0x7f81cc35, 0x7327d604, 0x4f9dbe3f, 0x094454ab);
    StepsNext(v, WORDS, 48, 60);
    StepsNext(v, WORDS, 48, 61);
    StepsNext(v, WORDS, 48, 62);
    StepsNext(v, WORDS, 48, 63);
    assert Steps(v, WORDS, 48, 64) == State(0x310ade8f, 0xc08226b3, 0xe484b9d8, 0x624d8cb2);
  }

  /** Section 3.3 of RFC 1321 gives the initial registers as octets, low-order octets first. */
  lemma InitialOctets()
    ensures EncodeWord(INIT.a) == [0x01, 0x23, 0x45, 0x67] && EncodeWord(INIT.b) == [0x89, 0xab, 0xcd, 0xef]
    ensures EncodeWord(INIT.c) == [0xfe, 0xdc, 0xba, 0x98] && EncodeWord(INIT.d) == [0x76, 0x54, 0x32, 0x10]
  {
  }

  const ABC: octets := [0x61, 0x62, 0x63]

  lemma AllRounds()
    ensures Steps(INIT, WORDS, 0, 64) == State(0x310ade8f, 0xc08226b3, 0xe484b9d8, 0x624d8cb2)
  {
    hide Steps;
    Round1OfAbc();
    Round2OfAbc();
    Round3OfAbc();
    Round4OfAbc();
    StepsJoin(INIT, WORDS, 0, 16, 32);
    StepsJoin(INIT, WORDS, 0, 32, 48);
    StepsJoin(INIT, WORDS, 0, 48, 64);
  }

  lemma FirstWords()
    ensures EncodeWord(0x80636261) == [0x61, 0x62, 0x63, 0x80] && EncodeWord(0) == [0, 0, 0, 0]
    ensures EncodeWord(24) == [24, 0, 0, 0]
  {
  }

  lemma {:induction false} ZeroWords(k: nat)
    requires 1 <= k <= 14
    ensures EncodeWords(WORDS[..k]) == [0x61, 0x62, 0x63, 0x80] + Zeros(4 * k - 4)
  {
    hide EncodeWord, EncodeWords;
    FirstWords();
    EncodeNext(WORDS, k - 1);
    if k == 1 {
      EncodeNone(WORDS[..0]);
    } else {
      ZeroWords(k - 1);
      assert WORDS[k - 1] == 0;
    }
  }

  lemma LengthOfAbc()
    ensures LengthOctets(3) == [24, 0, 0, 0, 0, 0, 0, 0]
  {
    assert Place(24, 0) == 24;
    assert forall i: nat :: 1 <= i < 8 ==> Place(24, i) == Place(0, i - 1);
    PlaceOfZero(0);
    PlaceOfZero(1);
    PlaceOfZero(2);
    PlaceOfZero(3);
    PlaceOfZero(4);
    PlaceOfZero(5);
    PlaceOfZero(6);
  }

  lemma {:induction false} PlaceOfZero(i: nat)
    ensures Place(0, i) == 0
  {
    if 0 < i {
      PlaceOfZero(i - 1);
    }
  }

  lemma PaddedAbc()
    ensures Padded(ABC) == EncodeWords(WORDS)
  {
    hide EncodeWord, EncodeWords, LengthOctets;
    FirstWords();
    ZeroWords(14);
    EncodeNext(WORDS, 14);
    EncodeNext(WORDS, 15);
    assert WORDS[..16] == WORDS;
    LengthOfAbc();
  }

  lemma SumOfAbc()
    ensures Sum(INIT, State(0x310ade8f, 0xc08226b3, 0xe484b9d8, 0x624d8cb2)) ==
            State(0x98500190, 0xb04fd23c, 0x7d3f96d6, 0x727fe128)
    ensures EncodeWord(0x98500190) == [0x90, 0x01, 0x50, 0x98]
    ensures EncodeWord(0xb04fd23c) == [0x3c, 0xd2, 0x4f, 0xb0]
    ensures EncodeWord(0x7d3f96d6) == [0xd6, 0x96, 0x3f, 0x7d]
    ensures EncodeWord(0x727fe128) == [0x28, 0xe1, 0x7f, 0x72]
  {
  }

  lemma FourEncoded(a: word, b: word, c: word, d: word)
    ensures EncodeWords([a, b, c, d]) == EncodeWord(a) + EncodeWord(b) + EncodeWord(c) + EncodeWord(d)
  {
    hide EncodeWord, EncodeWords;
    var ws := [a, b, c, d];
    EncodeNone(ws[..0]);
    EncodeNext(ws, 0);
    EncodeNext(ws, 1);
    EncodeNext(ws, 2);
    EncodeNext(ws, 3);
    assert ws[..4] == ws;
  }

  /** MD5("abc"). */
  lemma DigestOfAbc()
    ensures Digest(ABC) == [0x90, 0x01, 0x50, 0x98, 0x3c, 0xd2, 0x4f, 0xb0,
                            0xd6, 0x96, 0x3f, 0x7d, 0x28, 0xe1, 0x7f, 0x72]
  {
    hide EncodeWord, EncodeWords, DecodeWords, Steps, Sum, Padded, Compress, Fold;
    PaddedAbc();
    EncodeDecode(WORDS);
    AllRounds();
    SumOfAbc();
    FoldOfAbc();
    FourEncoded(0x98500190, 0xb04fd23c, 0x7d3f96d6, 0x727fe128);
  }

  lemma FoldOfAbc()
    ensures |Padded(ABC)| == 64
    ensures Fold(Padded(ABC)) == Sum(INIT, Steps(INIT, DecodeWords(Padded(ABC)), 0, 64))
  {
    hide Padded, Steps, Sum, DecodeWords;
    PaddedAbc();
    var p := Padded(ABC);
    assert p[..0] == [] && p[0..] == p;
    assert Fold(p[..0]) == INIT;
  }
}
