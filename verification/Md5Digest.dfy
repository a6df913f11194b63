/** One digest of appendix A.5 of RFC 1321, that of the alphabet, calculated through all 64 operations: the
    initial words, the tables and the order of the bytes are those of the RFC. */
module Md5Digest {
  import opened ByteText
  import opened Word32
  import opened Md5
  import opened Md5Block

  function ALPHABET(): (m: Bytes)
    ensures |m| == 26
  {
    seq(26, k => 0x61 + k)
  }

  /** The words of its only block: the letters, the mark, and the length in bits. */
  ghost predicate AlphabetWords(x: seq<Word>) {
    && |x| == 16
    && x[0] == Word(0x64636261) && x[1] == Word(0x68676665)
    && x[2] == Word(0x6c6b6a69) && x[3] == Word(0x706f6e6d)
    && x[4] == Word(0x74737271) && x[5] == Word(0x78777675)
    && x[6] == Word(0x00807a79) && x[7] == Word(0x00000000)
    && x[8] == Word(0x00000000) && x[9] == Word(0x00000000)
    && x[10] == Word(0x00000000) && x[11] == Word(0x00000000)
    && x[12] == Word(0x00000000) && x[13] == Word(0x00000000)
    && x[14] == Word(0x000000d0) && x[15] == Word(0x00000000)
  }

  function W(a: bv32, b: bv32, c: bv32, d: bv32): Words {
    Words(Word(a), Word(b), Word(c), Word(d))
  }

  /** One operation on given words: `f` is the value of its function, `u` the sum, `r` the sum shifted, `e` the
      new word. */
  lemma {:induction false} Turn(w: Words, x: seq<Word>, i: nat, a: bv32, b: bv32, c: bv32, d: bv32, m: bv32, t: bv32,
                                s: bv32, f: bv32, u: bv32, r: bv32, e: bv32)
    requires |x| == 16 && Steps(w, x, i) == W(a, b, c, d)
    requires x[Index(i)] == Word(m) && Sine(i) == Word(t) && Amount(i) == s && 0 < s < 32
    requires Mixed(i, Word(b), Word(c), Word(d)) == Word(f)
    requires Add(Word(a), Add(Add(Word(f), Word(m)), Word(t))) == Word(u)
    requires Shifted(Word(u), s) == Word(r) && Add(Word(r), Word(b)) == Word(e)
    ensures Steps(w, x, i + 1) == W(d, e, b, c)
  {
    hide Coded, Mixed, Index, Sine, Amount, Steps, Add, Shifted;
    NextStep(w, x, i);
    CodedIs(i, Word(b), Word(c), Word(d));
  }

  lemma {:induction false} Calculated1(w: Words, x: seq<Word>)
    requires AlphabetWords(x) && Steps(w, x, 0) == W(0x67452301, 0xefcdab89, 0x98badcfe, 0x10325476)
    ensures Steps(w, x, 8) == W(0xfe15f787, 0xda9bbb0d, 0xb71122fc, 0xa811b278)
  {
    hide Steps, Index, Sine, Amount;
    Indices1();
    Sines1();
    Amounts1();
    Turn(w, x, 0, 0x67452301, 0xefcdab89, 0x98badcfe, 0x10325476, 0x64636261, 0xd76aa478, 7,
         0x98badcfe, 0x3bce06d8, 0xe7036c1d, 0xd6d117a6);
    Turn(w, x, 1, 0x10325476, 0xd6d117a6, 0xefcdab89, 0x98badcfe, 0x68676665, 0xe8c7b756, 12,
         0xceebcbd8, 0x304d3e09, 0xd3e09304, 0xaab1aaaa);
    Turn(w, x, 2, 0x98badcfe, 0xaab1aaaa, 0xd6d117a6, 0xefcdab89, 0x6c6b6a69, 0x242070db, 17,
         0xc7dd03a3, 0xf123bbe5, 0x77cbe247, 0x227d8cf1);
    Turn(w, x, 3, 0xefcdab89, 0x227d8cf1, 0xaab1aaaa, 0xd6d117a6, 0x706f6e6d, 0xc1bdceee, 22,
         0xf6b19ba6, 0x18ac848a, 0x22862b21, 0x4503b812);
    Turn(w, x, 4, 0xd6d117a6, 0x4503b812, 0x227d8cf1, 0xaab1aaaa, 0x74737271, 0xf57c0faf, 7,
         0xaab18ab8, 0xeb72247e, 0xb9123f75, 0xfe15f787);
    Turn(w, x, 5, 0xaab1aaaa, 0xfe15f787, 0x4503b812, 0x227d8cf1, 0x78777675, 0x4787c62a, 12,
         0x4469b872, 0xaf1a9fbb, 0xa9fbbaf1, 0xa811b278);
    Turn(w, x, 6, 0x227d8cf1, 0xa811b278, 0xfe15f787, 0x4503b812, 0x00807a79, 0xa8304613, 17,
         0xed13ba02, 0xb842077f, 0x0eff7084, 0xb71122fc);
    Turn(w, x, 7, 0x4503b812, 0xb71122fc, 0xa811b278, 0xfe15f787, 0x00000000, 0xfd469501, 22,
         0xe815f77b, 0x2a60448e, 0x238a9811, 0xda9bbb0d);
  }

  lemma {:induction false} Calculated2(w: Words, x: seq<Word>)
    requires AlphabetWords(x) && Steps(w, x, 8) == W(0xfe15f787, 0xda9bbb0d, 0xb71122fc, 0xa811b278)
    ensures Steps(w, x, 16) == W(0x1754a316, 0x608d6b7e, 0x00df74d5, 0x85567d90)
  {
    hide Steps, Index, Sine, Amount;
    Indices1();
    Sines1();
    Amounts1();
    Turn(w, x, 8, 0xfe15f787, 0xda9bbb0d, 0xb71122fc, 0xa811b278, 0x00000000, 0x698098d8, 7,
         0xb211227c, 0x19a7b2db, 0xd3d96d8c, 0xae752899);
    Turn(w, x, 9, 0xa811b278, 0xae752899, 0xda9bbb0d, 0xb71122fc, 0x00000000, 0x8b44f7af, 12,
         0x9b112a6d, 0xce67d494, 0x7d494ce6, 0x2bbe757f);
    Turn(w, x, 10, 0xb71122fc, 0x2bbe757f, 0xae752899, 0xda9bbb0d, 0x00000000, 0xffff5bb1, 17,
         0xfa35aa19, 0xb14628c6, 0x518d628c, 0x7d4bd80b);
    Turn(w, x, 11, 0xda9bbb0d, 0x7d4bd80b, 0x2bbe757f, 0xae752899, 0x00000000, 0x895cd7be, 22,
         0xab3e709b, 0x0f370366, 0xd983cdc0, 0x56cfa5cb);
    Turn(w, x, 12, 0xae752899, 0x56cfa5cb, 0x7d4bd80b, 0x2bbe757f, 0x00000000, 0x6b901122, 7,
         0x7d7bd03f, 0x978109fa, 0xc084fd4b, 0x1754a316);
    Turn(w, x, 13, 0x2bbe757f, 0x1754a316, 0x56cfa5cb, 0x7d4bd80b, 0x00000000, 0xfd987193, 12,
         0x7e4ff90b, 0xa7a6e01d, 0x6e01da7a, 0x85567d90);
    Turn(w, x, 14, 0x7d4bd80b, 0x85567d90, 0x1754a316, 0x56cfa5cb, 0x000000d0, 0xa679438e, 17,
         0x57dda15b, 0x7ba2bdc4, 0x7b88f745, 0x00df74d5);
    Turn(w, x, 15, 0x56cfa5cb, 0x00df74d5, 0x85567d90, 0x1754a316, 0x00000000, 0x49b40821, 22,
         0x1756f792, 0xb7daa57e, 0x5fadf6a9, 0x608d6b7e);
  }

  lemma {:induction false} Calculated3(w: Words, x: seq<Word>)
    requires AlphabetWords(x) && Steps(w, x, 16) == W(0x1754a316, 0x608d6b7e, 0x00df74d5, 0x85567d90)
    ensures Steps(w, x, 24) == W(0x570c43e0, 0xc9f162d4, 0xc28ab49d, 0x977efd2a)
  {
    hide Steps, Index, Sine, Amount;
    Indices2();
    Sines2();
    Amounts2();
    Turn(w, x, 16, 0x1754a316, 0x608d6b7e, 0x00df74d5, 0x85567d90, 0x68676665, 0xf61e2562, 5,
         0x008d6955, 0x76679832, 0xccf3064e, 0x2d8071cc);
    Turn(w, x, 17, 0x85567d90, 0x2d8071cc, 0x608d6b7e, 0x00df74d5, 0x00807a79, 0xc040b340, 9,
         0x60807bee, 0xa6982737, 0x304e6f4d, 0x5dcee119);
    Turn(w, x, 18, 0x00df74d5, 0x5dcee119, 0x2d8071cc, 0x608d6b7e, 0x00000000, 0x265e5a51, 14,
         0x4d8c7198, 0x74ca40be, 0x902f9d32, 0xedfe7e4b);
    Turn(w, x, 19, 0x608d6b7e, 0xedfe7e4b, 0x5dcee119, 0x2d8071cc, 0x64636261, 0xe9b6c7aa, 20,
         0x7dcef059, 0x2c7685e2, 0x5e22c768, 0x4c2145b3);
    Turn(w, x, 20, 0x2d8071cc, 0x4c2145b3, 0xedfe7e4b, 0x5dcee119, 0x78777675, 0xd62f105d, 5,
         0xec305f53, 0x685757f1, 0x0aeafe2d, 0x570c43e0);
    Turn(w, x, 21, 0x5dcee119, 0x570c43e0, 0x4c2145b3, 0xedfe7e4b, 0x00000000, 0x02441453, 9,
         0x450d43f0, 0xa520395c, 0x4072b94a, 0x977efd2a);
    Turn(w, x, 22, 0xedfe7e4b, 0x977efd2a, 0x570c43e0, 0x4c2145b3, 0x00000000, 0xd8a1e681, 14,
         0x172c4762, 0xddccac2e, 0x2b0bb773, 0xc28ab49d);
    Turn(w, x, 23, 0x4c2145b3, 0xc28ab49d, 0x977efd2a, 0x570c43e0, 0x74737271, 0xe7d3fbc8, 20,
         0xc27abc8a, 0x6ae37076, 0x0766ae37, 0xc9f162d4);
  }

  lemma {:induction false} Calculated4(w: Words, x: seq<Word>)
    requires AlphabetWords(x) && Steps(w, x, 24) == W(0x570c43e0, 0xc9f162d4, 0xc28ab49d, 0x977efd2a)
    ensures Steps(w, x, 32) == W(0xf54d8710, 0xaeb35766, 0x2e69afc7, 0x927b72e2)
  {
    hide Steps, Index, Sine, Amount;
    Indices2();
    Sines2();
    Amounts2();
    Turn(w, x, 24, 0x570c43e0, 0xc9f162d4, 0xc28ab49d, 0x977efd2a, 0x00000000, 0x21e1cde6, 5,
         0xc1f06095, 0x3ade725b, 0x5bce4b67, 0x25bfae3b);
    Turn(w, x, 25, 0x977efd2a, 0x25bfae3b, 0xc9f162d4, 0xc28ab49d, 0x000000d0, 0xc33707d6, 9,
         0x09fbe659, 0x64b1ec29, 0x63d852c9, 0x89980104);
    Turn(w, x, 26, 0xc28ab49d, 0x89980104, 0x25bfae3b, 0xc9f162d4, 0x706f6e6d, 0xf4d50d87, 14,
         0xad9e8c2f, 0xd56dbcc0, 0x6f30355b, 0xf8c8365f);
    Turn(w, x, 27, 0xc9f162d4, 0xf8c8365f, 0x89980104, 0x25bfae3b, 0x00000000, 0x455a14ed, 20,
         0xa888271f, 0xb7d39ee0, 0xee0b7d39, 0xe6d3b398);
    Turn(w, x, 28, 0x25bfae3b, 0xe6d3b398, 0xf8c8365f, 0x89980104, 0x00000000, 0xa9e3e905, 5,
         0xf0d0375b, 0xc073ce9b, 0x0e79d378, 0xf54d8710);
    Turn(w, x, 29, 0x89980104, 0xf54d8710, 0xe6d3b398, 0xf8c8365f, 0x6c6b6a69, 0xfcefa3f8, 9,
         0xf65b8790, 0xe94e96f5, 0x9d2debd2, 0x927b72e2);
    Turn(w, x, 30, 0xf8c8365f, 0x927b72e2, 0xf54d8710, 0xe6d3b398, 0x00000000, 0x676f02d9, 14,
         0x935f3680, 0xf3966fb8, 0x9bee3ce5, 0x2e69afc7);
    Turn(w, x, 31, 0xe6d3b398, 0x2e69afc7, 0x927b72e2, 0xf54d8710, 0x00000000, 0x8d2a4c8a, 20,
         0x267bf7e2, 0x9a79f804, 0x8049a79f, 0xaeb35766);
  }

  lemma {:induction false} Calculated5(w: Words, x: seq<Word>)
    requires AlphabetWords(x) && Steps(w, x, 32) == W(0xf54d8710, 0xaeb35766, 0x2e69afc7, 0x927b72e2)
    ensures Steps(w, x, 40) == W(0xb9c0c733, 0x8d41bf99, 0x23a9451b, 0xf1e6dc7a)
  {
    hide Steps, Index, Sine, Amount;
    Indices3();
    Sines3();
    Amounts3();
    Turn(w, x, 32, 0xf54d8710, 0xaeb35766, 0x2e69afc7, 0x927b72e2, 0x78777675, 0xfffa3942, 4,
         0x12a18a43, 0x8060c10a, 0x060c10a8, 0xb4bf680e);
    Turn(w, x, 33, 0x927b72e2, 0xb4bf680e, 0xaeb35766, 0x2e69afc7, 0x00000000, 0x8771f681, 11,
         0x346590af, 0x4e52fa12, 0x97d09272, 0x4c8ffa80);
    Turn(w, x, 34, 0x2e69afc7, 0x4c8ffa80, 0xb4bf680e, 0xaeb35766, 0x00000000, 0x6d9d6122, 16,
         0x5683c5e8, 0xf28ad6d1, 0xd6d1f28a, 0x2361ed0a);
    Turn(w, x, 35, 0xaeb35766, 0x2361ed0a, 0x4c8ffa80, 0xb4bf680e, 0x000000d0, 0xfde5380c, 23,
         0xdb517f84, 0x87ea0fc6, 0xe343f507, 0x06a5e211);
    Turn(w, x, 36, 0xb4bf680e, 0x06a5e211, 0x2361ed0a, 0x4c8ffa80, 0x68676665, 0xa4beea44, 4,
         0x694bf59b, 0x2b31ae52, 0xb31ae522, 0xb9c0c733);
    Turn(w, x, 37, 0x4c8ffa80, 0xb9c0c733, 0x06a5e211, 0x2361ed0a, 0x74737271, 0x4bdecfa9, 11,
         0x9c04c828, 0xa8e704c2, 0x38261547, 0xf1e6dc7a);
    Turn(w, x, 38, 0x2361ed0a, 0xf1e6dc7a, 0xb9c0c733, 0x06a5e211, 0x00000000, 0xf6bb4b60, 16,
         0x4e83f958, 0x68a131c2, 0x31c268a1, 0x23a9451b);
    Turn(w, x, 39, 0x06a5e211, 0x23a9451b, 0xf1e6dc7a, 0xb9c0c733, 0x00000000, 0xbebfbc70, 23,
         0x6b8f5e52, 0x30f4fcd3, 0x69987a7e, 0x8d41bf99);
  }

  lemma {:induction false} Calculated6(w: Words, x: seq<Word>)
    requires AlphabetWords(x) && Steps(w, x, 40) == W(0xb9c0c733, 0x8d41bf99, 0x23a9451b, 0xf1e6dc7a)
    ensures Steps(w, x, 48) == W(0xb5d41f9c, 0x71d10367, 0x703d54d8, 0xa04b4904)
  {
    hide Steps, Index, Sine, Amount;
    Indices3();
    Sines3();
    Amounts3();
    Turn(w, x, 40, 0xb9c0c733, 0x8d41bf99, 0x23a9451b, 0xf1e6dc7a, 0x00000000, 0x289b7ec6, 4,
         0x5f0e26f8, 0x416a6cf1, 0x16a6cf14, 0xa3e88ead);
    Turn(w, x, 41, 0xf1e6dc7a, 0xa3e88ead, 0x8d41bf99, 0x23a9451b, 0x64636261, 0xeaa127fa, 11,
         0x0d00742f, 0x4debdb04, 0x5ed8226f, 0x02c0b11c);
    Turn(w, x, 42, 0x23a9451b, 0x02c0b11c, 0xa3e88ead, 0x8d41bf99, 0x706f6e6d, 0xd4ef3085, 16,
         0x2c698028, 0x95716435, 0x64359571, 0x66f6468d);
    Turn(w, x, 43, 0x8d41bf99, 0x66f6468d, 0x02c0b11c, 0xa3e88ead, 0x00807a79, 0x04881d05, 23,
         0xc7de793c, 0x5a28d053, 0x29ad1468, 0x90a35af5);
    Turn(w, x, 44, 0xa3e88ead, 0x90a35af5, 0x66f6468d, 0x02c0b11c, 0x00000000, 0xd9d4d039, 4,
         0xf495ad64, 0x72530c4a, 0x2530c4a7, 0xb5d41f9c);
    Turn(w, x, 45, 0x02c0b11c, 0xb5d41f9c, 0x90a35af5, 0x66f6468d, 0x00000000, 0xe6db99e5, 11,
         0x438103e4, 0x2d1d4ee5, 0xea772968, 0xa04b4904);
    Turn(w, x, 46, 0x66f6468d, 0xa04b4904, 0xb5d41f9c, 0x90a35af5, 0x00000000, 0x1fa27cf8, 16,
         0x853c0c6d, 0x0bd4cff2, 0xcff20bd4, 0x703d54d8);
    Turn(w, x, 47, 0x90a35af5, 0x703d54d8, 0xa04b4904, 0xb5d41f9c, 0x6c6b6a69, 0xc4ac5665, 23,
         0x65a20240, 0x275d1e03, 0x0193ae8f, 0x71d10367);
  }

  lemma {:induction false} Calculated7(w: Words, x: seq<Word>)
    requires AlphabetWords(x) && Steps(w, x, 48) == W(0xb5d41f9c, 0x71d10367, 0x703d54d8, 0xa04b4904)
    ensures Steps(w, x, 56) == W(0xc1e942f1, 0x83877d1b, 0x23a68048, 0xd9bb987c)
  {
    hide Steps, Index, Sine, Amount;
    Indices4();
    Sines4();
    Amounts4();
    Turn(w, x, 48, 0xb5d41f9c, 0x71d10367, 0x703d54d8, 0xa04b4904, 0x64636261, 0xf4292244, 6,
         0x0fc8e327, 0x1e298768, 0x8a61da07, 0xfc32dd6e);
    Turn(w, x, 49, 0xa04b4904, 0xfc32dd6e, 0x71d10367, 0x703d54d8, 0x00000000, 0x432aff97, 10,
         0x8e23fc08, 0x719a44a3, 0x69128dc6, 0x65456b34);
    Turn(w, x, 50, 0x703d54d8, 0x65456b34, 0xfc32dd6e, 0x71d10367, 0x000000d0, 0xab9423a7, 15,
         0x135d22d2, 0x2f2e9c21, 0x4e109797, 0xb35602cb);
    Turn(w, x, 51, 0x71d10367, 0xb35602cb, 0x65456b34, 0xfc32dd6e, 0x78777675, 0xfc93a039, 21,
         0xd69a49ef, 0xbd766404, 0x8097aecc, 0x33edb197);
    Turn(w, x, 52, 0xfc32dd6e, 0x33edb197, 0xb35602cb, 0x65456b34, 0x00000000, 0x655b59c3, 6,
         0x08a9b714, 0x6a37ee45, 0x8dfb915a, 0xc1e942f1);
    Turn(w, x, 53, 0x65456b34, 0xc1e942f1, 0x33edb197, 0xb35602cb, 0x706f6e6d, 0x8f0ccc92, 10,
         0xfe044e62, 0x62c5f495, 0x17d2558b, 0xd9bb987c);
    Turn(w, x, 54, 0xb35602cb, 0xd9bb987c, 0xc1e942f1, 0x33edb197, 0x00000000, 0xffeff47d, 15,
         0x1c529c8d, 0xcf9893d5, 0x49eae7cc, 0x23a68048);
    Turn(w, x, 55, 0x33edb197, 0x23a68048, 0xd9bb987c, 0xc1e942f1, 0x68676665, 0x85845dd1, 21,
         0xe60d2532, 0x07e69aff, 0x5fe0fcd3, 0x83877d1b);
  }

  lemma {:induction false} Calculated8(w: Words, x: seq<Word>)
    requires AlphabetWords(x) && Steps(w, x, 56) == W(0xc1e942f1, 0x83877d1b, 0x23a68048, 0xd9bb987c)
    ensures Steps(w, x, 64) == W(0x708ed9c2, 0x1116e6d8, 0xd38f1e7f, 0x2baf1354)
  {
    hide Steps, Index, Sine, Amount;
    Indices4();
    Sines4();
    Amounts4();
    Turn(w, x, 56, 0xc1e942f1, 0x83877d1b, 0x23a68048, 0xd9bb987c, 0x00000000, 0x6fa87e4f, 6,
         0x8461ffd3, 0xb5f3c113, 0x7cf044ed, 0x0077c208);
    Turn(w, x, 57, 0xd9bb987c, 0x0077c208, 0x83877d1b, 0x23a68048, 0x00000000, 0xfe2ce6e0, 10,
         0x5ff882a4, 0x37e10200, 0x840800df, 0x847fc2e7);
    Turn(w, x, 58, 0x23a68048, 0x847fc2e7, 0x0077c208, 0x83877d1b, 0x00807a79, 0xa3014314, 15,
         0xfc0800ef, 0xc3303ec4, 0x1f626198, 0xa3e2247f);
    Turn(w, x, 59, 0x83877d1b, 0xa3e2247f, 0x847fc2e7, 0x0077c208, 0x00000000, 0x4e0811a1, 21,
         0x7b95ff18, 0x4d258dd4, 0xba89a4b1, 0x5e6bc930);
    Turn(w, x, 60, 0x0077c208, 0x5e6bc930, 0xa3e2247f, 0x847fc2e7, 0x74737271, 0xf7537e82, 6,
         0xdc09d947, 0x48488c42, 0x12231092, 0x708ed9c2);
    Turn(w, x, 61, 0x847fc2e7, 0x708ed9c2, 0x5e6bc930, 0xa3e2247f, 0x00000000, 0xbd3af235, 10,
         0x22f412f2, 0x64aec80e, 0xbb203992, 0x2baf1354);
    Turn(w, x, 62, 0xa3e2247f, 0x2baf1354, 0x708ed9c2, 0x5e6bc930, 0x6c6b6a69, 0x2ad7d2bb, 15,
         0xdb31ee1d, 0x16574fc0, 0xa7e00b2b, 0xd38f1e7f);
    Turn(w, x, 63, 0x5e6bc930, 0xd38f1e7f, 0x2baf1354, 0x708ed9c2, 0x00000000, 0xeb86d391, 21,
         0xf4502d2b, 0x3e42c9ec, 0x3d87c859, 0x1116e6d8);
  }

  lemma {:induction false} WordAt(block: Bytes, n: nat, p: Bytes, w: bv32)
    requires |block| == BLOCK && n < 16 && |p| == 4 && WordOf(p) == Word(w)
    requires forall k :: 0 <= k < 4 ==> block[4 * n + k] == p[k]
    ensures WordsOf(block)[n] == Word(w)
  {
    hide WordOf;
    assert block[4 * n..4 * n + 4] == p;
  }

  ghost predicate IsAlphabet(block: Bytes) {
    && |block| == BLOCK
    && forall k :: 0 <= k < BLOCK ==>
         block[k] == if k < 26 then 0x61 + k else if k == 26 then 0x80 else if k == 56 then 0xd0 else 0
  }

  /** The alphabet and its padding, as the digest takes them: one block. */
  lemma {:induction false} OneBlockOfLetters() returns (block: Bytes)
    ensures block == ALPHABET() + Padding(26) && IsAlphabet(block)
  {
    hide Little;
    block := ALPHABET() + Padding(26);
    LengthIs208();
    assert (119 - 26 % BLOCK) % BLOCK == 29;
    assert |block| == BLOCK;
    forall k | 0 <= k < BLOCK
      ensures block[k] == if k < 26 then 0x61 + k else if k == 26 then 0x80 else if k == 56 then 0xd0 else 0
    {
      if k >= 56 {
        assert block[k] == LengthBytes(26)[k - 56];
      }
    }
  }

  lemma {:induction false} LengthIs208()
    ensures LengthBytes(26) == [0xd0, 0, 0, 0, 0, 0, 0, 0]
  {
  }


  lemma {:induction false} Letters1()
    ensures WordOf([0x61, 0x62, 0x63, 0x64]) == Word(0x64636261)
  {
  }

  lemma {:induction false} Letters2()
    ensures WordOf([0x65, 0x66, 0x67, 0x68]) == Word(0x68676665)
  {
  }

  lemma {:induction false} Letters3()
    ensures WordOf([0x69, 0x6a, 0x6b, 0x6c]) == Word(0x6c6b6a69)
  {
  }

  lemma {:induction false} Letters4()
    ensures WordOf([0x6d, 0x6e, 0x6f, 0x70]) == Word(0x706f6e6d)
  {
  }

  lemma {:induction false} Letters5()
    ensures WordOf([0x71, 0x72, 0x73, 0x74]) == Word(0x74737271)
  {
  }

  lemma {:induction false} Letters6()
    ensures WordOf([0x75, 0x76, 0x77, 0x78]) == Word(0x78777675)
  {
  }

  lemma {:induction false} Letters7()
    ensures WordOf([0x79, 0x7a, 0x80, 0x00]) == Word(0x00807a79)
  {
  }

  lemma {:induction false} Letters8()
    ensures WordOf([0xd0, 0x00, 0x00, 0x00]) == Word(0x000000d0)
  {
  }

  lemma {:induction false} Letters9()
    ensures WordOf([0x00, 0x00, 0x00, 0x00]) == Word(0x00000000)
  {
  }

  lemma {:induction false} LettersAreTheWords(block: Bytes)
    requires IsAlphabet(block)
    ensures AlphabetWords(WordsOf(block))
  {
    hide WordsOf, WordOf;
    Letters1();
    Letters2();
    Letters3();
    Letters4();
    Letters5();
    Letters6();
    Letters7();
    Letters8();
    Letters9();
    WordAt(block, 0, [0x61, 0x62, 0x63, 0x64], 0x64636261);
    WordAt(block, 1, [0x65, 0x66, 0x67, 0x68], 0x68676665);
    WordAt(block, 2, [0x69, 0x6a, 0x6b, 0x6c], 0x6c6b6a69);
    WordAt(block, 3, [0x6d, 0x6e, 0x6f, 0x70], 0x706f6e6d);
    WordAt(block, 4, [0x71, 0x72, 0x73, 0x74], 0x74737271);
    WordAt(block, 5, [0x75, 0x76, 0x77, 0x78], 0x78777675);
    WordAt(block, 6, [0x79, 0x7a, 0x80, 0x00], 0x00807a79);
    WordAt(block, 7, [0x00, 0x00, 0x00, 0x00], 0x00000000);
    WordAt(block, 8, [0x00, 0x00, 0x00, 0x00], 0x00000000);
    WordAt(block, 9, [0x00, 0x00, 0x00, 0x00], 0x00000000);
    WordAt(block, 10, [0x00, 0x00, 0x00, 0x00], 0x00000000);
    WordAt(block, 11, [0x00, 0x00, 0x00, 0x00], 0x00000000);
    WordAt(block, 12, [0x00, 0x00, 0x00, 0x00], 0x00000000);
    WordAt(block, 13, [0x00, 0x00, 0x00, 0x00], 0x00000000);
    WordAt(block, 14, [0xd0, 0x00, 0x00, 0x00], 0x000000d0);
    WordAt(block, 15, [0x00, 0x00, 0x00, 0x00], 0x00000000);
  }

  lemma {:induction false} NoneYet(w: Words, x: seq<Word>)
    requires |x| == 16
    ensures Steps(w, x, 0) == w
  {
  }

  lemma {:induction false} BlockOfLetters(block: Bytes)
    requires |block| == BLOCK && AlphabetWords(WordsOf(block))
    ensures Transform(INIT, block) == W(0xd7d3fcc3, 0x00e49261, 0x6c49fb7d, 0x3be167ca)
  {
    hide Steps, WordsOf, AlphabetWords;
    var x := WordsOf(block);
    NoneYet(INIT, x);
    assert INIT == W(0x67452301, 0xefcdab89, 0x98badcfe, 0x10325476);
    Calculated1(INIT, x);
    Calculated2(INIT, x);
    Calculated3(INIT, x);
    Calculated4(INIT, x);
    Calculated5(INIT, x);
    Calculated6(INIT, x);
    Calculated7(INIT, x);
    Calculated8(INIT, x);
  }

  lemma {:induction false} Bytes1()
    ensures Little(0xd7d3fcc3 as bv32 as nat) == [0xc3, 0xfc, 0xd3, 0xd7]
  {
  }

  lemma {:induction false} Bytes2()
    ensures Little(0x00e49261 as bv32 as nat) == [0x61, 0x92, 0xe4, 0x00]
  {
  }

  lemma {:induction false} Bytes3()
    ensures Little(0x6c49fb7d as bv32 as nat) == [0x7d, 0xfb, 0x49, 0x6c]
  {
  }

  lemma {:induction false} Bytes4()
    ensures Little(0x3be167ca as bv32 as nat) == [0xca, 0x67, 0xe1, 0x3b]
  {
  }

  lemma {:induction false} OutputIs()
    ensures Output(W(0xd7d3fcc3, 0x00e49261, 0x6c49fb7d, 0x3be167ca))
         == [0xc3, 0xfc, 0xd3, 0xd7, 0x61, 0x92, 0xe4, 0x00,
             0x7d, 0xfb, 0x49, 0x6c, 0xca, 0x67, 0xe1, 0x3b]
  {
    hide Little;
    Bytes1();
    Bytes2();
    Bytes3();
    Bytes4();
  }

  /** MD5 ("abcdefghijklmnopqrstuvwxyz") = c3fcd3d76192e4007dfb496cca67e13b. */
  lemma {:induction false} DigestOfTheAlphabet()
    ensures Finish(Transform, UpdateAll(Transform, START, [ALPHABET()]))
         == [0xc3, 0xfc, 0xd3, 0xd7, 0x61, 0x92, 0xe4, 0x00,
             0x7d, 0xfb, 0x49, 0x6c, 0xca, 0x67, 0xe1, 0x3b]
  {
    hide Steps, WordsOf, Transform, Output, Blocks, Padding, Finish, UpdateAll, ALPHABET;
    AnySplitGivesTheMd5([ALPHABET()]);
    assert Concat([ALPHABET()]) == ALPHABET();
    var block := OneBlockOfLetters();
    LettersAreTheWords(block);
    BlockOfLetters(block);
    OneBlock(Transform, INIT, block);
    OutputIs();
  }
}
