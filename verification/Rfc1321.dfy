/**
 Digests that section A.5 of RFC 1321 publishes, of the definition that the hasher is proved against. Each is
 computed step by step, with the words that the steps come to written out.
 */
module Rfc1321 {
  import opened Bytes
  import opened Md5Transform
  import opened Md5

  /** One step, from where the cascade is at step `i`, with the word that it mixes. */
  lemma Next(base: Regs, x: seq<word>, i: nat, a: word, b: word, c: word, d: word, mixed: word)
    requires |x| == 16 && i < 64 && Cascade(base, x, 0, i) == Regs(a, b, c, d)
    requires Mix(a, Auxiliary(i, b, c, d), x[WordIndex(i)], Sine(i), Shift(i), b) == mixed
    ensures Cascade(base, x, 0, i + 1) == Regs(d, mixed, b, c)
  {
    hide Mix, Auxiliary, Sine, Shift, WordIndex, Cascade;
    CascadeNext(base, x, 0, i);
  }

  lemma NoSteps(base: Regs, x: seq<word>)
    requires |x| == 16
    ensures Cascade(base, x, 0, 0) == base
  {
  }

  // ----- The empty message -----

  predicate IsEmpty(x: seq<word>) {
    |x| == 16
    && x[0] == 0x00000080 && x[1] == 0 && x[2] == 0 && x[3] == 0
    && x[4] == 0 && x[5] == 0 && x[6] == 0 && x[7] == 0
    && x[8] == 0 && x[9] == 0 && x[10] == 0 && x[11] == 0
    && x[12] == 0 && x[13] == 0 && x[14] == 0 && x[15] == 0
  }

  lemma EmptySteps1(base: Regs, x: seq<word>)
    requires IsEmpty(x) && base == Regs(0x67452301, 0xefcdab89, 0x98badcfe, 0x10325476)
    ensures Cascade(base, x, 0, 8) == Regs(0x32033344, 0x9bc13ce9, 0xf5b158db, 0x2f35d494)
  {
    NoSteps(base, x);
    hide Cascade;
    Next(base, x, 0, 0x67452301, 0xefcdab89, 0x98badcfe, 0x10325476, 0xa5202774);
    Next(base, x, 1, 0x10325476, 0xa5202774, 0xefcdab89, 0x98badcfe, 0xf59592dd);
    Next(base, x, 2, 0x98badcfe, 0xf59592dd, 0xa5202774, 0xefcdab89, 0xe7f06b23);
    Next(base, x, 3, 0xefcdab89, 0xe7f06b23, 0xf59592dd, 0xa5202774, 0x1b163203);
    Next(base, x, 4, 0xa5202774, 0x1b163203, 0xe7f06b23, 0xf59592dd, 0x32033344);
    Next(base, x, 5, 0xf59592dd, 0x32033344, 0x1b163203, 0xe7f06b23, 0x2f35d494);
    Next(base, x, 6, 0xe7f06b23, 0x2f35d494, 0x32033344, 0x1b163203, 0xf5b158db);
    Next(base, x, 7, 0x1b163203, 0xf5b158db, 0x2f35d494, 0x32033344, 0x9bc13ce9);
  }

  lemma EmptySteps2(base: Regs, x: seq<word>)
    requires IsEmpty(x) && Cascade(base, x, 0, 8) == Regs(0x32033344, 0x9bc13ce9, 0xf5b158db, 0x2f35d494)
    ensures Cascade(base, x, 0, 16) == Regs(0xf56c7cf1, 0xd6819c6a, 0x5aa53f75, 0x374943a7)
  {
    hide Cascade;
    Next(base, x, 8, 0x32033344, 0x9bc13ce9, 0xf5b158db, 0x2f35d494, 0x3893b991);
    Next(base, x, 9, 0x2f35d494, 0x3893b991, 0x9bc13ce9, 0xf5b158db, 0xfce4a312);
    Next(base, x, 10, 0xf5b158db, 0xfce4a312, 0x3893b991, 0x9bc13ce9, 0xe1ef0576);
    Next(base, x, 11, 0x9bc13ce9, 0xe1ef0576, 0xfce4a312, 0x3893b991, 0x70768a29);
    Next(base, x, 12, 0x3893b991, 0x70768a29, 0xe1ef0576, 0xfce4a312, 0xf56c7cf1);
    Next(base, x, 13, 0xfce4a312, 0xf56c7cf1, 0x70768a29, 0xe1ef0576, 0x374943a7);
    Next(base, x, 14, 0xe1ef0576, 0x374943a7, 0xf56c7cf1, 0x70768a29, 0x5aa53f75);
    Next(base, x, 15, 0x70768a29, 0x5aa53f75, 0x374943a7, 0xf56c7cf1, 0xd6819c6a);
  }

  lemma EmptySteps3(base: Regs, x: seq<word>)
    requires IsEmpty(x) && Cascade(base, x, 0, 16) == Regs(0xf56c7cf1, 0xd6819c6a, 0x5aa53f75, 0x374943a7)
    ensures Cascade(base, x, 0, 24) == Regs(0x3d1e3e6c, 0xe422531a, 0xeb41643e, 0x68b7b3e3)
  {
    hide Cascade;
    Next(base, x, 16, 0xf56c7cf1, 0xd6819c6a, 0x5aa53f75, 0x374943a7, 0x1c7d7513);
    Next(base, x, 17, 0x374943a7, 0x1c7d7513, 0xd6819c6a, 0x5aa53f75, 0x7bd57a3a);
    Next(base, x, 18, 0x5aa53f75, 0x7bd57a3a, 0x1c7d7513, 0xd6819c6a, 0xc095f13a);
    Next(base, x, 19, 0xd6819c6a, 0xc095f13a, 0x7bd57a3a, 0x1c7d7513, 0xbd782e17);
    Next(base, x, 20, 0x1c7d7513, 0xbd782e17, 0xc095f13a, 0x7bd57a3a, 0x3d1e3e6c);
    Next(base, x, 21, 0x7bd57a3a, 0x3d1e3e6c, 0xbd782e17, 0xc095f13a, 0x68b7b3e3);
    Next(base, x, 22, 0xc095f13a, 0x68b7b3e3, 0x3d1e3e6c, 0xbd782e17, 0xeb41643e);
    Next(base, x, 23, 0xbd782e17, 0xeb41643e, 0x68b7b3e3, 0x3d1e3e6c, 0xe422531a);
  }

  lemma EmptySteps4(base: Regs, x: seq<word>)
    requires IsEmpty(x) && Cascade(base, x, 0, 24) == Regs(0x3d1e3e6c, 0xe422531a, 0xeb41643e, 0x68b7b3e3)
    ensures Cascade(base, x, 0, 32) == Regs(0x13707036, 0xa2205f1f, 0x1c31c384, 0xae7813db)
  {
    hide Cascade;
    Next(base, x, 24, 0x3d1e3e6c, 0xe422531a, 0xeb41643e, 0x68b7b3e3, 0x306ec122);
    Next(base, x, 25, 0x68b7b3e3, 0x306ec122, 0xe422531a, 0xeb41643e, 0xd28c77c2);
    Next(base, x, 26, 0xeb41643e, 0xd28c77c2, 0x306ec122, 0xe422531a, 0xa3c663da);
    Next(base, x, 27, 0xe422531a, 0xa3c663da, 0xd28c77c2, 0x306ec122, 0xa0572807);
    Next(base, x, 28, 0x306ec122, 0xa0572807, 0xa3c663da, 0xd28c77c2, 0x13707036);
    Next(base, x, 29, 0xd28c77c2, 0x13707036, 0xa0572807, 0xa3c663da, 0xae7813db);
    Next(base, x, 30, 0xa3c663da, 0xae7813db, 0x13707036, 0xa0572807, 0x1c31c384);
    Next(base, x, 31, 0xa0572807, 0x1c31c384, 0xae7813db, 0x13707036, 0xa2205f1f);
  }

  lemma EmptySteps5(base: Regs, x: seq<word>)
    requires IsEmpty(x) && Cascade(base, x, 0, 32) == Regs(0x13707036, 0xa2205f1f, 0x1c31c384, 0xae7813db)
    ensures Cascade(base, x, 0, 40) == Regs(0x5f7a9b2e, 0xc5dc8c15, 0x91ca4cb7, 0xabc34e16)
  {
    hide Cascade;
    Next(base, x, 32, 0x13707036, 0xa2205f1f, 0x1c31c384, 0xae7813db, 0xdf63eaa1);
    Next(base, x, 33, 0xae7813db, 0xdf63eaa1, 0xa2205f1f, 0x1c31c384, 0xc3689f5b);
    Next(base, x, 34, 0x1c31c384, 0xc3689f5b, 0xdf63eaa1, 0xa2205f1f, 0x12f3e755);
    Next(base, x, 35, 0xa2205f1f, 0x12f3e755, 0xc3689f5b, 0xdf63eaa1, 0x004b6669);
    Next(base, x, 36, 0xdf63eaa1, 0x004b6669, 0x12f3e755, 0xc3689f5b, 0x5f7a9b2e);
    Next(base, x, 37, 0xc3689f5b, 0x5f7a9b2e, 0x004b6669, 0x12f3e755, 0xabc34e16);
    Next(base, x, 38, 0x12f3e755, 0xabc34e16, 0x5f7a9b2e, 0x004b6669, 0x91ca4cb7);
    Next(base, x, 39, 0x004b6669, 0x91ca4cb7, 0xabc34e16, 0x5f7a9b2e, 0xc5dc8c15);
  }

  lemma EmptySteps6(base: Regs, x: seq<word>)
    requires IsEmpty(x) && Cascade(base, x, 0, 40) == Regs(0x5f7a9b2e, 0xc5dc8c15, 0x91ca4cb7, 0xabc34e16)
    ensures Cascade(base, x, 0, 48) == Regs(0x3f55edfd, 0xca7d2dbd, 0x68d84ea2, 0x22a31f54)
  {
    hide Cascade;
    Next(base, x, 40, 0x5f7a9b2e, 0xc5dc8c15, 0x91ca4cb7, 0xabc34e16, 0x4497169d);
    Next(base, x, 41, 0xabc34e16, 0x4497169d, 0xc5dc8c15, 0x91ca4cb7, 0x76fd93d4);
    Next(base, x, 42, 0x91ca4cb7, 0x76fd93d4, 0x4497169d, 0xc5dc8c15, 0xfd95f243);
    Next(base, x, 43, 0xc5dc8c15, 0xfd95f243, 0x76fd93d4, 0x4497169d, 0x0fe32453);
    Next(base, x, 44, 0x4497169d, 0x0fe32453, 0xfd95f243, 0x76fd93d4, 0x3f55edfd);
    Next(base, x, 45, 0x76fd93d4, 0x3f55edfd, 0x0fe32453, 0xfd95f243, 0x22a31f54);
    Next(base, x, 46, 0xfd95f243, 0x22a31f54, 0x3f55edfd, 0x0fe32453, 0x68d84ea2);
    Next(base, x, 47, 0x0fe32453, 0x68d84ea2, 0x22a31f54, 0x3f55edfd, 0xca7d2dbd);
  }

  lemma EmptySteps7(base: Regs, x: seq<word>)
    requires IsEmpty(x) && Cascade(base, x, 0, 48) == Regs(0x3f55edfd, 0xca7d2dbd, 0x68d84ea2, 0x22a31f54)
    ensures Cascade(base, x, 0, 56) == Regs(0x5625a114, 0x1e77fa61, 0x392ad0d0, 0x3450f42b)
  {
    hide Cascade;
    Next(base, x, 48, 0x3f55edfd, 0xca7d2dbd, 0x68d84ea2, 0x22a31f54, 0x93aa2577);
    Next(base, x, 49, 0x22a31f54, 0x93aa2577, 0xca7d2dbd, 0x68d84ea2, 0x1688dc85);
    Next(base, x, 50, 0x68d84ea2, 0x1688dc85, 0x93aa2577, 0xca7d2dbd, 0xcd85b8cb);
    Next(base, x, 51, 0xca7d2dbd, 0xcd85b8cb, 0x1688dc85, 0x93aa2577, 0x561e0689);
    Next(base, x, 52, 0x93aa2577, 0x561e0689, 0xcd85b8cb, 0x1688dc85, 0x5625a114);
    Next(base, x, 53, 0x1688dc85, 0x5625a114, 0x561e0689, 0xcd85b8cb, 0x3450f42b);
    Next(base, x, 54, 0xcd85b8cb, 0x3450f42b, 0x5625a114, 0x561e0689, 0x392ad0d0);
    Next(base, x, 55, 0x561e0689, 0x392ad0d0, 0x3450f42b, 0x5625a114, 0x1e77fa61);
  }

  lemma EmptySteps8(base: Regs, x: seq<word>)
    requires IsEmpty(x) && Cascade(base, x, 0, 56) == Regs(0x5625a114, 0x1e77fa61, 0x392ad0d0, 0x3450f42b)
    ensures Cascade(base, x, 0, 64) == Regs(0x7246fad3, 0x14e45506, 0xff4ea3eb, 0x6e10a476)
  {
    hide Cascade;
    Next(base, x, 56, 0x5625a114, 0x1e77fa61, 0x392ad0d0, 0x3450f42b, 0x474a9c8c);
    Next(base, x, 57, 0x3450f42b, 0x474a9c8c, 0x1e77fa61, 0x392ad0d0, 0xdfce00bc);
    Next(base, x, 58, 0x392ad0d0, 0xdfce00bc, 0x474a9c8c, 0x1e77fa61, 0x36594b14);
    Next(base, x, 59, 0x1e77fa61, 0x36594b14, 0xdfce00bc, 0x474a9c8c, 0x30130182);
    Next(base, x, 60, 0x474a9c8c, 0x30130182, 0x36594b14, 0xdfce00bc, 0x7246fad3);
    Next(base, x, 61, 0xdfce00bc, 0x7246fad3, 0x30130182, 0x36594b14, 0x6e10a476);
    Next(base, x, 62, 0x36594b14, 0x6e10a476, 0x7246fad3, 0x30130182, 0xff4ea3eb);
    Next(base, x, 63, 0x30130182, 0xff4ea3eb, 0x6e10a476, 0x7246fad3, 0x14e45506);
  }

  lemma EmptyBlock(block: seq<byte>)
    requires |block| == 64 && IsEmpty(Words(block))
    ensures Compress(Regs(0x67452301, 0xefcdab89, 0x98badcfe, 0x10325476), block)
         == Regs(0xd98c1dd4, 0x04b2008f, 0x980980e9, 0x7e42f8ec)
  {
    hide IsEmpty, Cascade, Words;
    var base, x := Regs(0x67452301, 0xefcdab89, 0x98badcfe, 0x10325476), Words(block);
    EmptySteps1(base, x);
    EmptySteps2(base, x);
    EmptySteps3(base, x);
    EmptySteps4(base, x);
    EmptySteps5(base, x);
    EmptySteps6(base, x);
    EmptySteps7(base, x);
    EmptySteps8(base, x);
    assert Add(base, Regs(0x7246fad3, 0x14e45506, 0xff4ea3eb, 0x6e10a476))
        == Regs(0xd98c1dd4, 0x04b2008f, 0x980980e9, 0x7e42f8ec);
  }

  // ----- "abc" -----

  predicate IsAbc(x: seq<word>) {
    |x| == 16
    && x[0] == 0x80636261 && x[1] == 0 && x[2] == 0 && x[3] == 0
    && x[4] == 0 && x[5] == 0 && x[6] == 0 && x[7] == 0
    && x[8] == 0 && x[9] == 0 && x[10] == 0 && x[11] == 0
    && x[12] == 0 && x[13] == 0 && x[14] == 0x00000018 && x[15] == 0
  }

  lemma AbcSteps1(base: Regs, x: seq<word>)
    requires IsAbc(x) && base == Regs(0x67452301, 0xefcdab89, 0x98badcfe, 0x10325476)
    ensures Cascade(base, x, 0, 8) == Regs(0xc73741ef, 0x928d99f6, 0x207dc67b, 0x8bac3051)
  {
    NoSteps(base, x);
    hide Cascade;
    Next(base, x, 0, 0x67452301, 0xefcdab89, 0x98badcfe, 0x10325476, 0xd6d117b4);
    Next(base, x, 1, 0x10325476, 0xd6d117b4, 0xefcdab89, 0x98badcfe, 0x344a8432);
    Next(base, x, 2, 0x98badcfe, 0x344a8432, 0xd6d117b4, 0xefcdab89, 0x2f6fbd72);
    Next(base, x, 3, 0xefcdab89, 0x2f6fbd72, 0x344a8432, 0xd6d117b4, 0x7ad956f2);
    Next(base, x, 4, 0xd6d117b4, 0x7ad956f2, 0x2f6fbd72, 0x344a8432, 0xc73741ef);
    Next(base, x, 5, 0x344a8432, 0xc73741ef, 0x7ad956f2, 0x2f6fbd72, 0x8bac3051);
    Next(base, x, 6, 0x2f6fbd72, 0x8bac3051, 0xc73741ef, 0x7ad956f2, 0x207dc67b);
    Next(base, x, 7, 0x7ad956f2, 0x207dc67b, 0x8bac3051, 0xc73741ef, 0x928d99f6);
  }

  lemma AbcSteps2(base: Regs, x: seq<word>)
    requires IsAbc(x) && Cascade(base, x, 0, 8) == Regs(0xc73741ef, 0x928d99f6, 0x207dc67b, 0x8bac3051)
    ensures Cascade(base, x, 0, 16) == Regs(0xdda9b9a6, 0x72aff2e0, 0xe396856b, 0xa1051895)
  {
    hide Cascade;
    Next(base, x, 8, 0xc73741ef, 0x928d99f6, 0x207dc67b, 0x8bac3051, 0x854b3712);
    Next(base, x, 9, 0x8bac3051, 0x854b3712, 0x928d99f6, 0x207dc67b, 0x74e2f284);
    Next(base, x, 10, 0x207dc67b, 0x74e2f284, 0x854b3712, 0x928d99f6, 0x3020401c);
    Next(base, x, 11, 0x928d99f6, 0x3020401c, 0x74e2f284, 0x854b3712, 0x5ed49596);
    Next(base, x, 12, 0x854b3712, 0x5ed49596, 0x3020401c, 0x74e2f284, 0xdda9b9a6);
    Next(base, x, 13, 0x74e2f284, 0xdda9b9a6, 0x5ed49596, 0x3020401c, 0xa1051895);
    Next(base, x, 14, 0x3020401c, 0xa1051895, 0xdda9b9a6, 0x5ed49596, 0xe396856b);
    Next(base, x, 15, 0x5ed49596, 0xe396856b, 0xa1051895, 0xdda9b9a6, 0x72aff2e0);
  }

  lemma AbcSteps3(base: Regs, x: seq<word>)
    requires IsAbc(x) && Cascade(base, x, 0, 16) == Regs(0xdda9b9a6, 0x72aff2e0, 0xe396856b, 0xa1051895)
    ensures Cascade(base, x, 0, 24) == Regs(0x59a8ffda, 0x47092c07, 0xabfc7920, 0x6d002f1e)
  {
    hide Cascade;
    Next(base, x, 16, 0xdda9b9a6, 0x72aff2e0, 0xe396856b, 0xa1051895, 0x3e9e9126);
    Next(base, x, 17, 0xa1051895, 0x3e9e9126, 0x72aff2e0, 0xe396856b, 0x4a1d804e);
    Next(base, x, 18, 0xe396856b, 0x4a1d804e, 0x3e9e9126, 0x72aff2e0, 0xe25e1652);
    Next(base, x, 19, 0x72aff2e0, 0xe25e1652, 0x4a1d804e, 0x3e9e9126, 0xb5b204e4);
    Next(base, x, 20, 0x3e9e9126, 0xb5b204e4, 0xe25e1652, 0x4a1d804e, 0x59a8ffda);
    Next(base, x, 21, 0x4a1d804e, 0x59a8ffda, 0xb5b204e4, 0xe25e1652, 0x6d002f1e);
    Next(base, x, 22, 0xe25e1652, 0x6d002f1e, 0x59a8ffda, 0xb5b204e4, 0xabfc7920);
    Next(base, x, 23, 0xb5b204e4, 0xabfc7920, 0x6d002f1e, 0x59a8ffda, 0x47092c07);
  }

  lemma AbcSteps4(base: Regs, x: seq<word>)
    requires IsAbc(x) && Cascade(base, x, 0, 24) == Regs(0x59a8ffda, 0x47092c07, 0xabfc7920, 0x6d002f1e)
    ensures Cascade(base, x, 0, 32) == Regs(0x790a77fb, 0x726342d3, 0xa62884aa, 0x9f47e4f8)
  {
    hide Cascade;
    Next(base, x, 24, 0x59a8ffda, 0x47092c07, 0xabfc7920, 0x6d002f1e, 0xb7f268cf);
    Next(base, x, 25, 0x6d002f1e, 0xb7f268cf, 0x47092c07, 0xabfc7920, 0x09388eff);
    Next(base, x, 26, 0xabfc7920, 0x09388eff, 0xb7f268cf, 0x47092c07, 0xfe1623b1);
    Next(base, x, 27, 0x47092c07, 0xfe1623b1, 0x09388eff, 0xb7f268cf, 0x786acb8f);
    Next(base, x, 28, 0xb7f268cf, 0x786acb8f, 0xfe1623b1, 0x09388eff, 0x790a77fb);
    Next(base, x, 29, 0x09388eff, 0x790a77fb, 0x786acb8f, 0xfe1623b1, 0x9f47e4f8);
    Next(base, x, 30, 0xfe1623b1, 0x9f47e4f8, 0x790a77fb, 0x786acb8f, 0xa62884aa);
    Next(base, x, 31, 0x786acb8f, 0xa62884aa, 0x9f47e4f8, 0x790a77fb, 0x726342d3);
  }

  lemma AbcSteps5(base: Regs, x: seq<word>)
    requires IsAbc(x) && Cascade(base, x, 0, 32) == Regs(0x790a77fb, 0x726342d3, 0xa62884aa, 0x9f47e4f8)
    ensures Cascade(base, x, 0, 40) == Regs(0x21b117b9, 0x5a2f5ea5, 0x3575227e, 0x6e7429d5)
  {
    hide Cascade;
    Next(base, x, 32, 0x790a77fb, 0x726342d3, 0xa62884aa, 0x9f47e4f8, 0xb3707ebf);
    Next(base, x, 33, 0x9f47e4f8, 0xb3707ebf, 0x726342d3, 0xa62884aa, 0x60127b2e);
    Next(base, x, 34, 0xa62884aa, 0x60127b2e, 0xb3707ebf, 0x726342d3, 0x8d212ff5);
    Next(base, x, 35, 0x726342d3, 0x8d212ff5, 0x60127b2e, 0xb3707ebf, 0x3b0875c7);
    Next(base, x, 36, 0xb3707ebf, 0x3b0875c7, 0x8d212ff5, 0x60127b2e, 0x21b117b9);
    Next(base, x, 37, 0x60127b2e, 0x21b117b9, 0x3b0875c7, 0x8d212ff5, 0x6e7429d5);
    Next(base, x, 38, 0x8d212ff5, 0x6e7429d5, 0x21b117b9, 0x3b0875c7, 0x3575227e);
    Next(base, x, 39, 0x3b0875c7, 0x3575227e, 0x6e7429d5, 0x21b117b9, 0x5a2f5ea5);
  }

  lemma AbcSteps6(base: Regs, x: seq<word>)
    requires IsAbc(x) && Cascade(base, x, 0, 40) == Regs(0x21b117b9, 0x5a2f5ea5, 0x3575227e, 0x6e7429d5)
    ensures Cascade(base, x, 0, 48) == Regs(0x7f2e507b, 0x7beb9700, 0x8fae6399, 0x99d9679d)
  {
    hide Cascade;
    Next(base, x, 40, 0x21b117b9, 0x5a2f5ea5, 0x3575227e, 0x6e7429d5, 0x11de1779);
    Next(base, x, 41, 0x6e7429d5, 0x11de1779, 0x5a2f5ea5, 0x3575227e, 0xfadcaa38);
    Next(base, x, 42, 0x3575227e, 0xfadcaa38, 0x11de1779, 0x5a2f5ea5, 0x31c465ca);
    Next(base, x, 43, 0x5a2f5ea5, 0x31c465ca, 0xfadcaa38, 0x11de1779, 0x4c6124f4);
    Next(base, x, 44, 0x11de1779, 0x4c6124f4, 0x31c465ca, 0xfadcaa38, 0x7f2e507b);
    Next(base, x, 45, 0xfadcaa38, 0x7f2e507b, 0x4c6124f4, 0x31c465ca, 0x99d9679d);
    Next(base, x, 46, 0x31c465ca, 0x99d9679d, 0x7f2e507b, 0x4c6124f4, 0x8fae6399);
    Next(base, x, 47, 0x4c6124f4, 0x8fae6399, 0x99d9679d, 0x7f2e507b, 0x7beb9700);
  }

  lemma AbcSteps7(base: Regs, x: seq<word>)
    requires IsAbc(x) && Cascade(base, x, 0, 48) == Regs(0x7f2e507b, 0x7beb9700, 0x8fae6399, 0x99d9679d)
    ensures Cascade(base, x, 0, 56) == Regs(0x06cc5e8a, 0x3bfa2c27, 0x7d632dd0, 0x5b0d97aa)
  {
    hide Cascade;
    Next(base, x, 48, 0x7f2e507b, 0x7beb9700, 0x8fae6399, 0x99d9679d, 0x7b201df8);
    Next(base, x, 49, 0x99d9679d, 0x7b201df8, 0x7beb9700, 0x8fae6399, 0xf4e8e96e);
    Next(base, x, 50, 0x8fae6399, 0xf4e8e96e, 0x7b201df8, 0x7beb9700, 0xb298cefd);
    Next(base, x, 51, 0x7beb9700, 0xb298cefd, 0xf4e8e96e, 0x7b201df8, 0x8bf025c4);
    Next(base, x, 52, 0x7b201df8, 0x8bf025c4, 0xb298cefd, 0xf4e8e96e, 0x06cc5e8a);
    Next(base, x, 53, 0xf4e8e96e, 0x06cc5e8a, 0x8bf025c4, 0xb298cefd, 0x5b0d97aa);
    Next(base, x, 54, 0xb298cefd, 0x5b0d97aa, 0x06cc5e8a, 0x8bf025c4, 0x7d632dd0);
    Next(base, x, 55, 0x8bf025c4, 0x7d632dd0, 0x5b0d97aa, 0x06cc5e8a, 0x3bfa2c27);
  }

  lemma AbcSteps8(base: Regs, x: seq<word>)
    requires IsAbc(x) && Cascade(base, x, 0, 56) == Regs(0x06cc5e8a, 0x3bfa2c27, 0x7d632dd0, 0x5b0d97aa)
    ensures Cascade(base, x, 0, 64) == Regs(0x310ade8f, 0xc08226b3, 0xe484b9d8, 0x624d8cb2)
  {
    hide Cascade;
    Next(base, x, 56, 0x06cc5e8a, 0x3bfa2c27, 0x7d632dd0, 0x5b0d97aa, 0x7f81cc35);
    Next(base, x, 57, 0x5b0d97aa, 0x7f81cc35, 0x3bfa2c27, 0x7d632dd0, 0x094454ab);
    Next(base, x, 58, 0x7d632dd0, 0x094454ab, 0x7f81cc35, 0x3bfa2c27, 0x4f9dbe3f);
    Next(base, x, 59, 0x3bfa2c27, 0x4f9dbe3f, 0x094454ab, 0x7f81cc35, 0x7327d604);
    Next(base, x, 60, 0x7f81cc35, 0x7327d604, 0x4f9dbe3f, 0x094454ab, 0x310ade8f);
    Next(base, x, 61, 0x094454ab, 0x310ade8f, 0x7327d604, 0x4f9dbe3f, 0x624d8cb2);
    Next(base, x, 62, 0x4f9dbe3f, 0x624d8cb2, 0x310ade8f, 0x7327d604, 0xe484b9d8);
    Next(base, x, 63, 0x7327d604, 0xe484b9d8, 0x624d8cb2, 0x310ade8f, 0xc08226b3);
  }

  lemma AbcBlock(block: seq<byte>)
    requires |block| == 64 && IsAbc(Words(block))
    ensures Compress(Regs(0x67452301, 0xefcdab89, 0x98badcfe, 0x10325476), block)
         == Regs(0x98500190, 0xb04fd23c, 0x7d3f96d6, 0x727fe128)
  {
    hide IsAbc, Cascade, Words;
    var base, x := Regs(0x67452301, 0xefcdab89, 0x98badcfe, 0x10325476), Words(block);
    AbcSteps1(base, x);
    AbcSteps2(base, x);
    AbcSteps3(base, x);
    AbcSteps4(base, x);
    AbcSteps5(base, x);
    AbcSteps6(base, x);
    AbcSteps7(base, x);
    AbcSteps8(base, x);
    assert Add(base, Regs(0x310ade8f, 0xc08226b3, 0xe484b9d8, 0x624d8cb2))
        == Regs(0x98500190, 0xb04fd23c, 0x7d3f96d6, 0x727fe128);
  }

  // ----- Letters and digits -----

  predicate IsAlphanumeric1(x: seq<word>) {
    |x| == 16
    && x[0] == 0x44434241 && x[1] == 0x48474645 && x[2] == 0x4c4b4a49 && x[3] == 0x504f4e4d
    && x[4] == 0x54535251 && x[5] == 0x58575655 && x[6] == 0x62615a59 && x[7] == 0x66656463
    && x[8] == 0x6a696867 && x[9] == 0x6e6d6c6b && x[10] == 0x7271706f && x[11] == 0x76757473
    && x[12] == 0x7a797877 && x[13] == 0x33323130 && x[14] == 0x37363534 && x[15] == 0x00803938
  }

  lemma Alphanumeric1Steps1(base: Regs, x: seq<word>)
    requires IsAlphanumeric1(x) && base == Regs(0x67452301, 0xefcdab89, 0x98badcfe, 0x10325476)
    ensures Cascade(base, x, 0, 8) == Regs(0xf22e6c4e, 0xa4799506, 0xa95a2fc0, 0xb4ac9218)
  {
    NoSteps(base, x);
    hide Cascade;
    Next(base, x, 0, 0x67452301, 0xefcdab89, 0x98badcfe, 0x10325476, 0xc6c10796);
    Next(base, x, 1, 0x10325476, 0xc6c10796, 0xefcdab89, 0x98badcfe, 0x99a09999);
    Next(base, x, 2, 0x98badcfe, 0x99a09999, 0xc6c10796, 0xefcdab89, 0x11067980);
    Next(base, x, 3, 0xefcdab89, 0x11067980, 0x99a09999, 0xc6c10796, 0x27bce07a);
    Next(base, x, 4, 0xc6c10796, 0x27bce07a, 0x11067980, 0x99a09999, 0xf22e6c4e);
    Next(base, x, 5, 0x99a09999, 0xf22e6c4e, 0x27bce07a, 0x11067980, 0xb4ac9218);
    Next(base, x, 6, 0x11067980, 0xb4ac9218, 0xf22e6c4e, 0x27bce07a, 0xa95a2fc0);
    Next(base, x, 7, 0x27bce07a, 0xa95a2fc0, 0xb4ac9218, 0xf22e6c4e, 0xa4799506);
  }

  lemma Alphanumeric1Steps2(base: Regs, x: seq<word>)
    requires IsAlphanumeric1(x) && Cascade(base, x, 0, 8) == Regs(0xf22e6c4e, 0xa4799506, 0xa95a2fc0, 0xb4ac9218)
    ensures Cascade(base, x, 0, 16) == Regs(0x3cbdcd45, 0x5d38e690, 0xfa148c8a, 0xb8dec763)
  {
    hide Cascade;
    Next(base, x, 8, 0xf22e6c4e, 0xa4799506, 0xa95a2fc0, 0xb4ac9218, 0x1eb3e7c1);
    Next(base, x, 9, 0xb4ac9218, 0x1eb3e7c1, 0xa4799506, 0xa95a2fc0, 0xa6e70cfe);
    Next(base, x, 10, 0xa95a2fc0, 0xa6e70cfe, 0x1eb3e7c1, 0xa4799506, 0xca27520b);
    Next(base, x, 11, 0xa4799506, 0xca27520b, 0xa6e70cfe, 0x1eb3e7c1, 0x8a7612ec);
    Next(base, x, 12, 0x1eb3e7c1, 0x8a7612ec, 0xca27520b, 0xa6e70cfe, 0x3cbdcd45);
    Next(base, x, 13, 0xa6e70cfe, 0x3cbdcd45, 0x8a7612ec, 0xca27520b, 0xb8dec763);
    Next(base, x, 14, 0xca27520b, 0xb8dec763, 0x3cbdcd45, 0x8a7612ec, 0xfa148c8a);
    Next(base, x, 15, 0x8a7612ec, 0xfa148c8a, 0xb8dec763, 0x3cbdcd45, 0x5d38e690);
  }

  lemma Alphanumeric1Steps3(base: Regs, x: seq<word>)
    requires IsAlphanumeric1(x) && Cascade(base, x, 0, 16) == Regs(0x3cbdcd45, 0x5d38e690, 0xfa148c8a, 0xb8dec763)
    ensures Cascade(base, x, 0, 24) == Regs(0x2d7d8a3f, 0x75292030, 0x4b534dc3, 0xd1210823)
  {
    hide Cascade;
    Next(base, x, 16, 0x3cbdcd45, 0x5d38e690, 0xfa148c8a, 0xb8dec763, 0x04b9d52a);
    Next(base, x, 17, 0xb8dec763, 0x04b9d52a, 0x5d38e690, 0xfa148c8a, 0x783002eb);
    Next(base, x, 18, 0xfa148c8a, 0x783002eb, 0x04b9d52a, 0x5d38e690, 0xd3ee3ed1);
    Next(base, x, 19, 0x5d38e690, 0xd3ee3ed1, 0x783002eb, 0x04b9d52a, 0x47ae7c81);
    Next(base, x, 20, 0x04b9d52a, 0x47ae7c81, 0xd3ee3ed1, 0x783002eb, 0x2d7d8a3f);
    Next(base, x, 21, 0x783002eb, 0x2d7d8a3f, 0x47ae7c81, 0xd3ee3ed1, 0xd1210823);
    Next(base, x, 22, 0xd3ee3ed1, 0xd1210823, 0x2d7d8a3f, 0x47ae7c81, 0x4b534dc3);
    Next(base, x, 23, 0x47ae7c81, 0x4b534dc3, 0xd1210823, 0x2d7d8a3f, 0x75292030);
  }

  lemma Alphanumeric1Steps4(base: Regs, x: seq<word>)
    requires IsAlphanumeric1(x) && Cascade(base, x, 0, 24) == Regs(0x2d7d8a3f, 0x75292030, 0x4b534dc3, 0xd1210823)
    ensures Cascade(base, x, 0, 32) == Regs(0x9b085fa9, 0xdd789ecc, 0x5993248f, 0x4400a9bd)
  {
    hide Cascade;
    Next(base, x, 24, 0x2d7d8a3f, 0x75292030, 0x4b534dc3, 0xd1210823, 0x9d2a6e33);
    Next(base, x, 25, 0xd1210823, 0x9d2a6e33, 0x75292030, 0x4b534dc3, 0x0e8d2e44);
    Next(base, x, 26, 0x4b534dc3, 0x0e8d2e44, 0x9d2a6e33, 0x75292030, 0xd473b564);
    Next(base, x, 27, 0x75292030, 0xd473b564, 0x0e8d2e44, 0x9d2a6e33, 0xf2ff6ea0);
    Next(base, x, 28, 0x9d2a6e33, 0xf2ff6ea0, 0xd473b564, 0x0e8d2e44, 0x9b085fa9);
    Next(base, x, 29, 0x0e8d2e44, 0x9b085fa9, 0xf2ff6ea0, 0xd473b564, 0x4400a9bd);
    Next(base, x, 30, 0xd473b564, 0x4400a9bd, 0x9b085fa9, 0xf2ff6ea0, 0x5993248f);
    Next(base, x, 31, 0xf2ff6ea0, 0x5993248f, 0x4400a9bd, 0x9b085fa9, 0xdd789ecc);
  }

  lemma Alphanumeric1Steps5(base: Regs, x: seq<word>)
    requires IsAlphanumeric1(x) && Cascade(base, x, 0, 32) == Regs(0x9b085fa9, 0xdd789ecc, 0x5993248f, 0x4400a9bd)
    ensures Cascade(base, x, 0, 40) == Regs(0x436b7fe9, 0xcf0341ed, 0xf404c2f6, 0x075800c1)
  {
    hide Cascade;
    Next(base, x, 32, 0x9b085fa9, 0xdd789ecc, 0x5993248f, 0x4400a9bd, 0x21c8d2b7);
    Next(base, x, 33, 0x4400a9bd, 0x21c8d2b7, 0xdd789ecc, 0x5993248f, 0x1d55a18e);
    Next(base, x, 34, 0x5993248f, 0x1d55a18e, 0x21c8d2b7, 0xdd789ecc, 0x056ec119);
    Next(base, x, 35, 0xdd789ecc, 0x056ec119, 0x1d55a18e, 0x21c8d2b7, 0x1b9504f8);
    Next(base, x, 36, 0x21c8d2b7, 0x1b9504f8, 0x056ec119, 0x1d55a18e, 0x436b7fe9);
    Next(base, x, 37, 0x1d55a18e, 0x436b7fe9, 0x1b9504f8, 0x056ec119, 0x075800c1);
    Next(base, x, 38, 0x056ec119, 0x075800c1, 0x436b7fe9, 0x1b9504f8, 0xf404c2f6);
    Next(base, x, 39, 0x1b9504f8, 0xf404c2f6, 0x075800c1, 0x436b7fe9, 0xcf0341ed);
  }

  lemma Alphanumeric1Steps6(base: Regs, x: seq<word>)
    requires IsAlphanumeric1(x) && Cascade(base, x, 0, 40) == Regs(0x436b7fe9, 0xcf0341ed, 0xf404c2f6, 0x075800c1)
    ensures Cascade(base, x, 0, 48) == Regs(0x2dbee21d, 0xf166f514, 0xee46e961, 0xe95c3a43)
  {
    hide Cascade;
    Next(base, x, 40, 0x436b7fe9, 0xcf0341ed, 0xf404c2f6, 0x075800c1, 0x888e7d8a);
    Next(base, x, 41, 0x075800c1, 0x888e7d8a, 0xcf0341ed, 0xf404c2f6, 0xbbdaecd8);
    Next(base, x, 42, 0xf404c2f6, 0xbbdaecd8, 0x888e7d8a, 0xcf0341ed, 0xce620273);
    Next(base, x, 43, 0xcf0341ed, 0xce620273, 0xbbdaecd8, 0x888e7d8a, 0x047b9419);
    Next(base, x, 44, 0x888e7d8a, 0x047b9419, 0xce620273, 0xbbdaecd8, 0x2dbee21d);
    Next(base, x, 45, 0xbbdaecd8, 0x2dbee21d, 0x047b9419, 0xce620273, 0xe95c3a43);
    Next(base, x, 46, 0xce620273, 0xe95c3a43, 0x2dbee21d, 0x047b9419, 0xee46e961);
    Next(base, x, 47, 0x047b9419, 0xee46e961, 0xe95c3a43, 0x2dbee21d, 0xf166f514);
  }

  lemma Alphanumeric1Steps7(base: Regs, x: seq<word>)
    requires IsAlphanumeric1(x) && Cascade(base, x, 0, 48) == Regs(0x2dbee21d, 0xf166f514, 0xee46e961, 0xe95c3a43)
    ensures Cascade(base, x, 0, 56) == Regs(0xa691d430, 0xefb0e72f, 0x3fc23df6, 0x528452f2)
  {
    hide Cascade;
    Next(base, x, 48, 0x2dbee21d, 0xf166f514, 0xee46e961, 0xe95c3a43, 0xe47fd4f3);
    Next(base, x, 49, 0xe95c3a43, 0xe47fd4f3, 0xf166f514, 0xee46e961, 0xfb887751);
    Next(base, x, 50, 0xee46e961, 0xfb887751, 0xe47fd4f3, 0xf166f514, 0xf22aedcc);
    Next(base, x, 51, 0xf166f514, 0xf22aedcc, 0xfb887751, 0xe47fd4f3, 0x7a13bc5c);
    Next(base, x, 52, 0xe47fd4f3, 0x7a13bc5c, 0xf22aedcc, 0xfb887751, 0xa691d430);
    Next(base, x, 53, 0xfb887751, 0xa691d430, 0x7a13bc5c, 0xf22aedcc, 0x528452f2);
    Next(base, x, 54, 0xf22aedcc, 0x528452f2, 0xa691d430, 0x7a13bc5c, 0x3fc23df6);
    Next(base, x, 55, 0x7a13bc5c, 0x3fc23df6, 0x528452f2, 0xa691d430, 0xefb0e72f);
  }

  lemma Alphanumeric1Steps8(base: Regs, x: seq<word>)
    requires IsAlphanumeric1(x) && Cascade(base, x, 0, 56) == Regs(0xa691d430, 0xefb0e72f, 0x3fc23df6, 0x528452f2)
    ensures Cascade(base, x, 0, 64) == Regs(0x1cb80f0a, 0xef2e3a46, 0x10f68731, 0xea3d3eb4)
  {
    hide Cascade;
    Next(base, x, 56, 0xa691d430, 0xefb0e72f, 0x3fc23df6, 0x528452f2, 0x27145703);
    Next(base, x, 57, 0x528452f2, 0x27145703, 0xefb0e72f, 0x3fc23df6, 0x21a11069);
    Next(base, x, 58, 0x3fc23df6, 0x21a11069, 0x27145703, 0xefb0e72f, 0x374fbe79);
    Next(base, x, 59, 0xefb0e72f, 0x374fbe79, 0x21a11069, 0x27145703, 0x49d9a5b4);
    Next(base, x, 60, 0x27145703, 0x49d9a5b4, 0x374fbe79, 0x21a11069, 0x1cb80f0a);
    Next(base, x, 61, 0x21a11069, 0x1cb80f0a, 0x49d9a5b4, 0x374fbe79, 0xea3d3eb4);
    Next(base, x, 62, 0x374fbe79, 0xea3d3eb4, 0x1cb80f0a, 0x49d9a5b4, 0x10f68731);
    Next(base, x, 63, 0x49d9a5b4, 0x10f68731, 0xea3d3eb4, 0x1cb80f0a, 0xef2e3a46);
  }

  lemma Alphanumeric1Block(block: seq<byte>)
    requires |block| == 64 && IsAlphanumeric1(Words(block))
    ensures Compress(Regs(0x67452301, 0xefcdab89, 0x98badcfe, 0x10325476), block)
         == Regs(0x83fd320b, 0xdefbe5cf, 0xa9b1642f, 0xfa6f932a)
  {
    hide IsAlphanumeric1, Cascade, Words;
    var base, x := Regs(0x67452301, 0xefcdab89, 0x98badcfe, 0x10325476), Words(block);
    Alphanumeric1Steps1(base, x);
    Alphanumeric1Steps2(base, x);
    Alphanumeric1Steps3(base, x);
    Alphanumeric1Steps4(base, x);
    Alphanumeric1Steps5(base, x);
    Alphanumeric1Steps6(base, x);
    Alphanumeric1Steps7(base, x);
    Alphanumeric1Steps8(base, x);
    assert Add(base, Regs(0x1cb80f0a, 0xef2e3a46, 0x10f68731, 0xea3d3eb4))
        == Regs(0x83fd320b, 0xdefbe5cf, 0xa9b1642f, 0xfa6f932a);
  }

  predicate IsAlphanumeric2(x: seq<word>) {
    |x| == 16
    && x[0] == 0 && x[1] == 0 && x[2] == 0 && x[3] == 0
    && x[4] == 0 && x[5] == 0 && x[6] == 0 && x[7] == 0
    && x[8] == 0 && x[9] == 0 && x[10] == 0 && x[11] == 0
    && x[12] == 0 && x[13] == 0 && x[14] == 0x000001f0 && x[15] == 0
  }

  lemma Alphanumeric2Steps1(base: Regs, x: seq<word>)
    requires IsAlphanumeric2(x) && base == Regs(0x83fd320b, 0xdefbe5cf, 0xa9b1642f, 0xfa6f932a)
    ensures Cascade(base, x, 0, 8) == Regs(0x75144433, 0x99b6b699, 0xc783cb60, 0xc8875807)
  {
    NoSteps(base, x);
    hide Cascade;
    Next(base, x, 0, 0x83fd320b, 0xdefbe5cf, 0xa9b1642f, 0xfa6f932a, 0xeda23ed1);
    Next(base, x, 1, 0xfa6f932a, 0xeda23ed1, 0xdefbe5cf, 0xa9b1642f, 0x989939cf);
    Next(base, x, 2, 0xa9b1642f, 0x989939cf, 0xeda23ed1, 0xdefbe5cf, 0x3c307338);
    Next(base, x, 3, 0xdefbe5cf, 0x3c307338, 0x989939cf, 0xeda23ed1, 0xddcf0634);
    Next(base, x, 4, 0xeda23ed1, 0xddcf0634, 0x3c307338, 0x989939cf, 0x75144433);
    Next(base, x, 5, 0x989939cf, 0x75144433, 0xddcf0634, 0x3c307338, 0xc8875807);
    Next(base, x, 6, 0x3c307338, 0xc8875807, 0x75144433, 0xddcf0634, 0xc783cb60);
    Next(base, x, 7, 0xddcf0634, 0xc783cb60, 0xc8875807, 0x75144433, 0x99b6b699);
  }

  lemma Alphanumeric2Steps2(base: Regs, x: seq<word>)
    requires IsAlphanumeric2(x) && Cascade(base, x, 0, 8) == Regs(0x75144433, 0x99b6b699, 0xc783cb60, 0xc8875807)
    ensures Cascade(base, x, 0, 16) == Regs(0xa70737da, 0xa36f556f, 0x96f6586e, 0x5473f8a7)
  {
    hide Cascade;
    Next(base, x, 8, 0x75144433, 0x99b6b699, 0xc783cb60, 0xc8875807, 0xa60a3f69);
    Next(base, x, 9, 0xc8875807, 0xa60a3f69, 0x99b6b699, 0xc783cb60, 0xaa6630be);
    Next(base, x, 10, 0xc783cb60, 0xaa6630be, 0xa60a3f69, 0x99b6b699, 0x64db26e9);
    Next(base, x, 11, 0x99b6b699, 0x64db26e9, 0xaa6630be, 0xa60a3f69, 0x64cc7c5a);
    Next(base, x, 12, 0xa60a3f69, 0x64cc7c5a, 0x64db26e9, 0xaa6630be, 0xa70737da);
    Next(base, x, 13, 0xaa6630be, 0xa70737da, 0x64cc7c5a, 0x64db26e9, 0x5473f8a7);
    Next(base, x, 14, 0x64db26e9, 0x5473f8a7, 0xa70737da, 0x64cc7c5a, 0x96f6586e);
    Next(base, x, 15, 0x64cc7c5a, 0x96f6586e, 0x5473f8a7, 0xa70737da, 0xa36f556f);
  }

  lemma Alphanumeric2Steps3(base: Regs, x: seq<word>)
    requires IsAlphanumeric2(x) && Cascade(base, x, 0, 16) == Regs(0xa70737da, 0xa36f556f, 0x96f6586e, 0x5473f8a7)
    ensures Cascade(base, x, 0, 24) == Regs(0xe04f070c, 0xdf35cb56, 0xc0d22b61, 0x2f3cd2a2)
  {
    hide Cascade;
    Next(base, x, 16, 0xa70737da, 0xa36f556f, 0x96f6586e, 0x5473f8a7, 0xa5050ad3);
    Next(base, x, 17, 0x5473f8a7, 0xa5050ad3, 0xa36f556f, 0x96f6586e, 0x28776046);
    Next(base, x, 18, 0x96f6586e, 0x28776046, 0xa5050ad3, 0xa36f556f, 0x27dcd8b4);
    Next(base, x, 19, 0xa36f556f, 0x27dcd8b4, 0x28776046, 0xa5050ad3, 0x82b8827c);
    Next(base, x, 20, 0xa5050ad3, 0x82b8827c, 0x27dcd8b4, 0x28776046, 0xe04f070c);
    Next(base, x, 21, 0x28776046, 0xe04f070c, 0x82b8827c, 0x27dcd8b4, 0x2f3cd2a2);
    Next(base, x, 22, 0x27dcd8b4, 0x2f3cd2a2, 0xe04f070c, 0x82b8827c, 0xc0d22b61);
    Next(base, x, 23, 0x82b8827c, 0xc0d22b61, 0x2f3cd2a2, 0xe04f070c, 0xdf35cb56);
  }

  lemma Alphanumeric2Steps4(base: Regs, x: seq<word>)
    requires IsAlphanumeric2(x) && Cascade(base, x, 0, 24) == Regs(0xe04f070c, 0xdf35cb56, 0xc0d22b61, 0x2f3cd2a2)
    ensures Cascade(base, x, 0, 32) == Regs(0x24eba695, 0x9c03e2e8, 0x10c42a2f, 0x4bd0378b)
  {
    hide Cascade;
    Next(base, x, 24, 0xe04f070c, 0xdf35cb56, 0xc0d22b61, 0x2f3cd2a2, 0x242dd210);
    Next(base, x, 25, 0x2f3cd2a2, 0x242dd210, 0xdf35cb56, 0xc0d22b61, 0x576ace33);
    Next(base, x, 26, 0xc0d22b61, 0x576ace33, 0x242dd210, 0xdf35cb56, 0x5c295967);
    Next(base, x, 27, 0xdf35cb56, 0x5c295967, 0x576ace33, 0x242dd210, 0x2291191a);
    Next(base, x, 28, 0x242dd210, 0x2291191a, 0x5c295967, 0x576ace33, 0x24eba695);
    Next(base, x, 29, 0x576ace33, 0x24eba695, 0x2291191a, 0x5c295967, 0x4bd0378b);
    Next(base, x, 30, 0x5c295967, 0x4bd0378b, 0x24eba695, 0x2291191a, 0x10c42a2f);
    Next(base, x, 31, 0x2291191a, 0x10c42a2f, 0x4bd0378b, 0x24eba695, 0x9c03e2e8);
  }

  lemma Alphanumeric2Steps5(base: Regs, x: seq<word>)
    requires IsAlphanumeric2(x) && Cascade(base, x, 0, 32) == Regs(0x24eba695, 0x9c03e2e8, 0x10c42a2f, 0x4bd0378b)
    ensures Cascade(base, x, 0, 40) == Regs(0xe14e403d, 0xfe314121, 0x60cc183a, 0xe8cfd670)
  {
    hide Cascade;
    Next(base, x, 32, 0x24eba695, 0x9c03e2e8, 0x10c42a2f, 0x4bd0378b, 0x5be1d526);
    Next(base, x, 33, 0x4bd0378b, 0x5be1d526, 0x9c03e2e8, 0x10c42a2f, 0x9e414279);
    Next(base, x, 34, 0x10c42a2f, 0x9e414279, 0x5be1d526, 0x9c03e2e8, 0x9f4a1a7e);
    Next(base, x, 35, 0x9c03e2e8, 0x9f4a1a7e, 0x9e414279, 0x5be1d526, 0xa2448453);
    Next(base, x, 36, 0x5be1d526, 0xa2448453, 0x9f4a1a7e, 0x9e414279, 0xe14e403d);
    Next(base, x, 37, 0x9e414279, 0xe14e403d, 0xa2448453, 0x9f4a1a7e, 0xe8cfd670);
    Next(base, x, 38, 0x9f4a1a7e, 0xe8cfd670, 0xe14e403d, 0xa2448453, 0x60cc183a);
    Next(base, x, 39, 0xa2448453, 0x60cc183a, 0xe8cfd670, 0xe14e403d, 0xfe314121);
  }

  lemma Alphanumeric2Steps6(base: Regs, x: seq<word>)
    requires IsAlphanumeric2(x) && Cascade(base, x, 0, 40) == Regs(0xe14e403d, 0xfe314121, 0x60cc183a, 0xe8cfd670)
    ensures Cascade(base, x, 0, 48) == Regs(0x54c9eb3a, 0x79c0710a, 0x2ec86f72, 0xd4d9c6ac)
  {
    hide Cascade;
    Next(base, x, 40, 0xe14e403d, 0xfe314121, 0x60cc183a, 0xe8cfd670, 0xfff62809);
    Next(base, x, 41, 0xe8cfd670, 0xfff62809, 0xfe314121, 0x60cc183a, 0xe37209ac);
    Next(base, x, 42, 0x60cc183a, 0xe37209ac, 0xfff62809, 0xfe314121, 0x8cb5221c);
    Next(base, x, 43, 0xfe314121, 0x8cb5221c, 0xe37209ac, 0xfff62809, 0x7c7e974c);
    Next(base, x, 44, 0xfff62809, 0x7c7e974c, 0x8cb5221c, 0xe37209ac, 0x54c9eb3a);
    Next(base, x, 45, 0xe37209ac, 0x54c9eb3a, 0x7c7e974c, 0x8cb5221c, 0xd4d9c6ac);
    Next(base, x, 46, 0x8cb5221c, 0xd4d9c6ac, 0x54c9eb3a, 0x7c7e974c, 0x2ec86f72);
    Next(base, x, 47, 0x7c7e974c, 0x2ec86f72, 0xd4d9c6ac, 0x54c9eb3a, 0x79c0710a);
  }

  lemma Alphanumeric2Steps7(base: Regs, x: seq<word>)
    requires IsAlphanumeric2(x) && Cascade(base, x, 0, 48) == Regs(0x54c9eb3a, 0x79c0710a, 0x2ec86f72, 0xd4d9c6ac)
    ensures Cascade(base, x, 0, 56) == Regs(0xe126c1aa, 0xfb7bcee0, 0x6f287ff5, 0x96b00fa7)
  {
    hide Cascade;
    Next(base, x, 48, 0x54c9eb3a, 0x79c0710a, 0x2ec86f72, 0xd4d9c6ac, 0x02095af1);
    Next(base, x, 49, 0xd4d9c6ac, 0x02095af1, 0x79c0710a, 0x2ec86f72, 0x13d245fd);
    Next(base, x, 50, 0x2ec86f72, 0x13d245fd, 0x02095af1, 0x79c0710a, 0xa8dcfe26);
    Next(base, x, 51, 0x79c0710a, 0xa8dcfe26, 0x13d245fd, 0x02095af1, 0x2ba98e3f);
    Next(base, x, 52, 0x02095af1, 0x2ba98e3f, 0xa8dcfe26, 0x13d245fd, 0xe126c1aa);
    Next(base, x, 53, 0x13d245fd, 0xe126c1aa, 0x2ba98e3f, 0xa8dcfe26, 0x96b00fa7);
    Next(base, x, 54, 0xa8dcfe26, 0x96b00fa7, 0xe126c1aa, 0x2ba98e3f, 0x6f287ff5);
    Next(base, x, 55, 0x2ba98e3f, 0x6f287ff5, 0x96b00fa7, 0xe126c1aa, 0xfb7bcee0);
  }

  lemma Alphanumeric2Steps8(base: Regs, x: seq<word>)
    requires IsAlphanumeric2(x) && Cascade(base, x, 0, 56) == Regs(0xe126c1aa, 0xfb7bcee0, 0x6f287ff5, 0x96b00fa7)
    ensures Cascade(base, x, 0, 64) == Regs(0x14ae42c6, 0x16dd9203, 0x826afd76, 0xa52dae75)
  {
    hide Cascade;
    Next(base, x, 56, 0xe126c1aa, 0xfb7bcee0, 0x6f287ff5, 0x96b00fa7, 0x452c1099);
    Next(base, x, 57, 0x96b00fa7, 0x452c1099, 0xfb7bcee0, 0x6f287ff5, 0xca801ba6);
    Next(base, x, 58, 0x6f287ff5, 0xca801ba6, 0x452c1099, 0xfb7bcee0, 0xc197ea8e);
    Next(base, x, 59, 0xfb7bcee0, 0xc197ea8e, 0xca801ba6, 0x452c1099, 0x5ac74608);
    Next(base, x, 60, 0x452c1099, 0x5ac74608, 0xc197ea8e, 0xca801ba6, 0x14ae42c6);
    Next(base, x, 61, 0xca801ba6, 0x14ae42c6, 0x5ac74608, 0xc197ea8e, 0xa52dae75);
    Next(base, x, 62, 0xc197ea8e, 0xa52dae75, 0x14ae42c6, 0x5ac74608, 0x826afd76);
    Next(base, x, 63, 0x5ac74608, 0x826afd76, 0xa52dae75, 0x14ae42c6, 0x16dd9203);
  }

  lemma Alphanumeric2Block(block: seq<byte>)
    requires |block| == 64 && IsAlphanumeric2(Words(block))
    ensures Compress(Regs(0x83fd320b, 0xdefbe5cf, 0xa9b1642f, 0xfa6f932a), block)
         == Regs(0x98ab74d1, 0xf5d977d2, 0x2c1c61a5, 0x9f9d419f)
  {
    hide IsAlphanumeric2, Cascade, Words;
    var base, x := Regs(0x83fd320b, 0xdefbe5cf, 0xa9b1642f, 0xfa6f932a), Words(block);
    Alphanumeric2Steps1(base, x);
    Alphanumeric2Steps2(base, x);
    Alphanumeric2Steps3(base, x);
    Alphanumeric2Steps4(base, x);
    Alphanumeric2Steps5(base, x);
    Alphanumeric2Steps6(base, x);
    Alphanumeric2Steps7(base, x);
    Alphanumeric2Steps8(base, x);
    assert Add(base, Regs(0x14ae42c6, 0x16dd9203, 0x826afd76, 0xa52dae75))
        == Regs(0x98ab74d1, 0xf5d977d2, 0x2c1c61a5, 0x9f9d419f);
  }

  // ----- The digests -----

  /** The length of a short message in bits, as eight bytes. */
  lemma ShortLength(n: nat)
    requires 8 * n < 0x1_0000_0000
    ensures LengthWords(n) == [AsWord(8 * n), AsWord(0)]
  {
    hide AsWord;
  }

  lemma WordsAsBytes(a: word, b: word, c: word, d: word)
    ensures EncodeWords([a, b]) == EncodeWord(a) + EncodeWord(b)
    ensures EncodeWords([a, b, c, d]) == EncodeWord(a) + EncodeWord(b) + EncodeWord(c) + EncodeWord(d)
  {
    hide EncodeWord;
    assert [a, b, c, d][..3] == [a, b, c] && [a, b, c][..2] == [a, b] && [a, b][..1] == [a] && [a][..0] == [];
  }

  lemma LengthBytes(n: nat, bits: word, s: seq<byte>)
    requires 8 * n < 0x1_0000_0000 && AsWord(8 * n) == bits && EncodeWord(bits) == s
    ensures EncodeWords(LengthWords(n)) == s + [0, 0, 0, 0]
  {
    hide EncodeWord, AsWord, LengthWords, EncodeWords;
    ShortLength(n);
    NoBits();
    WordsAsBytes(bits, 0, 0, 0);
  }

  lemma NoBits()
    ensures AsWord(0) == 0 && EncodeWord(0) == [0, 0, 0, 0]
  {
  }

  lemma OneBlock(block: seq<byte>)
    requires |block| == 64
    ensures Absorb(block) == Compress(INITIAL, block)
  {
    hide Compress;
    assert block[..0] == [] && block[0..] == block;
  }

  lemma TwoBlocks(blocks: seq<byte>)
    requires |blocks| == 128
    ensures Absorb(blocks) == Compress(Compress(INITIAL, blocks[..64]), blocks[64..])
  {
    hide Compress;
    OneBlock(blocks[..64]);
  }

  lemma PaddingShort(n: nat)
    requires n <= 55
    ensures Padding(n) == [0x80] + Zeros(55 - n)
  {
  }

  lemma PaddedShort(m: seq<byte>, bits: word, s: seq<byte>)
    requires |m| <= 55 && AsWord(8 * |m|) == bits && EncodeWord(bits) == s
    ensures Padded(m) == m + ([0x80] + Zeros(55 - |m|) + (s + [0, 0, 0, 0]))
  {
    hide LengthWords, EncodeWords, EncodeWord, AsWord, Padding, Zeros;
    LengthBytes(|m|, bits, s);
    PaddingShort(|m|);
  }

  lemma EmptyIs(block: seq<byte>)
    requires block == [] + ([0x80] + Zeros(55) + ([0, 0, 0, 0] + [0, 0, 0, 0]))
    ensures |block| == 64 && IsEmpty(Words(block))
  {
    assert forall i :: 0 <= i < 64 ==> block[i] == if i == 0 then 0x80 else 0;
  }

  /** The empty message. */
  lemma DigestOfEmpty()
    ensures Digest([])
      == [0xd4, 0x1d, 0x8c, 0xd9, 0x8f, 0, 0xb2, 0x04,
         0xe9, 0x80, 0x09, 0x98, 0xec, 0xf8, 0x42, 0x7e]
  {
    hide Compress, Absorb, EncodeWords, IsEmpty, Words, Padded;
    var block := Padded([]);
    PaddedShort([], 0, [0, 0, 0, 0]);
    EmptyIs(block);
    EmptyBlock(block);
    OneBlock(block);
    WordsAsBytes(0xd98c1dd4, 0x04b2008f, 0x980980e9, 0x7e42f8ec);
    assert EncodeWord(0xd98c1dd4) == [0xd4, 0x1d, 0x8c, 0xd9];
    assert EncodeWord(0x04b2008f) == [0x8f, 0, 0xb2, 0x04];
    assert EncodeWord(0x980980e9) == [0xe9, 0x80, 0x09, 0x98];
    assert EncodeWord(0x7e42f8ec) == [0xec, 0xf8, 0x42, 0x7e];
  }

  lemma AbcIs(block: seq<byte>)
    requires block == [0x61, 0x62, 0x63] + ([0x80] + Zeros(52) + ([0x18, 0, 0, 0] + [0, 0, 0, 0]))
    ensures |block| == 64 && IsAbc(Words(block))
  {
    assert block[0] == 0x61 && block[1] == 0x62 && block[2] == 0x63 && block[3] == 0x80 && block[56] == 0x18;
    assert forall i :: 4 <= i < 64 && i != 56 ==> block[i] == 0;
  }

  /** The three letters "abc". */
  lemma DigestOfAbc()
    ensures Digest([0x61, 0x62, 0x63])
      == [0x90, 0x01, 0x50, 0x98, 0x3c, 0xd2, 0x4f, 0xb0,
         0xd6, 0x96, 0x3f, 0x7d, 0x28, 0xe1, 0x7f, 0x72]
  {
    hide Compress, Absorb, EncodeWords, IsAbc, Words, Padded;
    var block := Padded([0x61, 0x62, 0x63]);
    PaddedShort([0x61, 0x62, 0x63], 0x18, [0x18, 0, 0, 0]);
    AbcIs(block);
    AbcBlock(block);
    OneBlock(block);
    WordsAsBytes(0x98500190, 0xb04fd23c, 0x7d3f96d6, 0x727fe128);
    assert EncodeWord(0x98500190) == [0x90, 0x01, 0x50, 0x98];
    assert EncodeWord(0xb04fd23c) == [0x3c, 0xd2, 0x4f, 0xb0];
    assert EncodeWord(0x7d3f96d6) == [0xd6, 0x96, 0x3f, 0x7d];
    assert EncodeWord(0x727fe128) == [0x28, 0xe1, 0x7f, 0x72];
  }

  /** Consecutive characters. */
  function Row(first: byte, n: nat): (s: seq<byte>)
    requires n <= 26
    ensures |s| == n
  {
    seq(n, i requires 0 <= i < n => first + i as byte)
  }

  /** Letters from A to Z and from a to z, and digits from 0 to 9. */
  function Alphanumeric(): (s: seq<byte>)
    ensures |s| == 62
  {
    Row(0x41, 26) + Row(0x61, 26) + Row(0x30, 10)
  }

  /** The word at `j`, from its four bytes. */
  lemma WordOf(block: seq<byte>, j: nat, b0: byte, b1: byte, b2: byte, b3: byte, w: word)
    requires 4 * j + 4 <= |block|
    requires block[4 * j] == b0 && block[4 * j + 1] == b1 && block[4 * j + 2] == b2 && block[4 * j + 3] == b3
    requires b0 as word | (b1 as word << 8) | (b2 as word << 16) | (b3 as word << 24) == w
    ensures Word(block, j) == w
  {
  }

  lemma FirstBlock0(block: seq<byte>)
    requires block == Alphanumeric() + [0x80, 0]
    ensures Word(block, 0) == 0x44434241 && Word(block, 1) == 0x48474645
  {
    hide Word;
    WordOf(block, 0, 0x41, 0x42, 0x43, 0x44, 0x44434241);
    WordOf(block, 1, 0x45, 0x46, 0x47, 0x48, 0x48474645);
  }

  lemma FirstBlock1(block: seq<byte>)
    requires block == Alphanumeric() + [0x80, 0]
    ensures Word(block, 2) == 0x4c4b4a49 && Word(block, 3) == 0x504f4e4d
  {
    hide Word;
    WordOf(block, 2, 0x49, 0x4a, 0x4b, 0x4c, 0x4c4b4a49);
    WordOf(block, 3, 0x4d, 0x4e, 0x4f, 0x50, 0x504f4e4d);
  }

  lemma FirstBlock2(block: seq<byte>)
    requires block == Alphanumeric() + [0x80, 0]
    ensures
      && Word(block, 4) == 0x54535251
      && Word(block, 5) == 0x58575655
      && Word(block, 6) == 0x62615a59
      && Word(block, 7) == 0x66656463
  {
    hide Word;
    WordOf(block, 4, 0x51, 0x52, 0x53, 0x54, 0x54535251);
    WordOf(block, 5, 0x55, 0x56, 0x57, 0x58, 0x58575655);
    WordOf(block, 6, 0x59, 0x5a, 0x61, 0x62, 0x62615a59);
    WordOf(block, 7, 0x63, 0x64, 0x65, 0x66, 0x66656463);
  }

  lemma FirstBlock3(block: seq<byte>)
    requires block == Alphanumeric() + [0x80, 0]
    ensures
      && Word(block, 8) == 0x6a696867
      && Word(block, 9) == 0x6e6d6c6b
      && Word(block, 10) == 0x7271706f
      && Word(block, 11) == 0x76757473
  {
    hide Word;
    WordOf(block, 8, 0x67, 0x68, 0x69, 0x6a, 0x6a696867);
    WordOf(block, 9, 0x6b, 0x6c, 0x6d, 0x6e, 0x6e6d6c6b);
    WordOf(block, 10, 0x6f, 0x70, 0x71, 0x72, 0x7271706f);
    WordOf(block, 11, 0x73, 0x74, 0x75, 0x76, 0x76757473);
  }

  lemma FirstBlock4(block: seq<byte>)
    requires block == Alphanumeric() + [0x80, 0]
    ensures
      && Word(block, 12) == 0x7a797877
      && Word(block, 13) == 0x33323130
      && Word(block, 14) == 0x37363534
      && Word(block, 15) == 0x00803938
  {
    hide Word;
    WordOf(block, 12, 0x77, 0x78, 0x79, 0x7a, 0x7a797877);
    WordOf(block, 13, 0x30, 0x31, 0x32, 0x33, 0x33323130);
    WordOf(block, 14, 0x34, 0x35, 0x36, 0x37, 0x37363534);
    WordOf(block, 15, 0x38, 0x39, 0x80, 0, 0x00803938);
  }

  lemma FirstBlock(block: seq<byte>)
    requires block == Alphanumeric() + [0x80, 0]
    ensures |block| == 64 && IsAlphanumeric1(Words(block))
  {
    FirstBlock0(block);
    FirstBlock1(block);
    FirstBlock2(block);
    FirstBlock3(block);
    FirstBlock4(block);
    hide Word, Alphanumeric;
  }

  lemma LastBlock(block: seq<byte>)
    requires block == Zeros(56) + [0xf0, 1, 0, 0, 0, 0, 0, 0]
    ensures |block| == 64 && IsAlphanumeric2(Words(block))
  {
    assert forall i :: 0 <= i < 56 ==> block[i] == 0;
  }

  lemma InParts(m: seq<byte>, p: seq<byte>, q: seq<byte>, s: seq<byte>, t: seq<byte>)
    ensures m + (p + q) + (s + t) == (m + p) + (q + (s + t))
  {
  }

  lemma Halves(a: seq<byte>, b: seq<byte>)
    ensures (a + b)[..|a|] == a && (a + b)[|a|..] == b
  {
  }

  lemma PaddedAlphanumeric(blocks: seq<byte>)
    requires blocks == Padded(Alphanumeric())
    ensures |blocks| == 128
    ensures blocks[..64] == Alphanumeric() + [0x80, 0] && blocks[64..] == Zeros(56) + [0xf0, 1, 0, 0, 0, 0, 0, 0]
  {
    hide LengthWords, EncodeWords, Alphanumeric, Padding, Zeros, Padded;
    LengthBytes(62, 0x1f0, [0xf0, 1, 0, 0]);
    PaddingOf62();
    PaddedParts(Alphanumeric());
    var a: seq<byte>, b: seq<byte> := Alphanumeric() + [0x80, 0], Zeros(56) + [0xf0, 1, 0, 0, 0, 0, 0, 0];
    InParts(Alphanumeric(), [0x80, 0], Zeros(56), [0xf0, 1, 0, 0], [0, 0, 0, 0]);
    assert [0xf0, 1, 0, 0] + [0, 0, 0, 0] == [0xf0, 1, 0, 0, 0, 0, 0, 0];
    Halves(a, b);
  }

  lemma PaddingOf62()
    ensures Padding(62) == [0x80, 0] + Zeros(56)
  {
  }

  /** The 62 letters and digits, which take two blocks. */
  lemma DigestOfAlphanumeric()
    ensures Digest(Alphanumeric())
      == [0xd1, 0x74, 0xab, 0x98, 0xd2, 0x77, 0xd9, 0xf5,
         0xa5, 0x61, 0x1c, 0x2c, 0x9f, 0x41, 0x9d, 0x9f]
  {
    hide Compress, Absorb, EncodeWords, IsAlphanumeric1, IsAlphanumeric2, Words, Padded, Alphanumeric;
    var blocks := Padded(Alphanumeric());
    PaddedAlphanumeric(blocks);
    FirstBlock(blocks[..64]);
    Alphanumeric1Block(blocks[..64]);
    LastBlock(blocks[64..]);
    Alphanumeric2Block(blocks[64..]);
    TwoBlocks(blocks);
    WordsAsBytes(0x98ab74d1, 0xf5d977d2, 0x2c1c61a5, 0x9f9d419f);
    assert EncodeWord(0x98ab74d1) == [0xd1, 0x74, 0xab, 0x98];
    assert EncodeWord(0xf5d977d2) == [0xd2, 0x77, 0xd9, 0xf5];
    assert EncodeWord(0x2c1c61a5) == [0xa5, 0x61, 0x1c, 0x2c];
    assert EncodeWord(0x9f9d419f) == [0x9f, 0x41, 0x9d, 0x9f];
  }
}
