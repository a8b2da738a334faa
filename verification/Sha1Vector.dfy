/**
  A known answer: the digest of the empty message is the one src/Util_TEST.cc expects. The words of its
  one block and the values of the working variables are followed round by round.
*/
module Sha1Vector {
  import opened Sha1

  // ----- the message schedule -----

  lemma {:induction false} WordsGrow(block: seq<bv8>, t: nat, n: nat)
    requires |block| == 64 && t < n
    ensures Words(block, n)[t] == NextWord(block, Words(block, t)) && Words(block, n)[..t] == Words(block, t)
  {
    if t + 1 < n {
      WordsGrow(block, t, n - 1);
    }
  }

  predicate Follows(w: seq<bv32>, t: nat)
    requires |w| == 80 && 16 <= t < 80
  {
    w[t] == Rotl1(Xor(w[t - 3], w[t - 8], w[t - 14], w[t - 16]))
  }

  ghost predicate IsSchedule(w: seq<bv32>) {
    && |w| == 80 && w[0] == 0x80000000 && (forall t :: 0 < t < 16 ==> w[t] == 0)
    && (forall t :: 16 <= t < 80 ==> Follows(w, t))
  }

  /** The block 0x80, 0, 0, ... */
  lemma ScheduleOfBlock(block: seq<bv8>)
    requires |block| == 64 && block[0] == 0x80 && forall i :: 0 < i < 64 ==> block[i] == 0
    ensures IsSchedule(Words(block, 80))
  {
    var w := Words(block, 80);
    forall t: nat | t < 80
      ensures w[t] == NextWord(block, w[..t])
    {
      WordsGrow(block, t, 80);
    }
    hide Words;
    JoinedBytes();
    forall t | 16 <= t < 80
      ensures Follows(w, t)
    {
      assert w[t] == NextWord(block, w[..t]);
    }
  }

  lemma JoinedBytes()
    ensures Join(0x80, 0, 0, 0) == 0x80000000 && Join(0, 0, 0, 0) == 0
  {
  }

  predicate WordsTo32(w: seq<bv32>)
    requires |w| == 80
  {
    && w[16] == 0x1 && w[17] == 0x0 && w[18] == 0x0 && w[19] == 0x2 && w[20] == 0x0 && w[21] == 0x0
    && w[22] == 0x4 && w[23] == 0x0 && w[24] == 0x2 && w[25] == 0x8 && w[26] == 0x0 && w[27] == 0x0
    && w[28] == 0x10 && w[29] == 0x0 && w[30] == 0xa && w[31] == 0x20
  }

  predicate WordsTo48(w: seq<bv32>)
    requires |w| == 80
  {
    && w[32] == 0x6 && w[33] == 0x0 && w[34] == 0x40 && w[35] == 0x8 && w[36] == 0x28 && w[37] == 0x80
    && w[38] == 0x8 && w[39] == 0x0 && w[40] == 0x108 && w[41] == 0x0 && w[42] == 0xa0 && w[43] == 0x200
    && w[44] == 0x64 && w[45] == 0x0 && w[46] == 0x408 && w[47] == 0x88
  }

  predicate WordsTo64(w: seq<bv32>)
    requires |w| == 80
  {
    && w[48] == 0x29c && w[49] == 0x800 && w[50] == 0x80 && w[51] == 0x28 && w[52] == 0x1088 && w[53] == 0x0
    && w[54] == 0xa40 && w[55] == 0x2000 && w[56] == 0x668 && w[57] == 0x80 && w[58] == 0x4088 && w[59] == 0x880
    && w[60] == 0x28c8 && w[61] == 0x8000 && w[62] == 0x8a8 && w[63] == 0x80
  }

  predicate WordsTo80(w: seq<bv32>)
    requires |w| == 80
  {
    && w[64] == 0x108e8 && w[65] == 0x0 && w[66] == 0xa000 && w[67] == 0x20080 && w[68] == 0x6400 && w[69] == 0x0
    && w[70] == 0x40800 && w[71] == 0x8800 && w[72] == 0x29c10 && w[73] == 0x80000 && w[74] == 0x8080 && w[75] == 0x2820
    && w[76] == 0x1088c0 && w[77] == 0x0 && w[78] == 0xa40c0 && w[79] == 0x200080
  }

  lemma HasWordsTo32(w: seq<bv32>)
    requires IsSchedule(w)
    ensures WordsTo32(w)
  {
    assert Follows(w, 16) && Follows(w, 17) && Follows(w, 18) && Follows(w, 19);
    assert Follows(w, 20) && Follows(w, 21) && Follows(w, 22) && Follows(w, 23);
    assert Follows(w, 24) && Follows(w, 25) && Follows(w, 26) && Follows(w, 27);
    assert Follows(w, 28) && Follows(w, 29) && Follows(w, 30) && Follows(w, 31);
  }

  lemma HasWordsTo48(w: seq<bv32>)
    requires IsSchedule(w) && WordsTo32(w)
    ensures WordsTo48(w)
  {
    assert Follows(w, 32) && Follows(w, 33) && Follows(w, 34) && Follows(w, 35);
    assert Follows(w, 36) && Follows(w, 37) && Follows(w, 38) && Follows(w, 39);
    assert Follows(w, 40) && Follows(w, 41) && Follows(w, 42) && Follows(w, 43);
    assert Follows(w, 44) && Follows(w, 45) && Follows(w, 46) && Follows(w, 47);
  }

  lemma HasWordsTo64(w: seq<bv32>)
    requires IsSchedule(w) && WordsTo48(w)
    ensures WordsTo64(w)
  {
    assert Follows(w, 48) && Follows(w, 49) && Follows(w, 50) && Follows(w, 51);
    assert Follows(w, 52) && Follows(w, 53) && Follows(w, 54) && Follows(w, 55);
    assert Follows(w, 56) && Follows(w, 57) && Follows(w, 58) && Follows(w, 59);
    assert Follows(w, 60) && Follows(w, 61) && Follows(w, 62) && Follows(w, 63);
  }

  lemma HasWordsTo80(w: seq<bv32>)
    requires IsSchedule(w) && WordsTo64(w)
    ensures WordsTo80(w)
  {
    assert Follows(w, 64) && Follows(w, 65) && Follows(w, 66) && Follows(w, 67);
    assert Follows(w, 68) && Follows(w, 69) && Follows(w, 70) && Follows(w, 71);
    assert Follows(w, 72) && Follows(w, 73) && Follows(w, 74) && Follows(w, 75);
    assert Follows(w, 76) && Follows(w, 77) && Follows(w, 78) && Follows(w, 79);
  }

  // ----- the rounds -----

  lemma OneRound(w: seq<bv32>, t: nat, h: Hash)
    requires |w| == 80 && t < 80 && Rounds(w, INITIAL, t) == h
    ensures Rounds(w, INITIAL, t + 1) == Round(t, h, w[t])
  {
  }

  lemma RoundsTo10(w: seq<bv32>)
    requires IsSchedule(w)
    ensures Rounds(w, INITIAL, 10) == (0xcbdbff31, 0x41376611, 0x21c1d200, 0xf0275fc9, 0xb912add9)
  {
    OneRound(w, 0, INITIAL);
    OneRound(w, 1, (0x1fb498b3, 0x67452301, 0x7bf36ae2, 0x98badcfe, 0x10325476));
    OneRound(w, 2, (0x5d43e370, 0x1fb498b3, 0x59d148c0, 0x7bf36ae2, 0x98badcfe));
    OneRound(w, 3, (0x158d2f62, 0x5d43e370, 0xc7ed262c, 0x59d148c0, 0x7bf36ae2));
    OneRound(w, 4, (0xcdecfb5d, 0x158d2f62, 0x1750f8dc, 0xc7ed262c, 0x59d148c0));
    OneRound(w, 5, (0x4953565e, 0xcdecfb5d, 0x85634bd8, 0x1750f8dc, 0xc7ed262c));
    OneRound(w, 6, (0xe44ab766, 0x4953565e, 0x737b3ed7, 0x85634bd8, 0x1750f8dc));
    OneRound(w, 7, (0xc09d7f27, 0xe44ab766, 0x9254d597, 0x737b3ed7, 0x85634bd8));
    OneRound(w, 8, (0x87074800, 0xc09d7f27, 0xb912add9, 0x9254d597, 0x737b3ed7));
    OneRound(w, 9, (0x41376611, 0x87074800, 0xf0275fc9, 0xb912add9, 0x9254d597));
  }

  lemma RoundsTo20(w: seq<bv32>)
    requires IsSchedule(w) && WordsTo32(w)
    requires Rounds(w, INITIAL, 10) == (0xcbdbff31, 0x41376611, 0x21c1d200, 0xf0275fc9, 0xb912add9)
    ensures Rounds(w, INITIAL, 20) == (0xe758e8da, 0x0b3088dd, 0x8a2a5483, 0xc1afe45c, 0xf63f5951)
  {
    hide Rounds;
    OneRound(w, 10, (0xcbdbff31, 0x41376611, 0x21c1d200, 0xf0275fc9, 0xb912add9));
    OneRound(w, 11, (0x40166973, 0xcbdbff31, 0x504dd984, 0x21c1d200, 0xf0275fc9));
    OneRound(w, 12, (0xadc0e0ca, 0x40166973, 0x72f6ffcc, 0x504dd984, 0x21c1d200));
    OneRound(w, 13, (0x84c05eb2, 0xadc0e0ca, 0xd0059a5c, 0x72f6ffcc, 0x504dd984));
    OneRound(w, 14, (0x1512c8b9, 0x84c05eb2, 0xab703832, 0xd0059a5c, 0x72f6ffcc));
    OneRound(w, 15, (0x40182905, 0x1512c8b9, 0xa13017ac, 0xab703832, 0xd0059a5c));
    OneRound(w, 16, (0xd8fd6547, 0x40182905, 0x4544b22e, 0xa13017ac, 0xab703832));
    OneRound(w, 17, (0x06bf9173, 0xd8fd6547, 0x50060a41, 0x4544b22e, 0xa13017ac));
    OneRound(w, 18, (0x28a9520e, 0x06bf9173, 0xf63f5951, 0x50060a41, 0x4544b22e));
    OneRound(w, 19, (0x0b3088dd, 0x28a9520e, 0xc1afe45c, 0xf63f5951, 0x50060a41));
  }

  lemma RoundsTo30(w: seq<bv32>)
    requires IsSchedule(w) && WordsTo32(w)
    requires Rounds(w, INITIAL, 20) == (0xe758e8da, 0x0b3088dd, 0x8a2a5483, 0xc1afe45c, 0xf63f5951)
    ensures Rounds(w, INITIAL, 30) == (0xca4556cb, 0x874b786f, 0x71ec478b, 0x53cbb470, 0x0d3cf5b6)
  {
    hide Rounds;
    OneRound(w, 20, (0xe758e8da, 0x0b3088dd, 0x8a2a5483, 0xc1afe45c, 0xf63f5951));
    OneRound(w, 21, (0x90eb9850, 0xe758e8da, 0x42cc2237, 0x8a2a5483, 0xc1afe45c));
    OneRound(w, 22, (0x7dbb787d, 0x90eb9850, 0xb9d63a36, 0x42cc2237, 0x8a2a5483));
    OneRound(w, 23, (0x1c64d028, 0x7dbb787d, 0x243ae614, 0xb9d63a36, 0x42cc2237));
    OneRound(w, 24, (0x1e97b73a, 0x1c64d028, 0x5f6ede1f, 0x243ae614, 0xb9d63a36));
    OneRound(w, 25, (0x62d7f53f, 0x1e97b73a, 0x0719340a, 0x5f6ede1f, 0x243ae614));
    OneRound(w, 26, (0x34f3d6d8, 0x62d7f53f, 0x87a5edce, 0x0719340a, 0x5f6ede1f));
    OneRound(w, 27, (0x4f2ed1c1, 0x34f3d6d8, 0xd8b5fd4f, 0x87a5edce, 0x0719340a));
    OneRound(w, 28, (0xc7b11e2d, 0x4f2ed1c1, 0x0d3cf5b6, 0xd8b5fd4f, 0x87a5edce));
    OneRound(w, 29, (0x874b786f, 0xc7b11e2d, 0x53cbb470, 0x0d3cf5b6, 0xd8b5fd4f));
  }

  lemma RoundsTo40(w: seq<bv32>)
    requires IsSchedule(w) && WordsTo32(w) && WordsTo48(w)
    requires Rounds(w, INITIAL, 30) == (0xca4556cb, 0x874b786f, 0x71ec478b, 0x53cbb470, 0x0d3cf5b6)
    ensures Rounds(w, INITIAL, 40) == (0x9bdbdd71, 0x62273351, 0xec805e22, 0x413c1d9a, 0x2aeeae62)
  {
    hide Rounds;
    OneRound(w, 30, (0xca4556cb, 0x874b786f, 0x71ec478b, 0x53cbb470, 0x0d3cf5b6));
    OneRound(w, 31, (0x6a2e466e, 0xca4556cb, 0xe1d2de1b, 0x71ec478b, 0x53cbb470));
    OneRound(w, 32, (0x62ea3d59, 0x6a2e466e, 0xf29155b2, 0xe1d2de1b, 0x71ec478b));
    OneRound(w, 33, (0xb77bac25, 0x62ea3d59, 0x9a8b919b, 0xf29155b2, 0xe1d2de1b));
    OneRound(w, 34, (0x4b1347e2, 0xb77bac25, 0x58ba8f56, 0x9a8b919b, 0xf29155b2));
    OneRound(w, 35, (0x391ef0c4, 0x4b1347e2, 0x6ddeeb09, 0x58ba8f56, 0x9a8b919b));
    OneRound(w, 36, (0xabbab988, 0x391ef0c4, 0x92c4d1f8, 0x6ddeeb09, 0x58ba8f56));
    OneRound(w, 37, (0x04f07669, 0xabbab988, 0x0e47bc31, 0x92c4d1f8, 0x6ddeeb09));
    OneRound(w, 38, (0xb201788b, 0x04f07669, 0x2aeeae62, 0x0e47bc31, 0x92c4d1f8));
    OneRound(w, 39, (0x62273351, 0xb201788b, 0x413c1d9a, 0x2aeeae62, 0x0e47bc31));
  }

  lemma RoundsTo50(w: seq<bv32>)
    requires IsSchedule(w) && WordsTo48(w) && WordsTo64(w)
    requires Rounds(w, INITIAL, 40) == (0x9bdbdd71, 0x62273351, 0xec805e22, 0x413c1d9a, 0x2aeeae62)
    ensures Rounds(w, INITIAL, 50) == (0x6ae826ff, 0x0bca9922, 0xf9b4e7d0, 0x28656ea4, 0xebf9a56a)
  {
    hide Rounds;
    OneRound(w, 40, (0x9bdbdd71, 0x62273351, 0xec805e22, 0x413c1d9a, 0x2aeeae62));
    OneRound(w, 41, (0x95aa398b, 0x9bdbdd71, 0x5889ccd4, 0xec805e22, 0x413c1d9a));
    OneRound(w, 42, (0x5e28e858, 0x95aa398b, 0x66f6f75c, 0x5889ccd4, 0xec805e22));
    OneRound(w, 43, (0x95642485, 0x5e28e858, 0xe56a8e62, 0x66f6f75c, 0x5889ccd4));
    OneRound(w, 44, (0xfa950aba, 0x95642485, 0x178a3a16, 0xe56a8e62, 0x66f6f75c));
    OneRound(w, 45, (0xde1e3a01, 0xfa950aba, 0x65590921, 0x178a3a16, 0xe56a8e62));
    OneRound(w, 46, (0xafe695ab, 0xde1e3a01, 0xbea542ae, 0x65590921, 0x178a3a16));
    OneRound(w, 47, (0xa195ba90, 0xafe695ab, 0x77878e80, 0xbea542ae, 0x65590921));
    OneRound(w, 48, (0xe6d39f43, 0xa195ba90, 0xebf9a56a, 0x77878e80, 0xbea542ae));
    OneRound(w, 49, (0x0bca9922, 0xe6d39f43, 0x28656ea4, 0xebf9a56a, 0x77878e80));
  }

  lemma RoundsTo60(w: seq<bv32>)
    requires IsSchedule(w) && WordsTo64(w)
    requires Rounds(w, INITIAL, 50) == (0x6ae826ff, 0x0bca9922, 0xf9b4e7d0, 0x28656ea4, 0xebf9a56a)
    ensures Rounds(w, INITIAL, 60) == (0x9b9d2913, 0x982bcbca, 0xb86beac8, 0xc5a3382e, 0xaf9292fa)
  {
    hide Rounds;
    OneRound(w, 50, (0x6ae826ff, 0x0bca9922, 0xf9b4e7d0, 0x28656ea4, 0xebf9a56a));
    OneRound(w, 51, (0x01ff3253, 0x6ae826ff, 0x82f2a648, 0xf9b4e7d0, 0x28656ea4));
    OneRound(w, 52, (0xe2581ce0, 0x01ff3253, 0xdaba09bf, 0x82f2a648, 0xf9b4e7d0));
    OneRound(w, 53, (0x56ce73ab, 0xe2581ce0, 0xc07fcc94, 0xdaba09bf, 0x82f2a648));
    OneRound(w, 54, (0xae56e542, 0x56ce73ab, 0x38960738, 0xc07fcc94, 0xdaba09bf));
    OneRound(w, 55, (0x8590c0e8, 0xae56e542, 0xd5b39cea, 0x38960738, 0xc07fcc94));
    OneRound(w, 56, (0xbe4a4bea, 0x8590c0e8, 0xab95b950, 0xd5b39cea, 0x38960738));
    OneRound(w, 57, (0x168ce0bb, 0xbe4a4bea, 0x2164303a, 0xab95b950, 0xd5b39cea));
    OneRound(w, 58, (0xe1afab22, 0x168ce0bb, 0xaf9292fa, 0x2164303a, 0xab95b950));
    OneRound(w, 59, (0x982bcbca, 0xe1afab22, 0xc5a3382e, 0xaf9292fa, 0x2164303a));
  }

  lemma RoundsTo70(w: seq<bv32>)
    requires IsSchedule(w) && WordsTo64(w) && WordsTo80(w)
    requires Rounds(w, INITIAL, 60) == (0x9b9d2913, 0x982bcbca, 0xb86beac8, 0xc5a3382e, 0xaf9292fa)
    ensures Rounds(w, INITIAL, 70) == (0x503c7ae0, 0x8ba00627, 0x39e6befc, 0xc444d07c, 0xf4dc8972)
  {
    hide Rounds;
    OneRound(w, 60, (0x9b9d2913, 0x982bcbca, 0xb86beac8, 0xc5a3382e, 0xaf9292fa));
    OneRound(w, 61, (0xd37db937, 0x9b9d2913, 0xa60af2f2, 0xb86beac8, 0xc5a3382e));
    OneRound(w, 62, (0x85b9d227, 0xd37db937, 0xe6e74a44, 0xa60af2f2, 0xb86beac8));
    OneRound(w, 63, (0xcd98fbb7, 0x85b9d227, 0xf4df6e4d, 0xe6e74a44, 0xa60af2f2));
    OneRound(w, 64, (0xbb0f226f, 0xcd98fbb7, 0xe16e7489, 0xf4df6e4d, 0xe6e74a44));
    OneRound(w, 65, (0xeb59446c, 0xbb0f226f, 0xf3663eed, 0xe16e7489, 0xf4df6e4d));
    OneRound(w, 66, (0xd37225cb, 0xeb59446c, 0xeec3c89b, 0xf3663eed, 0xe16e7489));
    OneRound(w, 67, (0x111341f3, 0xd37225cb, 0x3ad6511b, 0xeec3c89b, 0xf3663eed));
    OneRound(w, 68, (0xe79afbf0, 0x111341f3, 0xf4dc8972, 0x3ad6511b, 0xeec3c89b));
    OneRound(w, 69, (0x8ba00627, 0xe79afbf0, 0xc444d07c, 0xf4dc8972, 0x3ad6511b));
  }

  lemma RoundsTo80(w: seq<bv32>)
    requires IsSchedule(w) && WordsTo80(w)
    requires Rounds(w, INITIAL, 70) == (0x503c7ae0, 0x8ba00627, 0x39e6befc, 0xc444d07c, 0xf4dc8972)
    ensures Rounds(w, INITIAL, 80) == (0x72f480ed, 0x6e9d9f84, 0x999ae2f1, 0x852dc41a, 0xec052519)
  {
    hide Rounds;
    OneRound(w, 70, (0x503c7ae0, 0x8ba00627, 0x39e6befc, 0xc444d07c, 0xf4dc8972));
    OneRound(w, 71, (0x3cd517f9, 0x503c7ae0, 0xe2e80189, 0x39e6befc, 0xc444d07c));
    OneRound(w, 72, (0xb47ddf0e, 0x3cd517f9, 0x140f1eb8, 0xe2e80189, 0x39e6befc));
    OneRound(w, 73, (0x5e3a0780, 0xb47ddf0e, 0x4f3545fe, 0x140f1eb8, 0xe2e80189));
    OneRound(w, 74, (0x63db37b2, 0x5e3a0780, 0xad1f77c3, 0x4f3545fe, 0x140f1eb8));
    OneRound(w, 75, (0x15e98d17, 0x63db37b2, 0x178e81e0, 0xad1f77c3, 0x4f3545fe));
    OneRound(w, 76, (0xb0149467, 0x15e98d17, 0x98f6cdec, 0x178e81e0, 0xad1f77c3));
    OneRound(w, 77, (0x14b7106a, 0xb0149467, 0xc57a6345, 0x98f6cdec, 0x178e81e0));
    OneRound(w, 78, (0x666b8bc6, 0x14b7106a, 0xec052519, 0xc57a6345, 0x98f6cdec));
    OneRound(w, 79, (0x6e9d9f84, 0x666b8bc6, 0x852dc41a, 0xec052519, 0xc57a6345));
  }

  /** da39a3ee 5e6b4b0d 3255bfef 95601890 afd80709 */
  lemma EmptyMessage()
    ensures Standard([]) == (0xda39a3ee, 0x5e6b4b0d, 0x3255bfef, 0x95601890, 0xafd80709)
  {
    var block := Padded([]);
    EmptyBlock();
    var w := Words(block, 80);
    ScheduleOfBlock(block);
    hide Words, Rounds, IsSchedule;
    HasWordsTo32(w);
    HasWordsTo48(w);
    HasWordsTo64(w);
    HasWordsTo80(w);
    RoundsTo10(w);
    RoundsTo20(w);
    RoundsTo30(w);
    RoundsTo40(w);
    RoundsTo50(w);
    RoundsTo60(w);
    RoundsTo70(w);
    RoundsTo80(w);
    LastAddition();
    OneBlock(block);
  }

  lemma EmptyBlock()
    ensures var block := Padded([]); |block| == 64 && block[0] == 0x80 && forall i :: 0 < i < 64 ==> block[i] == 0
  {
    assert FillsBlock(0, 55);
    assert ZeroCount(0) == 55;
  }

  lemma OneBlock(block: seq<bv8>)
    requires |block| == 64
    ensures HashAfter(block, 1) == AddHash(INITIAL, Rounds(Words(block, 80), INITIAL, 80))
  {
    assert block[0..64] == block && HashAfter(block, 0) == INITIAL;
  }

  lemma LastAddition()
    ensures AddHash(INITIAL, (0x72f480ed, 0x6e9d9f84, 0x999ae2f1, 0x852dc41a, 0xec052519))
      == (0xda39a3ee, 0x5e6b4b0d, 0x3255bfef, 0x95601890, 0xafd80709)
  {
  }
}
