/**
  The one-block example of the standard: the message "abc". Its schedule, the working variables after each of the 64
  rounds and the digest are those that NIST publishes with FIPS 180-4.
 */
module Sha256Example {
  import opened Words
  import opened Sha256Spec

  const ABC: seq<Byte> := [0x61, 0x62, 0x63]

  // ------------------------------------------------------------------ the padded message

  /** The padded message is one block: the message, a one bit, zeros, and the number 24. */
  ghost predicate OneBlock(block: seq<Byte>) {
    && |block| == 64 && block[0] == 0x61 && block[1] == 0x62 && block[2] == 0x63 && block[3] == 0x80
    && (forall i :: 4 <= i < 63 ==> block[i] == 0) && block[63] == 24
  }

  lemma LengthOfAbc()
    ensures LengthField(3) == [0, 0, 0, 0, 0, 0, 0, 24]
  {
    assert BigEndian(0, 7) == [0, 0, 0, 0, 0, 0, 0] by {
      assert BigEndian(0, 3) == [0, 0, 0];
      assert BigEndian(0, 5) == [0, 0, 0, 0, 0];
    }
  }

  lemma PaddedAbc()
    ensures OneBlock(Pad(ABC))
  {
    LengthOfAbc();
    hide LengthField;
    assert Pad(ABC)[..4] == ABC + [0x80] && Pad(ABC)[4..56] == Zeros(52) && Pad(ABC)[56..] == LengthField(3);
    assert Pad(ABC) == Pad(ABC)[..4] + Pad(ABC)[4..56] + Pad(ABC)[56..];
  }

  // ------------------------------------------------------------------------ the schedule

  lemma WordsOfBytes()
    ensures ToWord(0x61, 0x62, 0x63, 0x80) == 0x61626380 && ToWord(0, 0, 0, 0) == 0 && ToWord(0, 0, 0, 24) == 0x18
  {}

  lemma Words0(block: seq<Byte>, t: nat)
    requires OneBlock(block) && t < 16
    ensures Schedule(block, t) == if t == 0 then 0x61626380 else if t == 15 then 0x18 else 0
  {
    hide ToWord, Schedule;
    WordsOfBytes();
    FirstWords(block, t);
  }

  /** All 64 words. */
  ghost predicate Scheduled(w: seq<Word>) {
    |w| == 64 && forall t :: 16 <= t < 64 ==> w[t] == Expansion(w[t - 2], w[t - 7], w[t - 15], w[t - 16])
  }

  lemma Later(w: seq<Word>, t: nat)
    requires Scheduled(w) && 16 <= t < 64
    ensures w[t] == Expansion(w[t - 2], w[t - 7], w[t - 15], w[t - 16])
  {
    hide Expansion;
  }

  ghost predicate WordRow0(w: seq<Word>) {
    && |w| == 64 && w[0] == 0x61626380 && w[1] == 0x00000000 && w[2] == 0x00000000 && w[3] == 0x00000000
    && w[4] == 0x00000000 && w[5] == 0x00000000 && w[6] == 0x00000000 && w[7] == 0x00000000
  }

  ghost predicate WordRow1(w: seq<Word>) {
    && |w| == 64 && w[8] == 0x00000000 && w[9] == 0x00000000 && w[10] == 0x00000000 && w[11] == 0x00000000
    && w[12] == 0x00000000 && w[13] == 0x00000000 && w[14] == 0x00000000 && w[15] == 0x00000018
  }

  ghost predicate WordRow2(w: seq<Word>) {
    && |w| == 64 && w[16] == 0x61626380 && w[17] == 0x000f0000 && w[18] == 0x7da86405 && w[19] == 0x600003c6
    && w[20] == 0x3e9d7b78 && w[21] == 0x0183fc00 && w[22] == 0x12dcbfdb && w[23] == 0xe2e2c38e
  }

  ghost predicate WordRow3(w: seq<Word>) {
    && |w| == 64 && w[24] == 0xc8215c1a && w[25] == 0xb73679a2 && w[26] == 0xe5bc3909 && w[27] == 0x32663c5b
    && w[28] == 0x9d209d67 && w[29] == 0xec8726cb && w[30] == 0x702138a4 && w[31] == 0xd3b7973b
  }

  ghost predicate WordRow4(w: seq<Word>) {
    && |w| == 64 && w[32] == 0x93f5997f && w[33] == 0x3b68ba73 && w[34] == 0xaff4ffc1 && w[35] == 0xf10a5c62
    && w[36] == 0x0a8b3996 && w[37] == 0x72af830a && w[38] == 0x9409e33e && w[39] == 0x24641522
  }

  ghost predicate WordRow5(w: seq<Word>) {
    && |w| == 64 && w[40] == 0x9f47bf94 && w[41] == 0xf0a64f5a && w[42] == 0x3e246a79 && w[43] == 0x27333ba3
    && w[44] == 0x0c4763f2 && w[45] == 0x840abf27 && w[46] == 0x7a290d5d && w[47] == 0x065c43da
  }

  ghost predicate WordRow6(w: seq<Word>) {
    && |w| == 64 && w[48] == 0xfb3e89cb && w[49] == 0xcc7617db && w[50] == 0xb9e66c34 && w[51] == 0xa9993667
    && w[52] == 0x84badedd && w[53] == 0xc21462bc && w[54] == 0x1487472c && w[55] == 0xb20f7a99
  }

  ghost predicate WordRow7(w: seq<Word>) {
    && |w| == 64 && w[56] == 0xef57b9cd && w[57] == 0xebe6b238 && w[58] == 0x9fe3095e && w[59] == 0x78bc8d4b
    && w[60] == 0xa43fcf15 && w[61] == 0x668b2ff8 && w[62] == 0xeeaba2cc && w[63] == 0x12b1edeb
  }

  lemma Expansions2a()
    ensures Expansion(0x00000000, 0x00000000, 0x00000000, 0x61626380) == 0x61626380
    ensures Expansion(0x00000018, 0x00000000, 0x00000000, 0x00000000) == 0x000f0000
    ensures Expansion(0x61626380, 0x00000000, 0x00000000, 0x00000000) == 0x7da86405
    ensures Expansion(0x000f0000, 0x00000000, 0x00000000, 0x00000000) == 0x600003c6
  {
    hide SmallSigma0, SmallSigma1;
    FirstSigmas();
  }

  lemma FirstSigmas()
    ensures SmallSigma0(0x00000000) == 0x00000000 && SmallSigma1(0x00000000) == 0x00000000
    ensures SmallSigma1(0x00000018) == 0x000f0000 && SmallSigma1(0x000f0000) == 0x600003c6
    ensures SmallSigma1(0x61626380) == 0x7da86405
  {}

  lemma Expansions2b()
    ensures Expansion(0x7da86405, 0x00000000, 0x00000000, 0x00000000) == 0x3e9d7b78
    ensures Expansion(0x600003c6, 0x00000000, 0x00000000, 0x00000000) == 0x0183fc00
    ensures Expansion(0x3e9d7b78, 0x00000018, 0x00000000, 0x00000000) == 0x12dcbfdb
    ensures Expansion(0x0183fc00, 0x61626380, 0x00000000, 0x00000000) == 0xe2e2c38e
  {}

  lemma Words2(w: seq<Word>)
    requires Scheduled(w) && WordRow0(w) && WordRow1(w)
    ensures WordRow2(w)
  {
    hide Scheduled, Expansion;
    Expansions2a();
    Expansions2b();
    Later(w, 16);
    Later(w, 17);
    Later(w, 18);
    Later(w, 19);
    Later(w, 20);
    Later(w, 21);
    Later(w, 22);
    Later(w, 23);
  }

  lemma Expansions3a()
    ensures Expansion(0x12dcbfdb, 0x000f0000, 0x00000000, 0x00000000) == 0xc8215c1a
    ensures Expansion(0xe2e2c38e, 0x7da86405, 0x00000000, 0x00000000) == 0xb73679a2
    ensures Expansion(0xc8215c1a, 0x600003c6, 0x00000000, 0x00000000) == 0xe5bc3909
    ensures Expansion(0xb73679a2, 0x3e9d7b78, 0x00000000, 0x00000000) == 0x32663c5b
  {}

  lemma Expansions3b()
    ensures Expansion(0xe5bc3909, 0x0183fc00, 0x00000000, 0x00000000) == 0x9d209d67
    ensures Expansion(0x32663c5b, 0x12dcbfdb, 0x00000000, 0x00000000) == 0xec8726cb
    ensures Expansion(0x9d209d67, 0xe2e2c38e, 0x00000018, 0x00000000) == 0x702138a4
    ensures Expansion(0xec8726cb, 0xc8215c1a, 0x61626380, 0x00000018) == 0xd3b7973b
  {}

  lemma Words3(w: seq<Word>)
    requires Scheduled(w) && WordRow1(w) && WordRow2(w)
    ensures WordRow3(w)
  {
    hide Scheduled, Expansion;
    Expansions3a();
    Expansions3b();
    Later(w, 24);
    Later(w, 25);
    Later(w, 26);
    Later(w, 27);
    Later(w, 28);
    Later(w, 29);
    Later(w, 30);
    Later(w, 31);
  }

  lemma Expansions4a()
    ensures Expansion(0x702138a4, 0xb73679a2, 0x000f0000, 0x61626380) == 0x93f5997f
    ensures Expansion(0xd3b7973b, 0xe5bc3909, 0x7da86405, 0x000f0000) == 0x3b68ba73
    ensures Expansion(0x93f5997f, 0x32663c5b, 0x600003c6, 0x7da86405) == 0xaff4ffc1
    ensures Expansion(0x3b68ba73, 0x9d209d67, 0x3e9d7b78, 0x600003c6) == 0xf10a5c62
  {}

  lemma Expansions4b()
    ensures Expansion(0xaff4ffc1, 0xec8726cb, 0x0183fc00, 0x3e9d7b78) == 0x0a8b3996
    ensures Expansion(0xf10a5c62, 0x702138a4, 0x12dcbfdb, 0x0183fc00) == 0x72af830a
    ensures Expansion(0x0a8b3996, 0xd3b7973b, 0xe2e2c38e, 0x12dcbfdb) == 0x9409e33e
    ensures Expansion(0x72af830a, 0x93f5997f, 0xc8215c1a, 0xe2e2c38e) == 0x24641522
  {}

  lemma Words4(w: seq<Word>)
    requires Scheduled(w) && WordRow2(w) && WordRow3(w)
    ensures WordRow4(w)
  {
    hide Scheduled, Expansion;
    Expansions4a();
    Expansions4b();
    Later(w, 32);
    Later(w, 33);
    Later(w, 34);
    Later(w, 35);
    Later(w, 36);
    Later(w, 37);
    Later(w, 38);
    Later(w, 39);
  }

  lemma Expansions5a()
    ensures Expansion(0x9409e33e, 0x3b68ba73, 0xb73679a2, 0xc8215c1a) == 0x9f47bf94
    ensures Expansion(0x24641522, 0xaff4ffc1, 0xe5bc3909, 0xb73679a2) == 0xf0a64f5a
    ensures Expansion(0x9f47bf94, 0xf10a5c62, 0x32663c5b, 0xe5bc3909) == 0x3e246a79
    ensures Expansion(0xf0a64f5a, 0x0a8b3996, 0x9d209d67, 0x32663c5b) == 0x27333ba3
  {}

  lemma Expansions5b()
    ensures Expansion(0x3e246a79, 0x72af830a, 0xec8726cb, 0x9d209d67) == 0x0c4763f2
    ensures Expansion(0x27333ba3, 0x9409e33e, 0x702138a4, 0xec8726cb) == 0x840abf27
    ensures Expansion(0x0c4763f2, 0x24641522, 0xd3b7973b, 0x702138a4) == 0x7a290d5d
    ensures Expansion(0x840abf27, 0x9f47bf94, 0x93f5997f, 0xd3b7973b) == 0x065c43da
  {}

  lemma Words5(w: seq<Word>)
    requires Scheduled(w) && WordRow3(w) && WordRow4(w)
    ensures WordRow5(w)
  {
    hide Scheduled, Expansion;
    Expansions5a();
    Expansions5b();
    Later(w, 40);
    Later(w, 41);
    Later(w, 42);
    Later(w, 43);
    Later(w, 44);
    Later(w, 45);
    Later(w, 46);
    Later(w, 47);
  }

  lemma Expansions6a()
    ensures Expansion(0x7a290d5d, 0xf0a64f5a, 0x3b68ba73, 0x93f5997f) == 0xfb3e89cb
    ensures Expansion(0x065c43da, 0x3e246a79, 0xaff4ffc1, 0x3b68ba73) == 0xcc7617db
    ensures Expansion(0xfb3e89cb, 0x27333ba3, 0xf10a5c62, 0xaff4ffc1) == 0xb9e66c34
    ensures Expansion(0xcc7617db, 0x0c4763f2, 0x0a8b3996, 0xf10a5c62) == 0xa9993667
  {}

  lemma Expansions6b()
    ensures Expansion(0xb9e66c34, 0x840abf27, 0x72af830a, 0x0a8b3996) == 0x84badedd
    ensures Expansion(0xa9993667, 0x7a290d5d, 0x9409e33e, 0x72af830a) == 0xc21462bc
    ensures Expansion(0x84badedd, 0x065c43da, 0x24641522, 0x9409e33e) == 0x1487472c
    ensures Expansion(0xc21462bc, 0xfb3e89cb, 0x9f47bf94, 0x24641522) == 0xb20f7a99
  {}

  lemma Words6(w: seq<Word>)
    requires Scheduled(w) && WordRow4(w) && WordRow5(w)
    ensures WordRow6(w)
  {
    hide Scheduled, Expansion;
    Expansions6a();
    Expansions6b();
    Later(w, 48);
    Later(w, 49);
    Later(w, 50);
    Later(w, 51);
    Later(w, 52);
    Later(w, 53);
    Later(w, 54);
    Later(w, 55);
  }

  lemma Expansions7a()
    ensures Expansion(0x1487472c, 0xcc7617db, 0xf0a64f5a, 0x9f47bf94) == 0xef57b9cd
    ensures Expansion(0xb20f7a99, 0xb9e66c34, 0x3e246a79, 0xf0a64f5a) == 0xebe6b238
    ensures Expansion(0xef57b9cd, 0xa9993667, 0x27333ba3, 0x3e246a79) == 0x9fe3095e
    ensures Expansion(0xebe6b238, 0x84badedd, 0x0c4763f2, 0x27333ba3) == 0x78bc8d4b
  {}

  lemma Expansions7b()
    ensures Expansion(0x9fe3095e, 0xc21462bc, 0x840abf27, 0x0c4763f2) == 0xa43fcf15
    ensures Expansion(0x78bc8d4b, 0x1487472c, 0x7a290d5d, 0x840abf27) == 0x668b2ff8
    ensures Expansion(0xa43fcf15, 0xb20f7a99, 0x065c43da, 0x7a290d5d) == 0xeeaba2cc
    ensures Expansion(0x668b2ff8, 0xef57b9cd, 0xfb3e89cb, 0x065c43da) == 0x12b1edeb
  {}

  lemma Words7(w: seq<Word>)
    requires Scheduled(w) && WordRow5(w) && WordRow6(w)
    ensures WordRow7(w)
  {
    hide Scheduled, Expansion;
    Expansions7a();
    Expansions7b();
    Later(w, 56);
    Later(w, 57);
    Later(w, 58);
    Later(w, 59);
    Later(w, 60);
    Later(w, 61);
    Later(w, 62);
    Later(w, 63);
  }

  // -------------------------------------------------------------------------- the rounds

  /** The working variables after every round. */
  ghost predicate Stepped(v: seq<Vars>, w: seq<Word>) {
    |v| == 65 && |w| == 64 && forall t :: 0 <= t < 64 ==> v[t + 1] == Round(v[t], Constant(t), w[t])
  }

  lemma Stepping(v: seq<Vars>, w: seq<Word>, t: nat)
    requires Stepped(v, w) && t < 64
    ensures v[t + 1] == Round(v[t], Constant(t), w[t])
  {
    hide Round, Constant;
  }

  lemma Constants0()
    ensures Constant(0) == 0x428a2f98 && Constant(1) == 0x71374491 && Constant(2) == 0xb5c0fbcf
    ensures Constant(3) == 0xe9b5dba5 && Constant(4) == 0x3956c25b && Constant(5) == 0x59f111f1
    ensures Constant(6) == 0x923f82a4 && Constant(7) == 0xab1c5ed5
  {}

  lemma Rounds0(v: seq<Vars>, w: seq<Word>)
    requires Stepped(v, w)
    requires v[0] == Vars(0x6a09e667, 0xbb67ae85, 0x3c6ef372, 0xa54ff53a, 0x510e527f, 0x9b05688c, 0x1f83d9ab, 0x5be0cd19)
    requires w[0] == 0x61626380 && w[1] == 0x00000000 && w[2] == 0x00000000 && w[3] == 0x00000000
    requires w[4] == 0x00000000 && w[5] == 0x00000000 && w[6] == 0x00000000 && w[7] == 0x00000000
    ensures v[1] == Vars(0x5d6aebcd, 0x6a09e667, 0xbb67ae85, 0x3c6ef372, 0xfa2a4622, 0x510e527f, 0x9b05688c, 0x1f83d9ab)
    ensures v[2] == Vars(0x5a6ad9ad, 0x5d6aebcd, 0x6a09e667, 0xbb67ae85, 0x78ce7989, 0xfa2a4622, 0x510e527f, 0x9b05688c)
    ensures v[3] == Vars(0xc8c347a7, 0x5a6ad9ad, 0x5d6aebcd, 0x6a09e667, 0xf92939eb, 0x78ce7989, 0xfa2a4622, 0x510e527f)
    ensures v[4] == Vars(0xd550f666, 0xc8c347a7, 0x5a6ad9ad, 0x5d6aebcd, 0x24e00850, 0xf92939eb, 0x78ce7989, 0xfa2a4622)
    ensures v[5] == Vars(0x04409a6a, 0xd550f666, 0xc8c347a7, 0x5a6ad9ad, 0x43ada245, 0x24e00850, 0xf92939eb, 0x78ce7989)
    ensures v[6] == Vars(0x2b4209f5, 0x04409a6a, 0xd550f666, 0xc8c347a7, 0x714260ad, 0x43ada245, 0x24e00850, 0xf92939eb)
    ensures v[7] == Vars(0xe5030380, 0x2b4209f5, 0x04409a6a, 0xd550f666, 0x9b27a401, 0x714260ad, 0x43ada245, 0x24e00850)
    ensures v[8] == Vars(0x85a07b5f, 0xe5030380, 0x2b4209f5, 0x04409a6a, 0x0c657a79, 0x9b27a401, 0x714260ad, 0x43ada245)
  {
    hide Stepped, Constant;
    Constants0();
    Stepping(v, w, 0);
    Stepping(v, w, 1);
    Stepping(v, w, 2);
    Stepping(v, w, 3);
    Stepping(v, w, 4);
    Stepping(v, w, 5);
    Stepping(v, w, 6);
    Stepping(v, w, 7);
  }

  lemma Constants1()
    ensures Constant(8) == 0xd807aa98 && Constant(9) == 0x12835b01 && Constant(10) == 0x243185be
    ensures Constant(11) == 0x550c7dc3 && Constant(12) == 0x72be5d74 && Constant(13) == 0x80deb1fe
    ensures Constant(14) == 0x9bdc06a7 && Constant(15) == 0xc19bf174
  {}

  lemma Rounds1(v: seq<Vars>, w: seq<Word>)
    requires Stepped(v, w)
    requires v[8] == Vars(0x85a07b5f, 0xe5030380, 0x2b4209f5, 0x04409a6a, 0x0c657a79, 0x9b27a401, 0x714260ad, 0x43ada245)
    requires w[8] == 0x00000000 && w[9] == 0x00000000 && w[10] == 0x00000000 && w[11] == 0x00000000
    requires w[12] == 0x00000000 && w[13] == 0x00000000 && w[14] == 0x00000000 && w[15] == 0x00000018
    ensures v[9] == Vars(0x8e04ecb9, 0x85a07b5f, 0xe5030380, 0x2b4209f5, 0x32ca2d8c, 0x0c657a79, 0x9b27a401, 0x714260ad)
    ensures v[10] == Vars(0x8c87346b, 0x8e04ecb9, 0x85a07b5f, 0xe5030380, 0x1cc92596, 0x32ca2d8c, 0x0c657a79, 0x9b27a401)
    ensures v[11] == Vars(0x4798a3f4, 0x8c87346b, 0x8e04ecb9, 0x85a07b5f, 0x436b23e8, 0x1cc92596, 0x32ca2d8c, 0x0c657a79)
    ensures v[12] == Vars(0xf71fc5a9, 0x4798a3f4, 0x8c87346b, 0x8e04ecb9, 0x816fd6e9, 0x436b23e8, 0x1cc92596, 0x32ca2d8c)
    ensures v[13] == Vars(0x87912990, 0xf71fc5a9, 0x4798a3f4, 0x8c87346b, 0x1e578218, 0x816fd6e9, 0x436b23e8, 0x1cc92596)
    ensures v[14] == Vars(0xd932eb16, 0x87912990, 0xf71fc5a9, 0x4798a3f4, 0x745a48de, 0x1e578218, 0x816fd6e9, 0x436b23e8)
    ensures v[15] == Vars(0xc0645fde, 0xd932eb16, 0x87912990, 0xf71fc5a9, 0x0b92f20c, 0x745a48de, 0x1e578218, 0x816fd6e9)
    ensures v[16] == Vars(0xb0fa238e, 0xc0645fde, 0xd932eb16, 0x87912990, 0x07590dcd, 0x0b92f20c, 0x745a48de, 0x1e578218)
  {
    hide Stepped, Constant;
    Constants1();
    Stepping(v, w, 8);
    Stepping(v, w, 9);
    Stepping(v, w, 10);
    Stepping(v, w, 11);
    Stepping(v, w, 12);
    Stepping(v, w, 13);
    Stepping(v, w, 14);
    Stepping(v, w, 15);
  }

  lemma Constants2()
    ensures Constant(16) == 0xe49b69c1 && Constant(17) == 0xefbe4786 && Constant(18) == 0x0fc19dc6
    ensures Constant(19) == 0x240ca1cc && Constant(20) == 0x2de92c6f && Constant(21) == 0x4a7484aa
    ensures Constant(22) == 0x5cb0a9dc && Constant(23) == 0x76f988da
  {}

  lemma Rounds2(v: seq<Vars>, w: seq<Word>)
    requires Stepped(v, w)
    requires v[16] == Vars(0xb0fa238e, 0xc0645fde, 0xd932eb16, 0x87912990, 0x07590dcd, 0x0b92f20c, 0x745a48de, 0x1e578218)
    requires w[16] == 0x61626380 && w[17] == 0x000f0000 && w[18] == 0x7da86405 && w[19] == 0x600003c6
    requires w[20] == 0x3e9d7b78 && w[21] == 0x0183fc00 && w[22] == 0x12dcbfdb && w[23] == 0xe2e2c38e
    ensures v[17] == Vars(0x21da9a9b, 0xb0fa238e, 0xc0645fde, 0xd932eb16, 0x8034229c, 0x07590dcd, 0x0b92f20c, 0x745a48de)
    ensures v[18] == Vars(0xc2fbd9d1, 0x21da9a9b, 0xb0fa238e, 0xc0645fde, 0x846ee454, 0x8034229c, 0x07590dcd, 0x0b92f20c)
    ensures v[19] == Vars(0xfe777bbf, 0xc2fbd9d1, 0x21da9a9b, 0xb0fa238e, 0xcc899961, 0x846ee454, 0x8034229c, 0x07590dcd)
    ensures v[20] == Vars(0xe1f20c33, 0xfe777bbf, 0xc2fbd9d1, 0x21da9a9b, 0xb0638179, 0xcc899961, 0x846ee454, 0x8034229c)
    ensures v[21] == Vars(0x9dc68b63, 0xe1f20c33, 0xfe777bbf, 0xc2fbd9d1, 0x8ada8930, 0xb0638179, 0xcc899961, 0x846ee454)
    ensures v[22] == Vars(0xc2606d6d, 0x9dc68b63, 0xe1f20c33, 0xfe777bbf, 0xe1257970, 0x8ada8930, 0xb0638179, 0xcc899961)
    ensures v[23] == Vars(0xa7a3623f, 0xc2606d6d, 0x9dc68b63, 0xe1f20c33, 0x49f5114a, 0xe1257970, 0x8ada8930, 0xb0638179)
    ensures v[24] == Vars(0xc5d53d8d, 0xa7a3623f, 0xc2606d6d, 0x9dc68b63, 0xaa47c347, 0x49f5114a, 0xe1257970, 0x8ada8930)
  {
    hide Stepped, Constant;
    Constants2();
    Stepping(v, w, 16);
    Stepping(v, w, 17);
    Stepping(v, w, 18);
    Stepping(v, w, 19);
    Stepping(v, w, 20);
    Stepping(v, w, 21);
    Stepping(v, w, 22);
    Stepping(v, w, 23);
  }

  lemma Constants3()
    ensures Constant(24) == 0x983e5152 && Constant(25) == 0xa831c66d && Constant(26) == 0xb00327c8
    ensures Constant(27) == 0xbf597fc7 && Constant(28) == 0xc6e00bf3 && Constant(29) == 0xd5a79147
    ensures Constant(30) == 0x06ca6351 && Constant(31) == 0x14292967
  {}

  lemma Rounds3(v: seq<Vars>, w: seq<Word>)
    requires Stepped(v, w)
    requires v[24] == Vars(0xc5d53d8d, 0xa7a3623f, 0xc2606d6d, 0x9dc68b63, 0xaa47c347, 0x49f5114a, 0xe1257970, 0x8ada8930)
    requires w[24] == 0xc8215c1a && w[25] == 0xb73679a2 && w[26] == 0xe5bc3909 && w[27] == 0x32663c5b
    requires w[28] == 0x9d209d67 && w[29] == 0xec8726cb && w[30] == 0x702138a4 && w[31] == 0xd3b7973b
    ensures v[25] == Vars(0x1c2c2838, 0xc5d53d8d, 0xa7a3623f, 0xc2606d6d, 0x2823ef91, 0xaa47c347, 0x49f5114a, 0xe1257970)
    ensures v[26] == Vars(0xcde8037d, 0x1c2c2838, 0xc5d53d8d, 0xa7a3623f, 0x14383d8e, 0x2823ef91, 0xaa47c347, 0x49f5114a)
    ensures v[27] == Vars(0xb62ec4bc, 0xcde8037d, 0x1c2c2838, 0xc5d53d8d, 0xc74c6516, 0x14383d8e, 0x2823ef91, 0xaa47c347)
    ensures v[28] == Vars(0x77d37528, 0xb62ec4bc, 0xcde8037d, 0x1c2c2838, 0xedffbff8, 0xc74c6516, 0x14383d8e, 0x2823ef91)
    ensures v[29] == Vars(0x363482c9, 0x77d37528, 0xb62ec4bc, 0xcde8037d, 0x6112a3b7, 0xedffbff8, 0xc74c6516, 0x14383d8e)
    ensures v[30] == Vars(0xa0060b30, 0x363482c9, 0x77d37528, 0xb62ec4bc, 0xade79437, 0x6112a3b7, 0xedffbff8, 0xc74c6516)
    ensures v[31] == Vars(0xea992a22, 0xa0060b30, 0x363482c9, 0x77d37528, 0x0109ab3a, 0xade79437, 0x6112a3b7, 0xedffbff8)
    ensures v[32] == Vars(0x73b33bf5, 0xea992a22, 0xa0060b30, 0x363482c9, 0xba591112, 0x0109ab3a, 0xade79437, 0x6112a3b7)
  {
    hide Stepped, Constant;
    Constants3();
    Stepping(v, w, 24);
    Stepping(v, w, 25);
    Stepping(v, w, 26);
    Stepping(v, w, 27);
    Stepping(v, w, 28);
    Stepping(v, w, 29);
    Stepping(v, w, 30);
    Stepping(v, w, 31);
  }

  lemma Constants4()
    ensures Constant(32) == 0x27b70a85 && Constant(33) == 0x2e1b2138 && Constant(34) == 0x4d2c6dfc
    ensures Constant(35) == 0x53380d13 && Constant(36) == 0x650a7354 && Constant(37) == 0x766a0abb
    ensures Constant(38) == 0x81c2c92e && Constant(39) == 0x92722c85
  {}

  lemma Rounds4(v: seq<Vars>, w: seq<Word>)
    requires Stepped(v, w)
    requires v[32] == Vars(0x73b33bf5, 0xea992a22, 0xa0060b30, 0x363482c9, 0xba591112, 0x0109ab3a, 0xade79437, 0x6112a3b7)
    requires w[32] == 0x93f5997f && w[33] == 0x3b68ba73 && w[34] == 0xaff4ffc1 && w[35] == 0xf10a5c62
    requires w[36] == 0x0a8b3996 && w[37] == 0x72af830a && w[38] == 0x9409e33e && w[39] == 0x24641522
    ensures v[33] == Vars(0x98e12507, 0x73b33bf5, 0xea992a22, 0xa0060b30, 0x9cd9f5f6, 0xba591112, 0x0109ab3a, 0xade79437)
    ensures v[34] == Vars(0xfe604df5, 0x98e12507, 0x73b33bf5, 0xea992a22, 0x59249dd3, 0x9cd9f5f6, 0xba591112, 0x0109ab3a)
    ensures v[35] == Vars(0xa9a7738c, 0xfe604df5, 0x98e12507, 0x73b33bf5, 0x085f3833, 0x59249dd3, 0x9cd9f5f6, 0xba591112)
    ensures v[36] == Vars(0x65a0cfe4, 0xa9a7738c, 0xfe604df5, 0x98e12507, 0xf4b002d6, 0x085f3833, 0x59249dd3, 0x9cd9f5f6)
    ensures v[37] == Vars(0x41a65cb1, 0x65a0cfe4, 0xa9a7738c, 0xfe604df5, 0x0772a26b, 0xf4b002d6, 0x085f3833, 0x59249dd3)
    ensures v[38] == Vars(0x34df1604, 0x41a65cb1, 0x65a0cfe4, 0xa9a7738c, 0xa507a53d, 0x0772a26b, 0xf4b002d6, 0x085f3833)
    ensures v[39] == Vars(0x6dc57a8a, 0x34df1604, 0x41a65cb1, 0x65a0cfe4, 0xf0781bc8, 0xa507a53d, 0x0772a26b, 0xf4b002d6)
    ensures v[40] == Vars(0x79ea687a, 0x6dc57a8a, 0x34df1604, 0x41a65cb1, 0x1efbc0a0, 0xf0781bc8, 0xa507a53d, 0x0772a26b)
  {
    hide Stepped, Constant;
    Constants4();
    Stepping(v, w, 32);
    Stepping(v, w, 33);
    Stepping(v, w, 34);
    Stepping(v, w, 35);
    Stepping(v, w, 36);
    Stepping(v, w, 37);
    Stepping(v, w, 38);
    Stepping(v, w, 39);
  }

  lemma Constants5()
    ensures Constant(40) == 0xa2bfe8a1 && Constant(41) == 0xa81a664b && Constant(42) == 0xc24b8b70
    ensures Constant(43) == 0xc76c51a3 && Constant(44) == 0xd192e819 && Constant(45) == 0xd6990624
    ensures Constant(46) == 0xf40e3585 && Constant(47) == 0x106aa070
  {}

  lemma Rounds5(v: seq<Vars>, w: seq<Word>)
    requires Stepped(v, w)
    requires v[40] == Vars(0x79ea687a, 0x6dc57a8a, 0x34df1604, 0x41a65cb1, 0x1efbc0a0, 0xf0781bc8, 0xa507a53d, 0x0772a26b)
    requires w[40] == 0x9f47bf94 && w[41] == 0xf0a64f5a && w[42] == 0x3e246a79 && w[43] == 0x27333ba3
    requires w[44] == 0x0c4763f2 && w[45] == 0x840abf27 && w[46] == 0x7a290d5d && w[47] == 0x065c43da
    ensures v[41] == Vars(0xd6670766, 0x79ea687a, 0x6dc57a8a, 0x34df1604, 0x26352d63, 0x1efbc0a0, 0xf0781bc8, 0xa507a53d)
    ensures v[42] == Vars(0xdf46652f, 0xd6670766, 0x79ea687a, 0x6dc57a8a, 0x838b2711, 0x26352d63, 0x1efbc0a0, 0xf0781bc8)
    ensures v[43] == Vars(0x17aa0dfe, 0xdf46652f, 0xd6670766, 0x79ea687a, 0xdecd4715, 0x838b2711, 0x26352d63, 0x1efbc0a0)
    ensures v[44] == Vars(0x9d4baf93, 0x17aa0dfe, 0xdf46652f, 0xd6670766, 0xfda24c2e, 0xdecd4715, 0x838b2711, 0x26352d63)
    ensures v[45] == Vars(0x26628815, 0x9d4baf93, 0x17aa0dfe, 0xdf46652f, 0xa80f11f0, 0xfda24c2e, 0xdecd4715, 0x838b2711)
    ensures v[46] == Vars(0x72ab4b91, 0x26628815, 0x9d4baf93, 0x17aa0dfe, 0xb7755da1, 0xa80f11f0, 0xfda24c2e, 0xdecd4715)
    ensures v[47] == Vars(0xa14c14b0, 0x72ab4b91, 0x26628815, 0x9d4baf93, 0xd57b94a9, 0xb7755da1, 0xa80f11f0, 0xfda24c2e)
    ensures v[48] == Vars(0x4172328d, 0xa14c14b0, 0x72ab4b91, 0x26628815, 0xfecf0bc6, 0xd57b94a9, 0xb7755da1, 0xa80f11f0)
  {
    hide Stepped, Constant;
    Constants5();
    Stepping(v, w, 40);
    Stepping(v, w, 41);
    Stepping(v, w, 42);
    Stepping(v, w, 43);
    Stepping(v, w, 44);
    Stepping(v, w, 45);
    Stepping(v, w, 46);
    Stepping(v, w, 47);
  }

  lemma Constants6()
    ensures Constant(48) == 0x19a4c116 && Constant(49) == 0x1e376c08 && Constant(50) == 0x2748774c
    ensures Constant(51) == 0x34b0bcb5 && Constant(52) == 0x391c0cb3 && Constant(53) == 0x4ed8aa4a
    ensures Constant(54) == 0x5b9cca4f && Constant(55) == 0x682e6ff3
  {}

  lemma Rounds6(v: seq<Vars>, w: seq<Word>)
    requires Stepped(v, w)
    requires v[48] == Vars(0x4172328d, 0xa14c14b0, 0x72ab4b91, 0x26628815, 0xfecf0bc6, 0xd57b94a9, 0xb7755da1, 0xa80f11f0)
    requires w[48] == 0xfb3e89cb && w[49] == 0xcc7617db && w[50] == 0xb9e66c34 && w[51] == 0xa9993667
    requires w[52] == 0x84badedd && w[53] == 0xc21462bc && w[54] == 0x1487472c && w[55] == 0xb20f7a99
    ensures v[49] == Vars(0x05757ceb, 0x4172328d, 0xa14c14b0, 0x72ab4b91, 0xbd714038, 0xfecf0bc6, 0xd57b94a9, 0xb7755da1)
    ensures v[50] == Vars(0xf11bfaa8, 0x05757ceb, 0x4172328d, 0xa14c14b0, 0x6e5c390c, 0xbd714038, 0xfecf0bc6, 0xd57b94a9)
    ensures v[51] == Vars(0x7a0508a1, 0xf11bfaa8, 0x05757ceb, 0x4172328d, 0x52f1ccf7, 0x6e5c390c, 0xbd714038, 0xfecf0bc6)
    ensures v[52] == Vars(0x886e7a22, 0x7a0508a1, 0xf11bfaa8, 0x05757ceb, 0x49231c1e, 0x52f1ccf7, 0x6e5c390c, 0xbd714038)
    ensures v[53] == Vars(0x101fd28f, 0x886e7a22, 0x7a0508a1, 0xf11bfaa8, 0x529e7d00, 0x49231c1e, 0x52f1ccf7, 0x6e5c390c)
    ensures v[54] == Vars(0xf5702fdb, 0x101fd28f, 0x886e7a22, 0x7a0508a1, 0x9f4787c3, 0x529e7d00, 0x49231c1e, 0x52f1ccf7)
    ensures v[55] == Vars(0x3ec45cdb, 0xf5702fdb, 0x101fd28f, 0x886e7a22, 0xe50e1b4f, 0x9f4787c3, 0x529e7d00, 0x49231c1e)
    ensures v[56] == Vars(0x38cc9913, 0x3ec45cdb, 0xf5702fdb, 0x101fd28f, 0x54cb266b, 0xe50e1b4f, 0x9f4787c3, 0x529e7d00)
  {
    hide Stepped, Constant;
    Constants6();
    Stepping(v, w, 48);
    Stepping(v, w, 49);
    Stepping(v, w, 50);
    Stepping(v, w, 51);
    Stepping(v, w, 52);
    Stepping(v, w, 53);
    Stepping(v, w, 54);
    Stepping(v, w, 55);
  }

  lemma Constants7()
    ensures Constant(56) == 0x748f82ee && Constant(57) == 0x78a5636f && Constant(58) == 0x84c87814
    ensures Constant(59) == 0x8cc70208 && Constant(60) == 0x90befffa && Constant(61) == 0xa4506ceb
    ensures Constant(62) == 0xbef9a3f7 && Constant(63) == 0xc67178f2
  {}

  lemma Rounds7(v: seq<Vars>, w: seq<Word>)
    requires Stepped(v, w)
    requires v[56] == Vars(0x38cc9913, 0x3ec45cdb, 0xf5702fdb, 0x101fd28f, 0x54cb266b, 0xe50e1b4f, 0x9f4787c3, 0x529e7d00)
    requires w[56] == 0xef57b9cd && w[57] == 0xebe6b238 && w[58] == 0x9fe3095e && w[59] == 0x78bc8d4b
    requires w[60] == 0xa43fcf15 && w[61] == 0x668b2ff8 && w[62] == 0xeeaba2cc && w[63] == 0x12b1edeb
    ensures v[57] == Vars(0xfcd1887b, 0x38cc9913, 0x3ec45cdb, 0xf5702fdb, 0x9b5e906c, 0x54cb266b, 0xe50e1b4f, 0x9f4787c3)
    ensures v[58] == Vars(0xc062d46f, 0xfcd1887b, 0x38cc9913, 0x3ec45cdb, 0x7e44008e, 0x9b5e906c, 0x54cb266b, 0xe50e1b4f)
    ensures v[59] == Vars(0xffb70472, 0xc062d46f, 0xfcd1887b, 0x38cc9913, 0x6d83bfc6, 0x7e44008e, 0x9b5e906c, 0x54cb266b)
    ensures v[60] == Vars(0xb6ae8fff, 0xffb70472, 0xc062d46f, 0xfcd1887b, 0xb21bad3d, 0x6d83bfc6, 0x7e44008e, 0x9b5e906c)
    ensures v[61] == Vars(0xb85e2ce9, 0xb6ae8fff, 0xffb70472, 0xc062d46f, 0x961f4894, 0xb21bad3d, 0x6d83bfc6, 0x7e44008e)
    ensures v[62] == Vars(0x04d24d6c, 0xb85e2ce9, 0xb6ae8fff, 0xffb70472, 0x948d25b6, 0x961f4894, 0xb21bad3d, 0x6d83bfc6)
    ensures v[63] == Vars(0xd39a2165, 0x04d24d6c, 0xb85e2ce9, 0xb6ae8fff, 0xfb121210, 0x948d25b6, 0x961f4894, 0xb21bad3d)
    ensures v[64] == Vars(0x506e3058, 0xd39a2165, 0x04d24d6c, 0xb85e2ce9, 0x5ef50f24, 0xfb121210, 0x948d25b6, 0x961f4894)
  {
    hide Stepped, Constant;
    Constants7();
    Stepping(v, w, 56);
    Stepping(v, w, 57);
    Stepping(v, w, 58);
    Stepping(v, w, 59);
    Stepping(v, w, 60);
    Stepping(v, w, 61);
    Stepping(v, w, 62);
    Stepping(v, w, 63);
  }

  lemma Initial(v: Vars)
    requires v == Load(InitialHash())
    ensures v == Vars(0x6a09e667, 0xbb67ae85, 0x3c6ef372, 0xa54ff53a, 0x510e527f, 0x9b05688c, 0x1f83d9ab, 0x5be0cd19)
  {}

  /** The schedule and the working variables of the block, as sequences. */
  lemma Listed(v: Vars, block: seq<Byte>, w: seq<Word>, vs: seq<Vars>)
    requires |block| == 64 && |w| == 64 && |vs| == 65
    requires forall t :: 0 <= t < 64 ==> w[t] == Schedule(block, t)
    requires forall t :: 0 <= t <= 64 ==> vs[t] == Rounds(v, block, t)
    ensures Scheduled(w) && Stepped(vs, w)
  {
    hide Schedule, Rounds, Expansion, Round, Constant;
    forall t | 16 <= t < 64
      ensures w[t] == Expansion(w[t - 2], w[t - 7], w[t - 15], w[t - 16])
    {
      LaterWords(block, t);
    }
    forall t | 0 <= t < 64
      ensures vs[t + 1] == Round(vs[t], Constant(t), w[t])
    {
      NextRound(v, block, t);
    }
  }

  lemma BlockWords(block: seq<Byte>, w: seq<Word>)
    requires OneBlock(block) && |w| == 64 && forall t :: 0 <= t < 64 ==> w[t] == Schedule(block, t)
    ensures WordRow0(w) && WordRow1(w)
  {
    hide Schedule, OneBlock;
    forall t | 0 <= t < 16
      ensures w[t] == if t == 0 then 0x61626380 else if t == 15 then 0x18 else 0
    {
      Words0(block, t);
    }
  }

  lemma AllWords(block: seq<Byte>, w: seq<Word>)
    requires OneBlock(block) && Scheduled(w) && forall t :: 0 <= t < 64 ==> w[t] == Schedule(block, t)
    ensures WordRow0(w) && WordRow1(w) && WordRow2(w) && WordRow3(w)
    ensures WordRow4(w) && WordRow5(w) && WordRow6(w) && WordRow7(w)
  {
    hide Schedule, Scheduled, OneBlock;
    hide WordRow0, WordRow1, WordRow2, WordRow3, WordRow4, WordRow5, WordRow6, WordRow7;
    LengthOf(w);
    BlockWords(block, w);
    Words2(w);
    Words3(w);
    Words4(w);
    Words5(w);
    Words6(w);
    Words7(w);
  }

  lemma LengthOf(w: seq<Word>)
    requires Scheduled(w)
    ensures |w| == 64
  {}

  /** The whole block, round by round. */
  lemma AllRounds(v: Vars, block: seq<Byte>)
    requires OneBlock(block) && v == Load(InitialHash())
    ensures Rounds(v, block, 64) ==
            Vars(0x506e3058, 0xd39a2165, 0x04d24d6c, 0xb85e2ce9, 0x5ef50f24, 0xfb121210, 0x948d25b6, 0x961f4894)
  {
    hide Schedule, Rounds, Load, InitialHash, Scheduled, Stepped;
    var w := seq(64, t requires 0 <= t < 64 => Schedule(block, t));
    var vs := seq(65, t requires 0 <= t < 65 => Rounds(v, block, t));
    NoRounds(v, block);
    Initial(v);
    Listed(v, block, w, vs);
    AllWords(block, w);
    Rounds0(vs, w);
    Rounds1(vs, w);
    Rounds2(vs, w);
    Rounds3(vs, w);
    Rounds4(vs, w);
    Rounds5(vs, w);
    Rounds6(vs, w);
    Rounds7(vs, w);
  }

  // -------------------------------------------------------------------------- the digest

  lemma Added(h: seq<Word>)
    requires h == InitialHash()
    ensures Feed(h, Vars(0x506e3058, 0xd39a2165, 0x04d24d6c, 0xb85e2ce9, 0x5ef50f24, 0xfb121210, 0x948d25b6, 0x961f4894)) ==
            [0xba7816bf, 0x8f01cfea, 0x414140de, 0x5dae2223, 0xb00361a3, 0x96177a9c, 0xb410ff61, 0xf20015ad]
  {}

  lemma Compressed(block: seq<Byte>)
    requires OneBlock(block)
    ensures Compress(InitialHash(), block) ==
            [0xba7816bf, 0x8f01cfea, 0x414140de, 0x5dae2223, 0xb00361a3, 0x96177a9c, 0xb410ff61, 0xf20015ad]
  {
    hide Schedule, Rounds, Load, Feed, InitialHash, OneBlock;
    AllRounds(Load(InitialHash()), block);
    Added(InitialHash());
  }

  lemma WordBytes0()
    ensures WordByte(0xba7816bf, 0) == 0xba && WordByte(0xba7816bf, 1) == 0x78 && WordByte(0xba7816bf, 2) == 0x16
    ensures WordByte(0xba7816bf, 3) == 0xbf
  {}

  lemma WordBytes1()
    ensures WordByte(0x8f01cfea, 0) == 0x8f && WordByte(0x8f01cfea, 1) == 0x01 && WordByte(0x8f01cfea, 2) == 0xcf
    ensures WordByte(0x8f01cfea, 3) == 0xea
  {}

  lemma WordBytes2()
    ensures WordByte(0x414140de, 0) == 0x41 && WordByte(0x414140de, 1) == 0x41 && WordByte(0x414140de, 2) == 0x40
    ensures WordByte(0x414140de, 3) == 0xde
  {}

  lemma WordBytes3()
    ensures WordByte(0x5dae2223, 0) == 0x5d && WordByte(0x5dae2223, 1) == 0xae && WordByte(0x5dae2223, 2) == 0x22
    ensures WordByte(0x5dae2223, 3) == 0x23
  {}

  lemma WordBytes4()
    ensures WordByte(0xb00361a3, 0) == 0xb0 && WordByte(0xb00361a3, 1) == 0x03 && WordByte(0xb00361a3, 2) == 0x61
    ensures WordByte(0xb00361a3, 3) == 0xa3
  {}

  lemma WordBytes5()
    ensures WordByte(0x96177a9c, 0) == 0x96 && WordByte(0x96177a9c, 1) == 0x17 && WordByte(0x96177a9c, 2) == 0x7a
    ensures WordByte(0x96177a9c, 3) == 0x9c
  {}

  lemma WordBytes6()
    ensures WordByte(0xb410ff61, 0) == 0xb4 && WordByte(0xb410ff61, 1) == 0x10 && WordByte(0xb410ff61, 2) == 0xff
    ensures WordByte(0xb410ff61, 3) == 0x61
  {}

  lemma WordBytes7()
    ensures WordByte(0xf20015ad, 0) == 0xf2 && WordByte(0xf20015ad, 1) == 0x00 && WordByte(0xf20015ad, 2) == 0x15
    ensures WordByte(0xf20015ad, 3) == 0xad
  {}

  lemma DigestBytes(h: seq<Word>)
    requires h == [0xba7816bf, 0x8f01cfea, 0x414140de, 0x5dae2223, 0xb00361a3, 0x96177a9c, 0xb410ff61, 0xf20015ad]
    ensures HashBytes(h) ==
            [0xba, 0x78, 0x16, 0xbf, 0x8f, 0x01, 0xcf, 0xea, 0x41, 0x41, 0x40, 0xde, 0x5d, 0xae, 0x22, 0x23,
             0xb0, 0x03, 0x61, 0xa3, 0x96, 0x17, 0x7a, 0x9c, 0xb4, 0x10, 0xff, 0x61, 0xf2, 0x00, 0x15, 0xad]
  {
    hide WordByte;
    WordBytes0();
    WordBytes1();
    WordBytes2();
    WordBytes3();
    WordBytes4();
    WordBytes5();
    WordBytes6();
    WordBytes7();
  }

  /** The digest of "abc". */
  lemma DigestOfAbc()
    ensures Digest(ABC) ==
            [0xba, 0x78, 0x16, 0xbf, 0x8f, 0x01, 0xcf, 0xea, 0x41, 0x41, 0x40, 0xde, 0x5d, 0xae, 0x22, 0x23,
             0xb0, 0x03, 0x61, 0xa3, 0x96, 0x17, 0x7a, 0x9c, 0xb4, 0x10, 0xff, 0x61, 0xf2, 0x00, 0x15, 0xad]
  {
    hide Pad, Compress, HashBytes, InitialHash, OneBlock;
    PaddedAbc();
    var p := Pad(ABC);
    assert |p| == 64 && p[0..64] == p;
    ChainStart(p);
    ChainStep(p, 0);
    Compressed(p);
    DigestBytes(Chain(p, 1));
  }
}
