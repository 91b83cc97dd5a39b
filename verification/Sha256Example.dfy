/** The first example of the standard: the message "abc" is padded to one block. */
module Sha256Example {
  import opened Bytes
  import opened Sha256

  /** Eight words from place t on. */
  ghost predicate At(words: seq<Word>, t: nat, w0: Word, w1: Word, w2: Word, w3: Word,
                     w4: Word, w5: Word, w6: Word, w7: Word) {
    && t + 8 <= |words|
    && words[t] == w0 && words[t + 1] == w1 && words[t + 2] == w2 && words[t + 3] == w3
    && words[t + 4] == w4 && words[t + 5] == w5 && words[t + 6] == w6 && words[t + 7] == w7
  }

  // ----- The message schedule -----

  /** The word at t is made from the ones before it. */
  ghost predicate Follows(words: seq<Word>, t: nat) {
    && 16 <= t < |words|
    && words[t] == ScheduleWord(words[t - 2], words[t - 7], words[t - 15], words[t - 16])
  }

  /** Sixteen words of the block itself, and every later one made from those before it. */
  lemma {:induction false} ScheduleFollows(block: seq<Byte>, n: nat, t: nat)
    requires |block| == 64 && t < n <= 64
    ensures t < 16 ==> Schedule(block, n)[t] ==
                       BigEndianWord(block[4 * t], block[4 * t + 1], block[4 * t + 2], block[4 * t + 3])
    ensures t >= 16 ==> Follows(Schedule(block, n), t)
  {
    hide BigEndianWord, ScheduleWord;
    if t < n - 1 {
      ScheduleFollows(block, n - 1, t);
    }
  }

  lemma Next(words: seq<Word>, t: nat, w2: Word, w7: Word, w15: Word, w16: Word, w: Word)
    requires |words| == 64 && 16 <= t < 64 && Follows(words, t)
    requires words[t - 2] == w2 && words[t - 7] == w7 && words[t - 15] == w15 && words[t - 16] == w16
    requires ScheduleWord(w2, w7, w15, w16) == w
    ensures words[t] == w
  {
  }

  lemma Words16(words: seq<Word>)
    requires |words| == 64 && forall t | 16 <= t < 64 :: Follows(words, t)
    requires At(words, 0, 0x61626380, 0x00000000, 0x00000000, 0x00000000,
                0x00000000, 0x00000000, 0x00000000, 0x00000000)
    requires At(words, 8, 0x00000000, 0x00000000, 0x00000000, 0x00000000,
                0x00000000, 0x00000000, 0x00000000, 0x00000018)
    ensures At(words, 16, 0x61626380, 0x000f0000, 0x7da86405, 0x600003c6,
               0x3e9d7b78, 0x0183fc00, 0x12dcbfdb, 0xe2e2c38e)
    ensures At(words, 24, 0xc8215c1a, 0xb73679a2, 0xe5bc3909, 0x32663c5b,
               0x9d209d67, 0xec8726cb, 0x702138a4, 0xd3b7973b)
  {
    hide Follows;
    Next(words, 16, 0x00000000, 0x00000000, 0x00000000, 0x61626380, 0x61626380);
    Next(words, 17, 0x00000018, 0x00000000, 0x00000000, 0x00000000, 0x000f0000);
    Next(words, 18, 0x61626380, 0x00000000, 0x00000000, 0x00000000, 0x7da86405);
    Next(words, 19, 0x000f0000, 0x00000000, 0x00000000, 0x00000000, 0x600003c6);
    Next(words, 20, 0x7da86405, 0x00000000, 0x00000000, 0x00000000, 0x3e9d7b78);
    Next(words, 21, 0x600003c6, 0x00000000, 0x00000000, 0x00000000, 0x0183fc00);
    Next(words, 22, 0x3e9d7b78, 0x00000018, 0x00000000, 0x00000000, 0x12dcbfdb);
    Next(words, 23, 0x0183fc00, 0x61626380, 0x00000000, 0x00000000, 0xe2e2c38e);
    Next(words, 24, 0x12dcbfdb, 0x000f0000, 0x00000000, 0x00000000, 0xc8215c1a);
    Next(words, 25, 0xe2e2c38e, 0x7da86405, 0x00000000, 0x00000000, 0xb73679a2);
    Next(words, 26, 0xc8215c1a, 0x600003c6, 0x00000000, 0x00000000, 0xe5bc3909);
    Next(words, 27, 0xb73679a2, 0x3e9d7b78, 0x00000000, 0x00000000, 0x32663c5b);
    Next(words, 28, 0xe5bc3909, 0x0183fc00, 0x00000000, 0x00000000, 0x9d209d67);
    Next(words, 29, 0x32663c5b, 0x12dcbfdb, 0x00000000, 0x00000000, 0xec8726cb);
    Next(words, 30, 0x9d209d67, 0xe2e2c38e, 0x00000018, 0x00000000, 0x702138a4);
    Next(words, 31, 0xec8726cb, 0xc8215c1a, 0x61626380, 0x00000018, 0xd3b7973b);
  }

  lemma Words32(words: seq<Word>)
    requires |words| == 64 && forall t | 16 <= t < 64 :: Follows(words, t)
    requires At(words, 16, 0x61626380, 0x000f0000, 0x7da86405, 0x600003c6,
                0x3e9d7b78, 0x0183fc00, 0x12dcbfdb, 0xe2e2c38e)
    requires At(words, 24, 0xc8215c1a, 0xb73679a2, 0xe5bc3909, 0x32663c5b,
                0x9d209d67, 0xec8726cb, 0x702138a4, 0xd3b7973b)
    ensures At(words, 32, 0x93f5997f, 0x3b68ba73, 0xaff4ffc1, 0xf10a5c62,
               0x0a8b3996, 0x72af830a, 0x9409e33e, 0x24641522)
    ensures At(words, 40, 0x9f47bf94, 0xf0a64f5a, 0x3e246a79, 0x27333ba3,
               0x0c4763f2, 0x840abf27, 0x7a290d5d, 0x065c43da)
  {
    hide Follows;
    Next(words, 32, 0x702138a4, 0xb73679a2, 0x000f0000, 0x61626380, 0x93f5997f);
    Next(words, 33, 0xd3b7973b, 0xe5bc3909, 0x7da86405, 0x000f0000, 0x3b68ba73);
    Next(words, 34, 0x93f5997f, 0x32663c5b, 0x600003c6, 0x7da86405, 0xaff4ffc1);
    Next(words, 35, 0x3b68ba73, 0x9d209d67, 0x3e9d7b78, 0x600003c6, 0xf10a5c62);
    Next(words, 36, 0xaff4ffc1, 0xec8726cb, 0x0183fc00, 0x3e9d7b78, 0x0a8b3996);
    Next(words, 37, 0xf10a5c62, 0x702138a4, 0x12dcbfdb, 0x0183fc00, 0x72af830a);
    Next(words, 38, 0x0a8b3996, 0xd3b7973b, 0xe2e2c38e, 0x12dcbfdb, 0x9409e33e);
    Next(words, 39, 0x72af830a, 0x93f5997f, 0xc8215c1a, 0xe2e2c38e, 0x24641522);
    Next(words, 40, 0x9409e33e, 0x3b68ba73, 0xb73679a2, 0xc8215c1a, 0x9f47bf94);
    Next(words, 41, 0x24641522, 0xaff4ffc1, 0xe5bc3909, 0xb73679a2, 0xf0a64f5a);
    Next(words, 42, 0x9f47bf94, 0xf10a5c62, 0x32663c5b, 0xe5bc3909, 0x3e246a79);
    Next(words, 43, 0xf0a64f5a, 0x0a8b3996, 0x9d209d67, 0x32663c5b, 0x27333ba3);
    Next(words, 44, 0x3e246a79, 0x72af830a, 0xec8726cb, 0x9d209d67, 0x0c4763f2);
    Next(words, 45, 0x27333ba3, 0x9409e33e, 0x702138a4, 0xec8726cb, 0x840abf27);
    Next(words, 46, 0x0c4763f2, 0x24641522, 0xd3b7973b, 0x702138a4, 0x7a290d5d);
    Next(words, 47, 0x840abf27, 0x9f47bf94, 0x93f5997f, 0xd3b7973b, 0x065c43da);
  }

  lemma Words48(words: seq<Word>)
    requires |words| == 64 && forall t | 16 <= t < 64 :: Follows(words, t)
    requires At(words, 32, 0x93f5997f, 0x3b68ba73, 0xaff4ffc1, 0xf10a5c62,
                0x0a8b3996, 0x72af830a, 0x9409e33e, 0x24641522)
    requires At(words, 40, 0x9f47bf94, 0xf0a64f5a, 0x3e246a79, 0x27333ba3,
                0x0c4763f2, 0x840abf27, 0x7a290d5d, 0x065c43da)
    ensures At(words, 48, 0xfb3e89cb, 0xcc7617db, 0xb9e66c34, 0xa9993667,
               0x84badedd, 0xc21462bc, 0x1487472c, 0xb20f7a99)
    ensures At(words, 56, 0xef57b9cd, 0xebe6b238, 0x9fe3095e, 0x78bc8d4b,
               0xa43fcf15, 0x668b2ff8, 0xeeaba2cc, 0x12b1edeb)
  {
    hide Follows;
    Next(words, 48, 0x7a290d5d, 0xf0a64f5a, 0x3b68ba73, 0x93f5997f, 0xfb3e89cb);
    Next(words, 49, 0x065c43da, 0x3e246a79, 0xaff4ffc1, 0x3b68ba73, 0xcc7617db);
    Next(words, 50, 0xfb3e89cb, 0x27333ba3, 0xf10a5c62, 0xaff4ffc1, 0xb9e66c34);
    Next(words, 51, 0xcc7617db, 0x0c4763f2, 0x0a8b3996, 0xf10a5c62, 0xa9993667);
    Next(words, 52, 0xb9e66c34, 0x840abf27, 0x72af830a, 0x0a8b3996, 0x84badedd);
    Next(words, 53, 0xa9993667, 0x7a290d5d, 0x9409e33e, 0x72af830a, 0xc21462bc);
    Next(words, 54, 0x84badedd, 0x065c43da, 0x24641522, 0x9409e33e, 0x1487472c);
    Next(words, 55, 0xc21462bc, 0xfb3e89cb, 0x9f47bf94, 0x24641522, 0xb20f7a99);
    Next(words, 56, 0x1487472c, 0xcc7617db, 0xf0a64f5a, 0x9f47bf94, 0xef57b9cd);
    Next(words, 57, 0xb20f7a99, 0xb9e66c34, 0x3e246a79, 0xf0a64f5a, 0xebe6b238);
    Next(words, 58, 0xef57b9cd, 0xa9993667, 0x27333ba3, 0x3e246a79, 0x9fe3095e);
    Next(words, 59, 0xebe6b238, 0x84badedd, 0x0c4763f2, 0x27333ba3, 0x78bc8d4b);
    Next(words, 60, 0x9fe3095e, 0xc21462bc, 0x840abf27, 0x0c4763f2, 0xa43fcf15);
    Next(words, 61, 0x78bc8d4b, 0x1487472c, 0x7a290d5d, 0x840abf27, 0x668b2ff8);
    Next(words, 62, 0xa43fcf15, 0xb20f7a99, 0x065c43da, 0x7a290d5d, 0xeeaba2cc);
    Next(words, 63, 0x668b2ff8, 0xef57b9cd, 0xfb3e89cb, 0x065c43da, 0x12b1edeb);
  }

  // ----- The rounds -----

  /** One round with this constant and this word. */
  lemma One(v: Working, words: seq<Word>, n: nat, k: Word, w: Word, t: Working)
    requires |words| == 64 && n < 64 && Constants()[n] == k && words[n] == w
    requires Round(Rounds(v, words, n), k, w) == t
    ensures Rounds(v, words, n + 1) == t
  {
    hide Round, Constants;
  }

  lemma Constants0()
    ensures At(Constants(), 0, 0x428a2f98, 0x71374491, 0xb5c0fbcf, 0xe9b5dba5,
               0x3956c25b, 0x59f111f1, 0x923f82a4, 0xab1c5ed5)
  {
  }

  lemma Rounds0(v: Working, words: seq<Word>)
    requires |words| == 64 && At(words, 0, 0x61626380, 0x00000000, 0x00000000, 0x00000000,
                                 0x00000000, 0x00000000, 0x00000000, 0x00000000)
    requires Rounds(v, words, 0) ==
      Working(0x6a09e667, 0xbb67ae85, 0x3c6ef372, 0xa54ff53a, 0x510e527f, 0x9b05688c, 0x1f83d9ab, 0x5be0cd19)
    ensures Rounds(v, words, 8) ==
      Working(0x85a07b5f, 0xe5030380, 0x2b4209f5, 0x04409a6a, 0x0c657a79, 0x9b27a401, 0x714260ad, 0x43ada245)
  {
    hide Constants, Rounds;
    Constants0();
    One(v, words, 0, 0x428a2f98, 0x61626380,
        Working(0x5d6aebcd, 0x6a09e667, 0xbb67ae85, 0x3c6ef372, 0xfa2a4622, 0x510e527f, 0x9b05688c, 0x1f83d9ab));
    One(v, words, 1, 0x71374491, 0x00000000,
        Working(0x5a6ad9ad, 0x5d6aebcd, 0x6a09e667, 0xbb67ae85, 0x78ce7989, 0xfa2a4622, 0x510e527f, 0x9b05688c));
    One(v, words, 2, 0xb5c0fbcf, 0x00000000,
        Working(0xc8c347a7, 0x5a6ad9ad, 0x5d6aebcd, 0x6a09e667, 0xf92939eb, 0x78ce7989, 0xfa2a4622, 0x510e527f));
    One(v, words, 3, 0xe9b5dba5, 0x00000000,
        Working(0xd550f666, 0xc8c347a7, 0x5a6ad9ad, 0x5d6aebcd, 0x24e00850, 0xf92939eb, 0x78ce7989, 0xfa2a4622));
    One(v, words, 4, 0x3956c25b, 0x00000000,
        Working(0x04409a6a, 0xd550f666, 0xc8c347a7, 0x5a6ad9ad, 0x43ada245, 0x24e00850, 0xf92939eb, 0x78ce7989));
    One(v, words, 5, 0x59f111f1, 0x00000000,
        Working(0x2b4209f5, 0x04409a6a, 0xd550f666, 0xc8c347a7, 0x714260ad, 0x43ada245, 0x24e00850, 0xf92939eb));
    One(v, words, 6, 0x923f82a4, 0x00000000,
        Working(0xe5030380, 0x2b4209f5, 0x04409a6a, 0xd550f666, 0x9b27a401, 0x714260ad, 0x43ada245, 0x24e00850));
    One(v, words, 7, 0xab1c5ed5, 0x00000000,
        Working(0x85a07b5f, 0xe5030380, 0x2b4209f5, 0x04409a6a, 0x0c657a79, 0x9b27a401, 0x714260ad, 0x43ada245));
  }

  lemma Constants8()
    ensures At(Constants(), 8, 0xd807aa98, 0x12835b01, 0x243185be, 0x550c7dc3,
               0x72be5d74, 0x80deb1fe, 0x9bdc06a7, 0xc19bf174)
  {
  }

  lemma Rounds8(v: Working, words: seq<Word>)
    requires |words| == 64 && At(words, 8, 0x00000000, 0x00000000, 0x00000000, 0x00000000,
                                 0x00000000, 0x00000000, 0x00000000, 0x00000018)
    requires Rounds(v, words, 8) ==
      Working(0x85a07b5f, 0xe5030380, 0x2b4209f5, 0x04409a6a, 0x0c657a79, 0x9b27a401, 0x714260ad, 0x43ada245)
    ensures Rounds(v, words, 16) ==
      Working(0xb0fa238e, 0xc0645fde, 0xd932eb16, 0x87912990, 0x07590dcd, 0x0b92f20c, 0x745a48de, 0x1e578218)
  {
    hide Constants, Rounds;
    Constants8();
    One(v, words, 8, 0xd807aa98, 0x00000000,
        Working(0x8e04ecb9, 0x85a07b5f, 0xe5030380, 0x2b4209f5, 0x32ca2d8c, 0x0c657a79, 0x9b27a401, 0x714260ad));
    One(v, words, 9, 0x12835b01, 0x00000000,
        Working(0x8c87346b, 0x8e04ecb9, 0x85a07b5f, 0xe5030380, 0x1cc92596, 0x32ca2d8c, 0x0c657a79, 0x9b27a401));
    One(v, words, 10, 0x243185be, 0x00000000,
        Working(0x4798a3f4, 0x8c87346b, 0x8e04ecb9, 0x85a07b5f, 0x436b23e8, 0x1cc92596, 0x32ca2d8c, 0x0c657a79));
    One(v, words, 11, 0x550c7dc3, 0x00000000,
        Working(0xf71fc5a9, 0x4798a3f4, 0x8c87346b, 0x8e04ecb9, 0x816fd6e9, 0x436b23e8, 0x1cc92596, 0x32ca2d8c));
    One(v, words, 12, 0x72be5d74, 0x00000000,
        Working(0x87912990, 0xf71fc5a9, 0x4798a3f4, 0x8c87346b, 0x1e578218, 0x816fd6e9, 0x436b23e8, 0x1cc92596));
    One(v, words, 13, 0x80deb1fe, 0x00000000,
        Working(0xd932eb16, 0x87912990, 0xf71fc5a9, 0x4798a3f4, 0x745a48de, 0x1e578218, 0x816fd6e9, 0x436b23e8));
    One(v, words, 14, 0x9bdc06a7, 0x00000000,
        Working(0xc0645fde, 0xd932eb16, 0x87912990, 0xf71fc5a9, 0x0b92f20c, 0x745a48de, 0x1e578218, 0x816fd6e9));
    One(v, words, 15, 0xc19bf174, 0x00000018,
        Working(0xb0fa238e, 0xc0645fde, 0xd932eb16, 0x87912990, 0x07590dcd, 0x0b92f20c, 0x745a48de, 0x1e578218));
  }

  lemma Constants16()
    ensures At(Constants(), 16, 0xe49b69c1, 0xefbe4786, 0x0fc19dc6, 0x240ca1cc,
               0x2de92c6f, 0x4a7484aa, 0x5cb0a9dc, 0x76f988da)
  {
  }

  lemma Rounds16(v: Working, words: seq<Word>)
    requires |words| == 64 && At(words, 16, 0x61626380, 0x000f0000, 0x7da86405, 0x600003c6,
                                 0x3e9d7b78, 0x0183fc00, 0x12dcbfdb, 0xe2e2c38e)
    requires Rounds(v, words, 16) ==
      Working(0xb0fa238e, 0xc0645fde, 0xd932eb16, 0x87912990, 0x07590dcd, 0x0b92f20c, 0x745a48de, 0x1e578218)
    ensures Rounds(v, words, 24) ==
      Working(0xc5d53d8d, 0xa7a3623f, 0xc2606d6d, 0x9dc68b63, 0xaa47c347, 0x49f5114a, 0xe1257970, 0x8ada8930)
  {
    hide Constants, Rounds;
    Constants16();
    One(v, words, 16, 0xe49b69c1, 0x61626380,
        Working(0x21da9a9b, 0xb0fa238e, 0xc0645fde, 0xd932eb16, 0x8034229c, 0x07590dcd, 0x0b92f20c, 0x745a48de));
    One(v, words, 17, 0xefbe4786, 0x000f0000,
        Working(0xc2fbd9d1, 0x21da9a9b, 0xb0fa238e, 0xc0645fde, 0x846ee454, 0x8034229c, 0x07590dcd, 0x0b92f20c));
    One(v, words, 18, 0x0fc19dc6, 0x7da86405,
        Working(0xfe777bbf, 0xc2fbd9d1, 0x21da9a9b, 0xb0fa238e, 0xcc899961, 0x846ee454, 0x8034229c, 0x07590dcd));
    One(v, words, 19, 0x240ca1cc, 0x600003c6,
        Working(0xe1f20c33, 0xfe777bbf, 0xc2fbd9d1, 0x21da9a9b, 0xb0638179, 0xcc899961, 0x846ee454, 0x8034229c));
    One(v, words, 20, 0x2de92c6f, 0x3e9d7b78,
        Working(0x9dc68b63, 0xe1f20c33, 0xfe777bbf, 0xc2fbd9d1, 0x8ada8930, 0xb0638179, 0xcc899961, 0x846ee454));
    One(v, words, 21, 0x4a7484aa, 0x0183fc00,
        Working(0xc2606d6d, 0x9dc68b63, 0xe1f20c33, 0xfe777bbf, 0xe1257970, 0x8ada8930, 0xb0638179, 0xcc899961));
    One(v, words, 22, 0x5cb0a9dc, 0x12dcbfdb,
        Working(0xa7a3623f, 0xc2606d6d, 0x9dc68b63, 0xe1f20c33, 0x49f5114a, 0xe1257970, 0x8ada8930, 0xb0638179));
    One(v, words, 23, 0x76f988da, 0xe2e2c38e,
        Working(0xc5d53d8d, 0xa7a3623f, 0xc2606d6d, 0x9dc68b63, 0xaa47c347, 0x49f5114a, 0xe1257970, 0x8ada8930));
  }

  lemma Constants24()
    ensures At(Constants(), 24, 0x983e5152, 0xa831c66d, 0xb00327c8, 0xbf597fc7,
               0xc6e00bf3, 0xd5a79147, 0x06ca6351, 0x14292967)
  {
  }

  lemma Rounds24(v: Working, words: seq<Word>)
    requires |words| == 64 && At(words, 24, 0xc8215c1a, 0xb73679a2, 0xe5bc3909, 0x32663c5b,
                                 0x9d209d67, 0xec8726cb, 0x702138a4, 0xd3b7973b)
    requires Rounds(v, words, 24) ==
      Working(0xc5d53d8d, 0xa7a3623f, 0xc2606d6d, 0x9dc68b63, 0xaa47c347, 0x49f5114a, 0xe1257970, 0x8ada8930)
    ensures Rounds(v, words, 32) ==
      Working(0x73b33bf5, 0xea992a22, 0xa0060b30, 0x363482c9, 0xba591112, 0x0109ab3a, 0xade79437, 0x6112a3b7)
  {
    hide Constants, Rounds;
    Constants24();
    One(v, words, 24, 0x983e5152, 0xc8215c1a,
        Working(0x1c2c2838, 0xc5d53d8d, 0xa7a3623f, 0xc2606d6d, 0x2823ef91, 0xaa47c347, 0x49f5114a, 0xe1257970));
    One(v, words, 25, 0xa831c66d, 0xb73679a2,
        Working(0xcde8037d, 0x1c2c2838, 0xc5d53d8d, 0xa7a3623f, 0x14383d8e, 0x2823ef91, 0xaa47c347, 0x49f5114a));
    One(v, words, 26, 0xb00327c8, 0xe5bc3909,
        Working(0xb62ec4bc, 0xcde8037d, 0x1c2c2838, 0xc5d53d8d, 0xc74c6516, 0x14383d8e, 0x2823ef91, 0xaa47c347));
    One(v, words, 27, 0xbf597fc7, 0x32663c5b,
        Working(0x77d37528, 0xb62ec4bc, 0xcde8037d, 0x1c2c2838, 0xedffbff8, 0xc74c6516, 0x14383d8e, 0x2823ef91));
    One(v, words, 28, 0xc6e00bf3, 0x9d209d67,
        Working(0x363482c9, 0x77d37528, 0xb62ec4bc, 0xcde8037d, 0x6112a3b7, 0xedffbff8, 0xc74c6516, 0x14383d8e));
    One(v, words, 29, 0xd5a79147, 0xec8726cb,
        Working(0xa0060b30, 0x363482c9, 0x77d37528, 0xb62ec4bc, 0xade79437, 0x6112a3b7, 0xedffbff8, 0xc74c6516));
    One(v, words, 30, 0x06ca6351, 0x702138a4,
        Working(0xea992a22, 0xa0060b30, 0x363482c9, 0x77d37528, 0x0109ab3a, 0xade79437, 0x6112a3b7, 0xedffbff8));
    One(v, words, 31, 0x14292967, 0xd3b7973b,
        Working(0x73b33bf5, 0xea992a22, 0xa0060b30, 0x363482c9, 0xba591112, 0x0109ab3a, 0xade79437, 0x6112a3b7));
  }

  lemma Constants32()
    ensures At(Constants(), 32, 0x27b70a85, 0x2e1b2138, 0x4d2c6dfc, 0x53380d13,
               0x650a7354, 0x766a0abb, 0x81c2c92e, 0x92722c85)
  {
  }

  lemma Rounds32(v: Working, words: seq<Word>)
    requires |words| == 64 && At(words, 32, 0x93f5997f, 0x3b68ba73, 0xaff4ffc1, 0xf10a5c62,
                                 0x0a8b3996, 0x72af830a, 0x9409e33e, 0x24641522)
    requires Rounds(v, words, 32) ==
      Working(0x73b33bf5, 0xea992a22, 0xa0060b30, 0x363482c9, 0xba591112, 0x0109ab3a, 0xade79437, 0x6112a3b7)
    ensures Rounds(v, words, 40) ==
      Working(0x79ea687a, 0x6dc57a8a, 0x34df1604, 0x41a65cb1, 0x1efbc0a0, 0xf0781bc8, 0xa507a53d, 0x0772a26b)
  {
    hide Constants, Rounds;
    Constants32();
    One(v, words, 32, 0x27b70a85, 0x93f5997f,
        Working(0x98e12507, 0x73b33bf5, 0xea992a22, 0xa0060b30, 0x9cd9f5f6, 0xba591112, 0x0109ab3a, 0xade79437));
    One(v, words, 33, 0x2e1b2138, 0x3b68ba73,
        Working(0xfe604df5, 0x98e12507, 0x73b33bf5, 0xea992a22, 0x59249dd3, 0x9cd9f5f6, 0xba591112, 0x0109ab3a));
    One(v, words, 34, 0x4d2c6dfc, 0xaff4ffc1,
        Working(0xa9a7738c, 0xfe604df5, 0x98e12507, 0x73b33bf5, 0x085f3833, 0x59249dd3, 0x9cd9f5f6, 0xba591112));
    One(v, words, 35, 0x53380d13, 0xf10a5c62,
        Working(0x65a0cfe4, 0xa9a7738c, 0xfe604df5, 0x98e12507, 0xf4b002d6, 0x085f3833, 0x59249dd3, 0x9cd9f5f6));
    One(v, words, 36, 0x650a7354, 0x0a8b3996,
        Working(0x41a65cb1, 0x65a0cfe4, 0xa9a7738c, 0xfe604df5, 0x0772a26b, 0xf4b002d6, 0x085f3833, 0x59249dd3));
    One(v, words, 37, 0x766a0abb, 0x72af830a,
        Working(0x34df1604, 0x41a65cb1, 0x65a0cfe4, 0xa9a7738c, 0xa507a53d, 0x0772a26b, 0xf4b002d6, 0x085f3833));
    One(v, words, 38, 0x81c2c92e, 0x9409e33e,
        Working(0x6dc57a8a, 0x34df1604, 0x41a65cb1, 0x65a0cfe4, 0xf0781bc8, 0xa507a53d, 0x0772a26b, 0xf4b002d6));
    One(v, words, 39, 0x92722c85, 0x24641522,
        Working(0x79ea687a, 0x6dc57a8a, 0x34df1604, 0x41a65cb1, 0x1efbc0a0, 0xf0781bc8, 0xa507a53d, 0x0772a26b));
  }

  lemma Constants40()
    ensures At(Constants(), 40, 0xa2bfe8a1, 0xa81a664b, 0xc24b8b70, 0xc76c51a3,
               0xd192e819, 0xd6990624, 0xf40e3585, 0x106aa070)
  {
  }

  lemma Rounds40(v: Working, words: seq<Word>)
    requires |words| == 64 && At(words, 40, 0x9f47bf94, 0xf0a64f5a, 0x3e246a79, 0x27333ba3,
                                 0x0c4763f2, 0x840abf27, 0x7a290d5d, 0x065c43da)
    requires Rounds(v, words, 40) ==
      Working(0x79ea687a, 0x6dc57a8a, 0x34df1604, 0x41a65cb1, 0x1efbc0a0, 0xf0781bc8, 0xa507a53d, 0x0772a26b)
    ensures Rounds(v, words, 48) ==
      Working(0x4172328d, 0xa14c14b0, 0x72ab4b91, 0x26628815, 0xfecf0bc6, 0xd57b94a9, 0xb7755da1, 0xa80f11f0)
  {
    hide Constants, Rounds;
    Constants40();
    One(v, words, 40, 0xa2bfe8a1, 0x9f47bf94,
        Working(0xd6670766, 0x79ea687a, 0x6dc57a8a, 0x34df1604, 0x26352d63, 0x1efbc0a0, 0xf0781bc8, 0xa507a53d));
    One(v, words, 41, 0xa81a664b, 0xf0a64f5a,
        Working(0xdf46652f, 0xd6670766, 0x79ea687a, 0x6dc57a8a, 0x838b2711, 0x26352d63, 0x1efbc0a0, 0xf0781bc8));
    One(v, words, 42, 0xc24b8b70, 0x3e246a79,
        Working(0x17aa0dfe, 0xdf46652f, 0xd6670766, 0x79ea687a, 0xdecd4715, 0x838b2711, 0x26352d63, 0x1efbc0a0));
    One(v, words, 43, 0xc76c51a3, 0x27333ba3,
        Working(0x9d4baf93, 0x17aa0dfe, 0xdf46652f, 0xd6670766, 0xfda24c2e, 0xdecd4715, 0x838b2711, 0x26352d63));
    One(v, words, 44, 0xd192e819, 0x0c4763f2,
        Working(0x26628815, 0x9d4baf93, 0x17aa0dfe, 0xdf46652f, 0xa80f11f0, 0xfda24c2e, 0xdecd4715, 0x838b2711));
    One(v, words, 45, 0xd6990624, 0x840abf27,
        Working(0x72ab4b91, 0x26628815, 0x9d4baf93, 0x17aa0dfe, 0xb7755da1, 0xa80f11f0, 0xfda24c2e, 0xdecd4715));
    One(v, words, 46, 0xf40e3585, 0x7a290d5d,
        Working(0xa14c14b0, 0x72ab4b91, 0x26628815, 0x9d4baf93, 0xd57b94a9, 0xb7755da1, 0xa80f11f0, 0xfda24c2e));
    One(v, words, 47, 0x106aa070, 0x065c43da,
        Working(0x4172328d, 0xa14c14b0, 0x72ab4b91, 0x26628815, 0xfecf0bc6, 0xd57b94a9, 0xb7755da1, 0xa80f11f0));
  }

  lemma Constants48()
    ensures At(Constants(), 48, 0x19a4c116, 0x1e376c08, 0x2748774c, 0x34b0bcb5,
               0x391c0cb3, 0x4ed8aa4a, 0x5b9cca4f, 0x682e6ff3)
  {
  }

  lemma Rounds48(v: Working, words: seq<Word>)
    requires |words| == 64 && At(words, 48, 0xfb3e89cb, 0xcc7617db, 0xb9e66c34, 0xa9993667,
                                 0x84badedd, 0xc21462bc, 0x1487472c, 0xb20f7a99)
    requires Rounds(v, words, 48) ==
      Working(0x4172328d, 0xa14c14b0, 0x72ab4b91, 0x26628815, 0xfecf0bc6, 0xd57b94a9, 0xb7755da1, 0xa80f11f0)
    ensures Rounds(v, words, 56) ==
      Working(0x38cc9913, 0x3ec45cdb, 0xf5702fdb, 0x101fd28f, 0x54cb266b, 0xe50e1b4f, 0x9f4787c3, 0x529e7d00)
  {
    hide Constants, Rounds;
    Constants48();
    One(v, words, 48, 0x19a4c116, 0xfb3e89cb,
        Working(0x05757ceb, 0x4172328d, 0xa14c14b0, 0x72ab4b91, 0xbd714038, 0xfecf0bc6, 0xd57b94a9, 0xb7755da1));
    One(v, words, 49, 0x1e376c08, 0xcc7617db,
        Working(0xf11bfaa8, 0x05757ceb, 0x4172328d, 0xa14c14b0, 0x6e5c390c, 0xbd714038, 0xfecf0bc6, 0xd57b94a9));
    One(v, words, 50, 0x2748774c, 0xb9e66c34,
        Working(0x7a0508a1, 0xf11bfaa8, 0x05757ceb, 0x4172328d, 0x52f1ccf7, 0x6e5c390c, 0xbd714038, 0xfecf0bc6));
    One(v, words, 51, 0x34b0bcb5, 0xa9993667,
        Working(0x886e7a22, 0x7a0508a1, 0xf11bfaa8, 0x05757ceb, 0x49231c1e, 0x52f1ccf7, 0x6e5c390c, 0xbd714038));
    One(v, words, 52, 0x391c0cb3, 0x84badedd,
        Working(0x101fd28f, 0x886e7a22, 0x7a0508a1, 0xf11bfaa8, 0x529e7d00, 0x49231c1e, 0x52f1ccf7, 0x6e5c390c));
    One(v, words, 53, 0x4ed8aa4a, 0xc21462bc,
        Working(0xf5702fdb, 0x101fd28f, 0x886e7a22, 0x7a0508a1, 0x9f4787c3, 0x529e7d00, 0x49231c1e, 0x52f1ccf7));
    One(v, words, 54, 0x5b9cca4f, 0x1487472c,
        Working(0x3ec45cdb, 0xf5702fdb, 0x101fd28f, 0x886e7a22, 0xe50e1b4f, 0x9f4787c3, 0x529e7d00, 0x49231c1e));
    One(v, words, 55, 0x682e6ff3, 0xb20f7a99,
        Working(0x38cc9913, 0x3ec45cdb, 0xf5702fdb, 0x101fd28f, 0x54cb266b, 0xe50e1b4f, 0x9f4787c3, 0x529e7d00));
  }

  lemma Constants56()
    ensures At(Constants(), 56, 0x748f82ee, 0x78a5636f, 0x84c87814, 0x8cc70208,
               0x90befffa, 0xa4506ceb, 0xbef9a3f7, 0xc67178f2)
  {
  }

  lemma Rounds56(v: Working, words: seq<Word>)
    requires |words| == 64 && At(words, 56, 0xef57b9cd, 0xebe6b238, 0x9fe3095e, 0x78bc8d4b,
                                 0xa43fcf15, 0x668b2ff8, 0xeeaba2cc, 0x12b1edeb)
    requires Rounds(v, words, 56) ==
      Working(0x38cc9913, 0x3ec45cdb, 0xf5702fdb, 0x101fd28f, 0x54cb266b, 0xe50e1b4f, 0x9f4787c3, 0x529e7d00)
    ensures Rounds(v, words, 64) ==
      Working(0x506e3058, 0xd39a2165, 0x04d24d6c, 0xb85e2ce9, 0x5ef50f24, 0xfb121210, 0x948d25b6, 0x961f4894)
  {
    hide Constants, Rounds;
    Constants56();
    One(v, words, 56, 0x748f82ee, 0xef57b9cd,
        Working(0xfcd1887b, 0x38cc9913, 0x3ec45cdb, 0xf5702fdb, 0x9b5e906c, 0x54cb266b, 0xe50e1b4f, 0x9f4787c3));
    One(v, words, 57, 0x78a5636f, 0xebe6b238,
        Working(0xc062d46f, 0xfcd1887b, 0x38cc9913, 0x3ec45cdb, 0x7e44008e, 0x9b5e906c, 0x54cb266b, 0xe50e1b4f));
    One(v, words, 58, 0x84c87814, 0x9fe3095e,
        Working(0xffb70472, 0xc062d46f, 0xfcd1887b, 0x38cc9913, 0x6d83bfc6, 0x7e44008e, 0x9b5e906c, 0x54cb266b));
    One(v, words, 59, 0x8cc70208, 0x78bc8d4b,
        Working(0xb6ae8fff, 0xffb70472, 0xc062d46f, 0xfcd1887b, 0xb21bad3d, 0x6d83bfc6, 0x7e44008e, 0x9b5e906c));
    One(v, words, 60, 0x90befffa, 0xa43fcf15,
        Working(0xb85e2ce9, 0xb6ae8fff, 0xffb70472, 0xc062d46f, 0x961f4894, 0xb21bad3d, 0x6d83bfc6, 0x7e44008e));
    One(v, words, 61, 0xa4506ceb, 0x668b2ff8,
        Working(0x04d24d6c, 0xb85e2ce9, 0xb6ae8fff, 0xffb70472, 0x948d25b6, 0x961f4894, 0xb21bad3d, 0x6d83bfc6));
    One(v, words, 62, 0xbef9a3f7, 0xeeaba2cc,
        Working(0xd39a2165, 0x04d24d6c, 0xb85e2ce9, 0xb6ae8fff, 0xfb121210, 0x948d25b6, 0x961f4894, 0xb21bad3d));
    One(v, words, 63, 0xc67178f2, 0x12b1edeb,
        Working(0x506e3058, 0xd39a2165, 0x04d24d6c, 0xb85e2ce9, 0x5ef50f24, 0xfb121210, 0x948d25b6, 0x961f4894));
  }

  // ----- Padding before and reading out behind them -----

  /** The three bytes, the mark, zeros, and the length of 24 bits in the last byte. */
  lemma OneBlock()
    ensures var block := Pad(Ascii("abc"));
            && |block| == 64 && block[0] == 0x61 && block[1] == 0x62 && block[2] == 0x63 && block[3] == 0x80
            && (forall i | 4 <= i < 63 :: block[i] == 0) && block[63] == 24
  {
    hide Zeros, BigEndian64, Ascii, ZeroCount;
    var message := Ascii("abc");
    assert ZeroCount(3) == 52 by { ThreeBytes(); }
    ThreeBytes();
    LengthBytes();
    assert Pad(message) == message + [0x80] + Zeros(52) + [0, 0, 0, 0, 0, 0, 0, 24];
  }

  lemma ThreeBytes()
    ensures Ascii("abc") == [0x61, 0x62, 0x63] && ZeroCount(3) == 52
    ensures |Zeros(52)| == 52 && forall i | 0 <= i < 52 :: Zeros(52)[i] == 0
  {
  }

  lemma LengthBytes()
    ensures BigEndian64(24) == [0, 0, 0, 0, 0, 0, 0, 24]
  {
    LengthMeans(24);
    hide BigEndian64;
  }

  lemma BlockWords(words: seq<Word>)
    requires words == Schedule(Pad(Ascii("abc")), 64)
    ensures At(words, 0, 0x61626380, 0x00000000, 0x00000000, 0x00000000,
               0x00000000, 0x00000000, 0x00000000, 0x00000000)
    ensures At(words, 8, 0x00000000, 0x00000000, 0x00000000, 0x00000000,
               0x00000000, 0x00000000, 0x00000000, 0x00000018)
    ensures forall t | 16 <= t < 64 :: Follows(words, t)
  {
    var block := Pad(Ascii("abc"));
    OneBlock();
    hide Pad, Schedule, Follows;
    forall t | 0 <= t < 64
      ensures t < 16 ==> words[t] ==
                         BigEndianWord(block[4 * t], block[4 * t + 1], block[4 * t + 2], block[4 * t + 3])
      ensures t >= 16 ==> Follows(words, t)
    {
      ScheduleFollows(block, 64, t);
    }
  }

  lemma AllRounds(words: seq<Word>)
    requires words == Schedule(Pad(Ascii("abc")), 64)
    ensures Rounds(Unpack(INITIAL), words, 64) ==
      Working(0x506e3058, 0xd39a2165, 0x04d24d6c, 0xb85e2ce9, 0x5ef50f24, 0xfb121210, 0x948d25b6, 0x961f4894)
  {
    hide Pad, Schedule, Rounds, Follows, Constants, At;
    BlockWords(words);
    Words16(words);
    Words32(words);
    Words48(words);
    var v := Unpack(INITIAL);
    assert Rounds(v, words, 0) == v by { NoRounds(v, words); }
    Rounds0(v, words);
    Rounds8(v, words);
    Rounds16(v, words);
    Rounds24(v, words);
    Rounds32(v, words);
    Rounds40(v, words);
    Rounds48(v, words);
    Rounds56(v, words);
  }

  lemma NoRounds(v: Working, words: seq<Word>)
    requires |words| == 64
    ensures Rounds(v, words, 0) == v
  {
  }

  lemma EndState()
    ensures HashBlocks(Pad(Ascii("abc"))) ==
            [0xba7816bf, 0x8f01cfea, 0x414140de, 0x5dae2223, 0xb00361a3, 0x96177a9c, 0xb410ff61, 0xf20015ad]
  {
    var block := Pad(Ascii("abc"));
    OneBlock();
    var words := Schedule(block, 64);
    AllRounds(words);
    hide Pad, Schedule, Rounds, Ascii;
    assert block[..0] == [] && block[0..] == block;
    NothingHashed();
    NextBlock(block);
  }

  lemma {:induction false} WordOut(state: seq<Word>, n: nat)
    requires n < |state|
    ensures StateBytes(state[..n + 1]) == StateBytes(state[..n]) + WordBytes(state[n])
  {
    hide WordBytes;
    assert state[..n + 1][..n] == state[..n];
  }

  lemma NothingOut()
    ensures StateBytes([]) == []
  {
  }

  lemma {:induction false} EightOut(state: seq<Word>)
    requires |state| == 8
    ensures StateBytes(state) ==
            WordBytes(state[0]) + WordBytes(state[1]) + WordBytes(state[2]) + WordBytes(state[3]) +
            WordBytes(state[4]) + WordBytes(state[5]) + WordBytes(state[6]) + WordBytes(state[7])
  {
    hide WordBytes, StateBytes;
    NothingOut();
    assert state[..0] == [];
    WordOut(state, 0);
    WordOut(state, 1);
    WordOut(state, 2);
    WordOut(state, 3);
    WordOut(state, 4);
    WordOut(state, 5);
    WordOut(state, 6);
    WordOut(state, 7);
    assert state[..8] == state;
  }

  lemma WordsOut()
    ensures WordBytes(0xba7816bf) == [0xba, 0x78, 0x16, 0xbf]
    ensures WordBytes(0x8f01cfea) == [0x8f, 0x01, 0xcf, 0xea]
    ensures WordBytes(0x414140de) == [0x41, 0x41, 0x40, 0xde]
    ensures WordBytes(0x5dae2223) == [0x5d, 0xae, 0x22, 0x23]
    ensures WordBytes(0xb00361a3) == [0xb0, 0x03, 0x61, 0xa3]
    ensures WordBytes(0x96177a9c) == [0x96, 0x17, 0x7a, 0x9c]
    ensures WordBytes(0xb410ff61) == [0xb4, 0x10, 0xff, 0x61]
    ensures WordBytes(0xf20015ad) == [0xf2, 0x00, 0x15, 0xad]
  {
  }

  /** The digest of "abc" is the one that the standard gives. */
  lemma ExampleDigest()
    ensures Digest(Ascii("abc")) == [
                0xba, 0x78, 0x16, 0xbf, 0x8f, 0x01, 0xcf, 0xea, 0x41, 0x41, 0x40, 0xde, 0x5d, 0xae, 0x22, 0x23,
                0xb0, 0x03, 0x61, 0xa3, 0x96, 0x17, 0x7a, 0x9c, 0xb4, 0x10, 0xff, 0x61, 0xf2, 0x00, 0x15, 0xad
              ]
  {
    hide WordBytes, Pad, HashBlocks, StateBytes;
    EndState();
    WordsOut();
    EightOut(HashBlocks(Pad(Ascii("abc"))));
  }
}
