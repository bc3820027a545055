/**
 The first example of the standard, the message "abc", from the definitions of module Fips180: the message
 schedule, the working variables and the digest, as the standard's example lists them.
 */
module Sha256Example {
  import opened Bytes
  import opened Fips180

  /** The one block of the padded message: 24 bits. */
  function Block(): (b: seq<Byte>)
    ensures |b| == 64
  {
    [0x61, 0x62, 0x63, 0x80] + Zeros(59) + [0x18]
  }

  lemma {:induction false} NothingBigEndian(n: nat)
    ensures BigEndian(0, n) == Zeros(n)
  {
    if n > 0 {
      NothingBigEndian(n - 1);
    }
  }

  lemma PaddedAbc()
    ensures Pad([0x61, 0x62, 0x63]) == Block()
  {
    assert ZeroBytes(3) == 52;
    NothingBigEndian(7);
    assert BigEndian(24, 8) == Zeros(7) + [0x18];
    hide BigEndian;
    assert Zeros(52) + Zeros(7) == Zeros(59);
  }

  // ---------------------------------------------------------------- the message schedule

  function NextWord(w2: Word, w7: Word, w15: Word, w16: Word): Word {
    Sum4(SmallSigma1(w2), w7, SmallSigma0(w15), w16)
  }

  function W(t: nat): Word
    requires t < 64
  {
    Schedule(Block(), t)
  }

  lemma WordAt(t: nat)
    requires 16 <= t < 64
    ensures W(t) == NextWord(W(t - 2), W(t - 7), W(t - 15), W(t - 16))
  {
  }

  datatype Eight = Eight(w0: Word, w1: Word, w2: Word, w3: Word, w4: Word, w5: Word, w6: Word, w7: Word)

  function WordsFrom(t: nat): Eight
    requires t <= 56
  {
    Eight(W(t), W(t + 1), W(t + 2), W(t + 3), W(t + 4), W(t + 5), W(t + 6), W(t + 7))
  }

  /** The words `x` and `y` are followed by the words `r`. */
  predicate Follow(x: Eight, y: Eight, r: Eight) {
    && NextWord(y.w6, y.w1, x.w1, x.w0) == r.w0 && NextWord(y.w7, y.w2, x.w2, x.w1) == r.w1
    && NextWord(r.w0, y.w3, x.w3, x.w2) == r.w2 && NextWord(r.w1, y.w4, x.w4, x.w3) == r.w3
    && NextWord(r.w2, y.w5, x.w5, x.w4) == r.w4 && NextWord(r.w3, y.w6, x.w6, x.w5) == r.w5
    && NextWord(r.w4, y.w7, x.w7, x.w6) == r.w6 && NextWord(r.w5, r.w0, y.w0, x.w7) == r.w7
  }

  lemma EightMoreWords(t: nat, x: Eight, y: Eight, r: Eight)
    requires t <= 40
    ensures WordsFrom(t) == x && WordsFrom(t + 8) == y && Follow(x, y, r) ==> WordsFrom(t + 16) == r
  {
    hide W, NextWord;
    WordAt(t + 16); WordAt(t + 17); WordAt(t + 18); WordAt(t + 19);
    WordAt(t + 20); WordAt(t + 21); WordAt(t + 22); WordAt(t + 23);
  }

  lemma FirstWords(t: nat)
    requires t == 0
    ensures WordsFrom(t) == Eight(0x61626380, 0x00000000, 0x00000000, 0x00000000, 0x00000000, 0x00000000, 0x00000000, 0x00000000)
    ensures WordsFrom(t + 8) == Eight(0x00000000, 0x00000000, 0x00000000, 0x00000000, 0x00000000, 0x00000000, 0x00000000, 0x00000018)
  {
  }

  lemma Follow16()
    ensures Follow(Eight(0x61626380, 0x00000000, 0x00000000, 0x00000000, 0x00000000, 0x00000000, 0x00000000, 0x00000000),
                   Eight(0x00000000, 0x00000000, 0x00000000, 0x00000000, 0x00000000, 0x00000000, 0x00000000, 0x00000018),
                   Eight(0x61626380, 0x000f0000, 0x7da86405, 0x600003c6, 0x3e9d7b78, 0x0183fc00, 0x12dcbfdb, 0xe2e2c38e))
  {
  }

  lemma Follow24()
    ensures Follow(Eight(0x00000000, 0x00000000, 0x00000000, 0x00000000, 0x00000000, 0x00000000, 0x00000000, 0x00000018),
                   Eight(0x61626380, 0x000f0000, 0x7da86405, 0x600003c6, 0x3e9d7b78, 0x0183fc00, 0x12dcbfdb, 0xe2e2c38e),
                   Eight(0xc8215c1a, 0xb73679a2, 0xe5bc3909, 0x32663c5b, 0x9d209d67, 0xec8726cb, 0x702138a4, 0xd3b7973b))
  {
  }

  lemma Follow32()
    ensures Follow(Eight(0x61626380, 0x000f0000, 0x7da86405, 0x600003c6, 0x3e9d7b78, 0x0183fc00, 0x12dcbfdb, 0xe2e2c38e),
                   Eight(0xc8215c1a, 0xb73679a2, 0xe5bc3909, 0x32663c5b, 0x9d209d67, 0xec8726cb, 0x702138a4, 0xd3b7973b),
                   Eight(0x93f5997f, 0x3b68ba73, 0xaff4ffc1, 0xf10a5c62, 0x0a8b3996, 0x72af830a, 0x9409e33e, 0x24641522))
  {
  }

  lemma Follow40()
    ensures Follow(Eight(0xc8215c1a, 0xb73679a2, 0xe5bc3909, 0x32663c5b, 0x9d209d67, 0xec8726cb, 0x702138a4, 0xd3b7973b),
                   Eight(0x93f5997f, 0x3b68ba73, 0xaff4ffc1, 0xf10a5c62, 0x0a8b3996, 0x72af830a, 0x9409e33e, 0x24641522),
                   Eight(0x9f47bf94, 0xf0a64f5a, 0x3e246a79, 0x27333ba3, 0x0c4763f2, 0x840abf27, 0x7a290d5d, 0x065c43da))
  {
  }

  lemma Follow48()
    ensures Follow(Eight(0x93f5997f, 0x3b68ba73, 0xaff4ffc1, 0xf10a5c62, 0x0a8b3996, 0x72af830a, 0x9409e33e, 0x24641522),
                   Eight(0x9f47bf94, 0xf0a64f5a, 0x3e246a79, 0x27333ba3, 0x0c4763f2, 0x840abf27, 0x7a290d5d, 0x065c43da),
                   Eight(0xfb3e89cb, 0xcc7617db, 0xb9e66c34, 0xa9993667, 0x84badedd, 0xc21462bc, 0x1487472c, 0xb20f7a99))
  {
  }

  lemma Follow56()
    ensures Follow(Eight(0x9f47bf94, 0xf0a64f5a, 0x3e246a79, 0x27333ba3, 0x0c4763f2, 0x840abf27, 0x7a290d5d, 0x065c43da),
                   Eight(0xfb3e89cb, 0xcc7617db, 0xb9e66c34, 0xa9993667, 0x84badedd, 0xc21462bc, 0x1487472c, 0xb20f7a99),
                   Eight(0xef57b9cd, 0xebe6b238, 0x9fe3095e, 0x78bc8d4b, 0xa43fcf15, 0x668b2ff8, 0xeeaba2cc, 0x12b1edeb))
  {
  }

  // ---------------------------------------------------------------- the rounds

  /** The working variables after some rounds. */
  function After(t: nat): Vars
    requires t <= 64
  {
    Rounds(H0, Block(), t)
  }

  function ConstantsFrom(t: nat): Eight
    requires t <= 56
  {
    Eight(RoundConstant(t), RoundConstant(t + 1), RoundConstant(t + 2), RoundConstant(t + 3),
          RoundConstant(t + 4), RoundConstant(t + 5), RoundConstant(t + 6), RoundConstant(t + 7))
  }

  /** Four rounds lead from `v` to `r`, in which each has left a new `a` and a new `e`. */
  predicate FourRounds(v: Vars, k0: Word, w0: Word, k1: Word, w1: Word, k2: Word, w2: Word, k3: Word, w3: Word, r: Vars) {
    && Round(v, k0, w0) == Vars(r.d, v.a, v.b, v.c, r.h, v.e, v.f, v.g)
    && Round(Vars(r.d, v.a, v.b, v.c, r.h, v.e, v.f, v.g), k1, w1) == Vars(r.c, r.d, v.a, v.b, r.g, r.h, v.e, v.f)
    && Round(Vars(r.c, r.d, v.a, v.b, r.g, r.h, v.e, v.f), k2, w2) == Vars(r.b, r.c, r.d, v.a, r.f, r.g, r.h, v.e)
    && Round(Vars(r.b, r.c, r.d, v.a, r.f, r.g, r.h, v.e), k3, w3) == r
  }

  /** Eight rounds lead from `v` by way of `m` to `r`. */
  predicate EightRounds(v: Vars, k: Eight, w: Eight, m: Vars, r: Vars) {
    && FourRounds(v, k.w0, w.w0, k.w1, w.w1, k.w2, w.w2, k.w3, w.w3, m)
    && FourRounds(m, k.w4, w.w4, k.w5, w.w5, k.w6, w.w6, k.w7, w.w7, r)
  }

  lemma OneMoreRound(t: nat)
    requires t < 64
    ensures After(t + 1) == Round(After(t), RoundConstant(t), W(t))
  {
  }

  lemma FourMoreRounds(t: nat, r: Vars)
    requires t <= 60
    ensures var lead := FourRounds(After(t), RoundConstant(t), W(t), RoundConstant(t + 1), W(t + 1),
                                   RoundConstant(t + 2), W(t + 2), RoundConstant(t + 3), W(t + 3), r);
            lead ==> After(t + 4) == r
  {
    hide After, Round, RoundConstant, W;
    OneMoreRound(t); OneMoreRound(t + 1); OneMoreRound(t + 2); OneMoreRound(t + 3);
  }

  lemma EightMoreRounds(t: nat, m: Vars, r: Vars)
    requires t <= 56
    ensures EightRounds(After(t), ConstantsFrom(t), WordsFrom(t), m, r) ==> After(t + 8) == r
  {
    hide After, FourRounds, RoundConstant, W;
    FourMoreRounds(t, m);
    FourMoreRounds(t + 4, r);
  }

  lemma Rounds0(t: nat)
    requires t == 0
    ensures After(t) == Vars(0x6a09e667, 0xbb67ae85, 0x3c6ef372, 0xa54ff53a, 0x510e527f, 0x9b05688c, 0x1f83d9ab, 0x5be0cd19)
  {
  }

  lemma Constants0(t: nat)
    requires t == 0
    ensures ConstantsFrom(t) == Eight(0x428a2f98, 0x71374491, 0xb5c0fbcf, 0xe9b5dba5, 0x3956c25b, 0x59f111f1, 0x923f82a4, 0xab1c5ed5)
  {
  }

  lemma Values0()
    ensures EightRounds(Vars(0x6a09e667, 0xbb67ae85, 0x3c6ef372, 0xa54ff53a, 0x510e527f, 0x9b05688c, 0x1f83d9ab, 0x5be0cd19),
                        Eight(0x428a2f98, 0x71374491, 0xb5c0fbcf, 0xe9b5dba5, 0x3956c25b, 0x59f111f1, 0x923f82a4, 0xab1c5ed5),
                        Eight(0x61626380, 0x00000000, 0x00000000, 0x00000000, 0x00000000, 0x00000000, 0x00000000, 0x00000000),
                        Vars(0xd550f666, 0xc8c347a7, 0x5a6ad9ad, 0x5d6aebcd, 0x24e00850, 0xf92939eb, 0x78ce7989, 0xfa2a4622),
                        Vars(0x85a07b5f, 0xe5030380, 0x2b4209f5, 0x04409a6a, 0x0c657a79, 0x9b27a401, 0x714260ad, 0x43ada245))
  {
  }

  lemma Constants8(t: nat)
    requires t == 8
    ensures ConstantsFrom(t) == Eight(0xd807aa98, 0x12835b01, 0x243185be, 0x550c7dc3, 0x72be5d74, 0x80deb1fe, 0x9bdc06a7, 0xc19bf174)
  {
  }

  lemma Values8()
    ensures EightRounds(Vars(0x85a07b5f, 0xe5030380, 0x2b4209f5, 0x04409a6a, 0x0c657a79, 0x9b27a401, 0x714260ad, 0x43ada245),
                        Eight(0xd807aa98, 0x12835b01, 0x243185be, 0x550c7dc3, 0x72be5d74, 0x80deb1fe, 0x9bdc06a7, 0xc19bf174),
                        Eight(0x00000000, 0x00000000, 0x00000000, 0x00000000, 0x00000000, 0x00000000, 0x00000000, 0x00000018),
                        Vars(0xf71fc5a9, 0x4798a3f4, 0x8c87346b, 0x8e04ecb9, 0x816fd6e9, 0x436b23e8, 0x1cc92596, 0x32ca2d8c),
                        Vars(0xb0fa238e, 0xc0645fde, 0xd932eb16, 0x87912990, 0x07590dcd, 0x0b92f20c, 0x745a48de, 0x1e578218))
  {
  }

  lemma Constants16(t: nat)
    requires t == 16
    ensures ConstantsFrom(t) == Eight(0xe49b69c1, 0xefbe4786, 0x0fc19dc6, 0x240ca1cc, 0x2de92c6f, 0x4a7484aa, 0x5cb0a9dc, 0x76f988da)
  {
  }

  lemma Values16()
    ensures EightRounds(Vars(0xb0fa238e, 0xc0645fde, 0xd932eb16, 0x87912990, 0x07590dcd, 0x0b92f20c, 0x745a48de, 0x1e578218),
                        Eight(0xe49b69c1, 0xefbe4786, 0x0fc19dc6, 0x240ca1cc, 0x2de92c6f, 0x4a7484aa, 0x5cb0a9dc, 0x76f988da),
                        Eight(0x61626380, 0x000f0000, 0x7da86405, 0x600003c6, 0x3e9d7b78, 0x0183fc00, 0x12dcbfdb, 0xe2e2c38e),
                        Vars(0xe1f20c33, 0xfe777bbf, 0xc2fbd9d1, 0x21da9a9b, 0xb0638179, 0xcc899961, 0x846ee454, 0x8034229c),
                        Vars(0xc5d53d8d, 0xa7a3623f, 0xc2606d6d, 0x9dc68b63, 0xaa47c347, 0x49f5114a, 0xe1257970, 0x8ada8930))
  {
  }

  lemma Constants24(t: nat)
    requires t == 24
    ensures ConstantsFrom(t) == Eight(0x983e5152, 0xa831c66d, 0xb00327c8, 0xbf597fc7, 0xc6e00bf3, 0xd5a79147, 0x06ca6351, 0x14292967)
  {
  }

  lemma Values24()
    ensures EightRounds(Vars(0xc5d53d8d, 0xa7a3623f, 0xc2606d6d, 0x9dc68b63, 0xaa47c347, 0x49f5114a, 0xe1257970, 0x8ada8930),
                        Eight(0x983e5152, 0xa831c66d, 0xb00327c8, 0xbf597fc7, 0xc6e00bf3, 0xd5a79147, 0x06ca6351, 0x14292967),
                        Eight(0xc8215c1a, 0xb73679a2, 0xe5bc3909, 0x32663c5b, 0x9d209d67, 0xec8726cb, 0x702138a4, 0xd3b7973b),
                        Vars(0x77d37528, 0xb62ec4bc, 0xcde8037d, 0x1c2c2838, 0xedffbff8, 0xc74c6516, 0x14383d8e, 0x2823ef91),
                        Vars(0x73b33bf5, 0xea992a22, 0xa0060b30, 0x363482c9, 0xba591112, 0x0109ab3a, 0xade79437, 0x6112a3b7))
  {
  }

  lemma Constants32(t: nat)
    requires t == 32
    ensures ConstantsFrom(t) == Eight(0x27b70a85, 0x2e1b2138, 0x4d2c6dfc, 0x53380d13, 0x650a7354, 0x766a0abb, 0x81c2c92e, 0x92722c85)
  {
  }

  lemma Values32()
    ensures EightRounds(Vars(0x73b33bf5, 0xea992a22, 0xa0060b30, 0x363482c9, 0xba591112, 0x0109ab3a, 0xade79437, 0x6112a3b7),
                        Eight(0x27b70a85, 0x2e1b2138, 0x4d2c6dfc, 0x53380d13, 0x650a7354, 0x766a0abb, 0x81c2c92e, 0x92722c85),
                        Eight(0x93f5997f, 0x3b68ba73, 0xaff4ffc1, 0xf10a5c62, 0x0a8b3996, 0x72af830a, 0x9409e33e, 0x24641522),
                        Vars(0x65a0cfe4, 0xa9a7738c, 0xfe604df5, 0x98e12507, 0xf4b002d6, 0x085f3833, 0x59249dd3, 0x9cd9f5f6),
                        Vars(0x79ea687a, 0x6dc57a8a, 0x34df1604, 0x41a65cb1, 0x1efbc0a0, 0xf0781bc8, 0xa507a53d, 0x0772a26b))
  {
  }

  lemma Constants40(t: nat)
    requires t == 40
    ensures ConstantsFrom(t) == Eight(0xa2bfe8a1, 0xa81a664b, 0xc24b8b70, 0xc76c51a3, 0xd192e819, 0xd6990624, 0xf40e3585, 0x106aa070)
  {
  }

  lemma Values40()
    ensures EightRounds(Vars(0x79ea687a, 0x6dc57a8a, 0x34df1604, 0x41a65cb1, 0x1efbc0a0, 0xf0781bc8, 0xa507a53d, 0x0772a26b),
                        Eight(0xa2bfe8a1, 0xa81a664b, 0xc24b8b70, 0xc76c51a3, 0xd192e819, 0xd6990624, 0xf40e3585, 0x106aa070),
                        Eight(0x9f47bf94, 0xf0a64f5a, 0x3e246a79, 0x27333ba3, 0x0c4763f2, 0x840abf27, 0x7a290d5d, 0x065c43da),
                        Vars(0x9d4baf93, 0x17aa0dfe, 0xdf46652f, 0xd6670766, 0xfda24c2e, 0xdecd4715, 0x838b2711, 0x26352d63),
                        Vars(0x4172328d, 0xa14c14b0, 0x72ab4b91, 0x26628815, 0xfecf0bc6, 0xd57b94a9, 0xb7755da1, 0xa80f11f0))
  {
  }

  lemma Constants48(t: nat)
    requires t == 48
    ensures ConstantsFrom(t) == Eight(0x19a4c116, 0x1e376c08, 0x2748774c, 0x34b0bcb5, 0x391c0cb3, 0x4ed8aa4a, 0x5b9cca4f, 0x682e6ff3)
  {
  }

  lemma Values48()
    ensures EightRounds(Vars(0x4172328d, 0xa14c14b0, 0x72ab4b91, 0x26628815, 0xfecf0bc6, 0xd57b94a9, 0xb7755da1, 0xa80f11f0),
                        Eight(0x19a4c116, 0x1e376c08, 0x2748774c, 0x34b0bcb5, 0x391c0cb3, 0x4ed8aa4a, 0x5b9cca4f, 0x682e6ff3),
                        Eight(0xfb3e89cb, 0xcc7617db, 0xb9e66c34, 0xa9993667, 0x84badedd, 0xc21462bc, 0x1487472c, 0xb20f7a99),
                        Vars(0x886e7a22, 0x7a0508a1, 0xf11bfaa8, 0x05757ceb, 0x49231c1e, 0x52f1ccf7, 0x6e5c390c, 0xbd714038),
                        Vars(0x38cc9913, 0x3ec45cdb, 0xf5702fdb, 0x101fd28f, 0x54cb266b, 0xe50e1b4f, 0x9f4787c3, 0x529e7d00))
  {
  }

  lemma Constants56(t: nat)
    requires t == 56
    ensures ConstantsFrom(t) == Eight(0x748f82ee, 0x78a5636f, 0x84c87814, 0x8cc70208, 0x90befffa, 0xa4506ceb, 0xbef9a3f7, 0xc67178f2)
  {
  }

  lemma Values56()
    ensures EightRounds(Vars(0x38cc9913, 0x3ec45cdb, 0xf5702fdb, 0x101fd28f, 0x54cb266b, 0xe50e1b4f, 0x9f4787c3, 0x529e7d00),
                        Eight(0x748f82ee, 0x78a5636f, 0x84c87814, 0x8cc70208, 0x90befffa, 0xa4506ceb, 0xbef9a3f7, 0xc67178f2),
                        Eight(0xef57b9cd, 0xebe6b238, 0x9fe3095e, 0x78bc8d4b, 0xa43fcf15, 0x668b2ff8, 0xeeaba2cc, 0x12b1edeb),
                        Vars(0xb6ae8fff, 0xffb70472, 0xc062d46f, 0xfcd1887b, 0xb21bad3d, 0x6d83bfc6, 0x7e44008e, 0x9b5e906c),
                        Vars(0x506e3058, 0xd39a2165, 0x04d24d6c, 0xb85e2ce9, 0x5ef50f24, 0xfb121210, 0x948d25b6, 0x961f4894))
  {
  }

  /** The working variables after 64 rounds on the block. */
  lemma AllRounds(t: nat)
    requires t == 0
    ensures After(t + 64) == Vars(0x506e3058, 0xd39a2165, 0x04d24d6c, 0xb85e2ce9, 0x5ef50f24, 0xfb121210, 0x948d25b6, 0x961f4894)
  {
    hide *;
    FirstWords(t);
    Follow16();
    EightMoreWords(t, Eight(0x61626380, 0x00000000, 0x00000000, 0x00000000, 0x00000000, 0x00000000, 0x00000000, 0x00000000),
                   Eight(0x00000000, 0x00000000, 0x00000000, 0x00000000, 0x00000000, 0x00000000, 0x00000000, 0x00000018),
                   Eight(0x61626380, 0x000f0000, 0x7da86405, 0x600003c6, 0x3e9d7b78, 0x0183fc00, 0x12dcbfdb, 0xe2e2c38e));
    Follow24();
    EightMoreWords(t + 8, Eight(0x00000000, 0x00000000, 0x00000000, 0x00000000, 0x00000000, 0x00000000, 0x00000000, 0x00000018),
                   Eight(0x61626380, 0x000f0000, 0x7da86405, 0x600003c6, 0x3e9d7b78, 0x0183fc00, 0x12dcbfdb, 0xe2e2c38e),
                   Eight(0xc8215c1a, 0xb73679a2, 0xe5bc3909, 0x32663c5b, 0x9d209d67, 0xec8726cb, 0x702138a4, 0xd3b7973b));
    Follow32();
    EightMoreWords(t + 16, Eight(0x61626380, 0x000f0000, 0x7da86405, 0x600003c6, 0x3e9d7b78, 0x0183fc00, 0x12dcbfdb, 0xe2e2c38e),
                   Eight(0xc8215c1a, 0xb73679a2, 0xe5bc3909, 0x32663c5b, 0x9d209d67, 0xec8726cb, 0x702138a4, 0xd3b7973b),
                   Eight(0x93f5997f, 0x3b68ba73, 0xaff4ffc1, 0xf10a5c62, 0x0a8b3996, 0x72af830a, 0x9409e33e, 0x24641522));
    Follow40();
    EightMoreWords(t + 24, Eight(0xc8215c1a, 0xb73679a2, 0xe5bc3909, 0x32663c5b, 0x9d209d67, 0xec8726cb, 0x702138a4, 0xd3b7973b),
                   Eight(0x93f5997f, 0x3b68ba73, 0xaff4ffc1, 0xf10a5c62, 0x0a8b3996, 0x72af830a, 0x9409e33e, 0x24641522),
                   Eight(0x9f47bf94, 0xf0a64f5a, 0x3e246a79, 0x27333ba3, 0x0c4763f2, 0x840abf27, 0x7a290d5d, 0x065c43da));
    Follow48();
    EightMoreWords(t + 32, Eight(0x93f5997f, 0x3b68ba73, 0xaff4ffc1, 0xf10a5c62, 0x0a8b3996, 0x72af830a, 0x9409e33e, 0x24641522),
                   Eight(0x9f47bf94, 0xf0a64f5a, 0x3e246a79, 0x27333ba3, 0x0c4763f2, 0x840abf27, 0x7a290d5d, 0x065c43da),
                   Eight(0xfb3e89cb, 0xcc7617db, 0xb9e66c34, 0xa9993667, 0x84badedd, 0xc21462bc, 0x1487472c, 0xb20f7a99));
    Follow56();
    EightMoreWords(t + 40, Eight(0x9f47bf94, 0xf0a64f5a, 0x3e246a79, 0x27333ba3, 0x0c4763f2, 0x840abf27, 0x7a290d5d, 0x065c43da),
                   Eight(0xfb3e89cb, 0xcc7617db, 0xb9e66c34, 0xa9993667, 0x84badedd, 0xc21462bc, 0x1487472c, 0xb20f7a99),
                   Eight(0xef57b9cd, 0xebe6b238, 0x9fe3095e, 0x78bc8d4b, 0xa43fcf15, 0x668b2ff8, 0xeeaba2cc, 0x12b1edeb));
    Rounds0(t);
    Constants0(t);
    Values0();
    EightMoreRounds(t, Vars(0xd550f666, 0xc8c347a7, 0x5a6ad9ad, 0x5d6aebcd, 0x24e00850, 0xf92939eb, 0x78ce7989, 0xfa2a4622),
                    Vars(0x85a07b5f, 0xe5030380, 0x2b4209f5, 0x04409a6a, 0x0c657a79, 0x9b27a401, 0x714260ad, 0x43ada245));
    Constants8(t + 8);
    Values8();
    EightMoreRounds(t + 8, Vars(0xf71fc5a9, 0x4798a3f4, 0x8c87346b, 0x8e04ecb9, 0x816fd6e9, 0x436b23e8, 0x1cc92596, 0x32ca2d8c),
                    Vars(0xb0fa238e, 0xc0645fde, 0xd932eb16, 0x87912990, 0x07590dcd, 0x0b92f20c, 0x745a48de, 0x1e578218));
    Constants16(t + 16);
    Values16();
    EightMoreRounds(t + 16, Vars(0xe1f20c33, 0xfe777bbf, 0xc2fbd9d1, 0x21da9a9b, 0xb0638179, 0xcc899961, 0x846ee454, 0x8034229c),
                    Vars(0xc5d53d8d, 0xa7a3623f, 0xc2606d6d, 0x9dc68b63, 0xaa47c347, 0x49f5114a, 0xe1257970, 0x8ada8930));
    Constants24(t + 24);
    Values24();
    EightMoreRounds(t + 24, Vars(0x77d37528, 0xb62ec4bc, 0xcde8037d, 0x1c2c2838, 0xedffbff8, 0xc74c6516, 0x14383d8e, 0x2823ef91),
                    Vars(0x73b33bf5, 0xea992a22, 0xa0060b30, 0x363482c9, 0xba591112, 0x0109ab3a, 0xade79437, 0x6112a3b7));
    Constants32(t + 32);
    Values32();
    EightMoreRounds(t + 32, Vars(0x65a0cfe4, 0xa9a7738c, 0xfe604df5, 0x98e12507, 0xf4b002d6, 0x085f3833, 0x59249dd3, 0x9cd9f5f6),
                    Vars(0x79ea687a, 0x6dc57a8a, 0x34df1604, 0x41a65cb1, 0x1efbc0a0, 0xf0781bc8, 0xa507a53d, 0x0772a26b));
    Constants40(t + 40);
    Values40();
    EightMoreRounds(t + 40, Vars(0x9d4baf93, 0x17aa0dfe, 0xdf46652f, 0xd6670766, 0xfda24c2e, 0xdecd4715, 0x838b2711, 0x26352d63),
                    Vars(0x4172328d, 0xa14c14b0, 0x72ab4b91, 0x26628815, 0xfecf0bc6, 0xd57b94a9, 0xb7755da1, 0xa80f11f0));
    Constants48(t + 48);
    Values48();
    EightMoreRounds(t + 48, Vars(0x886e7a22, 0x7a0508a1, 0xf11bfaa8, 0x05757ceb, 0x49231c1e, 0x52f1ccf7, 0x6e5c390c, 0xbd714038),
                    Vars(0x38cc9913, 0x3ec45cdb, 0xf5702fdb, 0x101fd28f, 0x54cb266b, 0xe50e1b4f, 0x9f4787c3, 0x529e7d00));
    Constants56(t + 56);
    Values56();
    EightMoreRounds(t + 56, Vars(0xb6ae8fff, 0xffb70472, 0xc062d46f, 0xfcd1887b, 0xb21bad3d, 0x6d83bfc6, 0x7e44008e, 0x9b5e906c),
                    Vars(0x506e3058, 0xd39a2165, 0x04d24d6c, 0xb85e2ce9, 0x5ef50f24, 0xfb121210, 0x948d25b6, 0x961f4894));
  }

  // ---------------------------------------------------------------- the digest

  lemma AbcCompressed()
    ensures Compress(H0, Block()) ==
            Vars(0xba7816bf, 0x8f01cfea, 0x414140de, 0x5dae2223, 0xb00361a3, 0x96177a9c, 0xb410ff61, 0xf20015ad)
  {
    hide Rounds, Sum2;
    AllRounds(0);
    LastSums();
  }

  lemma LastSums()
    ensures Sum2(0x6a09e667, 0x506e3058) == 0xba7816bf
    ensures Sum2(0xbb67ae85, 0xd39a2165) == 0x8f01cfea
    ensures Sum2(0x3c6ef372, 0x04d24d6c) == 0x414140de
    ensures Sum2(0xa54ff53a, 0xb85e2ce9) == 0x5dae2223
    ensures Sum2(0x510e527f, 0x5ef50f24) == 0xb00361a3
    ensures Sum2(0x9b05688c, 0xfb121210) == 0x96177a9c
    ensures Sum2(0x1f83d9ab, 0x948d25b6) == 0xb410ff61
    ensures Sum2(0x5be0cd19, 0x961f4894) == 0xf20015ad
  {
  }

  lemma WordsOfDigest()
    ensures BytesOfWord(0xba7816bf) == [0xba, 0x78, 0x16, 0xbf]
    ensures BytesOfWord(0x8f01cfea) == [0x8f, 0x01, 0xcf, 0xea]
    ensures BytesOfWord(0x414140de) == [0x41, 0x41, 0x40, 0xde]
    ensures BytesOfWord(0x5dae2223) == [0x5d, 0xae, 0x22, 0x23]
    ensures BytesOfWord(0xb00361a3) == [0xb0, 0x03, 0x61, 0xa3]
    ensures BytesOfWord(0x96177a9c) == [0x96, 0x17, 0x7a, 0x9c]
    ensures BytesOfWord(0xb410ff61) == [0xb4, 0x10, 0xff, 0x61]
    ensures BytesOfWord(0xf20015ad) == [0xf2, 0x00, 0x15, 0xad]
  {
  }

  /** The digest of "abc" is ba7816bf 8f01cfea 414140de 5dae2223 b00361a3 96177a9c b410ff61 f20015ad. */
  lemma AbcDigest()
    ensures Digest([0x61, 0x62, 0x63]) ==
            [0xba, 0x78, 0x16, 0xbf] + [0x8f, 0x01, 0xcf, 0xea] + [0x41, 0x41, 0x40, 0xde] + [0x5d, 0xae, 0x22, 0x23] +
            [0xb0, 0x03, 0x61, 0xa3] + [0x96, 0x17, 0x7a, 0x9c] + [0xb4, 0x10, 0xff, 0x61] + [0xf2, 0x00, 0x15, 0xad]
  {
    PaddedAbc();
    WordsOfDigest();
    AbcCompressed();
    hide Compress, BytesOfWord, Pad;
    assert Block()[0..64] == Block();
    assert CompressBlocks(H0, Block(), 0) == H0;
  }
}
