// The digest of "abc", the first example of FIPS 180-4, which the repository's tests promise.
module Sha256Vector {
  import opened ByteStrings
  import opened Sha256

  const ABC: Bytes := [0x61, 0x62, 0x63]

  // The only block: the message, the bit after it, zeros, and its length of 24 bits.
  ghost function AbcBlock(): (b: Bytes)
    ensures |b| == 64
  {
    ABC + [0x80] + Zeros(52) + [0, 0, 0, 0, 0, 0, 0, 24]
  }

  lemma AbcPadded()
    ensures Padded(ABC) == AbcBlock()
  {
    assert Be(24, 8) == Be(0, 7) + [24];
    ZeroBytes(7);
    assert ZeroCount(3) == 52;
  }

  lemma {:induction false} ZeroBytes(n: nat)
    ensures Be(0, n) == Zeros(n)
  {
    if n > 0 { ZeroBytes(n - 1); }
  }

  // ---- its message schedule ----

  ghost function W(t: nat): (w: bv32) { Schedule(AbcBlock(), t + 1)[t] }

  lemma NextWord(t: nat)
    requires t >= 16
    ensures W(t) == Mix(W(t - 16), W(t - 15), W(t - 7), W(t - 2))
  {
    hide Mix, BigEndianWord, AbcBlock;
    var b := AbcBlock();
    SchedulePrefix(b, t - 15, t);
    SchedulePrefix(b, t - 14, t);
    SchedulePrefix(b, t - 6, t);
    SchedulePrefix(b, t - 1, t);
  }

  lemma FirstWord(t: nat)
    requires t < 16
    ensures W(t) == BigEndianWord(AbcBlock(), t)
  {
    hide Mix, BigEndianWord, AbcBlock;
  }

  lemma AbcWords0()
    ensures W(0) == 0x61626380 && W(1) == 0x00000000 && W(2) == 0x00000000 && W(3) == 0x00000000
    ensures W(4) == 0x00000000 && W(5) == 0x00000000 && W(6) == 0x00000000 && W(7) == 0x00000000
    ensures W(8) == 0x00000000 && W(9) == 0x00000000 && W(10) == 0x00000000 && W(11) == 0x00000000
    ensures W(12) == 0x00000000 && W(13) == 0x00000000 && W(14) == 0x00000000 && W(15) == 0x00000018
  {
    hide W, AbcBlock, BigEndianWord;
    forall t | 0 <= t < 16
      ensures W(t) == if t == 0 then 0x61626380 else if t == 15 then 24 else 0
    {
      FirstWord(t);
      BlockWord(t);
    }
  }

  lemma BlockWord(t: nat)
    requires t < 16
    ensures BigEndianWord(AbcBlock(), t) == if t == 0 then 0x61626380 else if t == 15 then 24 else 0
  {
    var b := AbcBlock();
    hide BigEndianWord;
    FirstAndLast(b);
    if 0 < t < 15 { ZeroWord(b, t); }
  }

  lemma FirstAndLast(b: Bytes)
    requires |b| == 64 && b[..4] == ABC + [0x80] && b[60..] == [0, 0, 0, 24]
    ensures BigEndianWord(b, 0) == 0x61626380 && BigEndianWord(b, 15) == 24
  {
    assert b[0] == b[..4][0] && b[1] == b[..4][1] && b[2] == b[..4][2] && b[3] == b[..4][3];
    assert b[60] == b[60..][0] && b[61] == b[60..][1] && b[62] == b[60..][2] && b[63] == b[60..][3];
  }

  lemma ZeroWord(b: Bytes, t: nat)
    requires 4 * t + 4 <= |b| && b[4 * t] == 0 && b[4 * t + 1] == 0 && b[4 * t + 2] == 0 && b[4 * t + 3] == 0
    ensures BigEndianWord(b, t) == 0
  {}

  lemma AbcWords1()
    ensures W(16) == 0x61626380 && W(17) == 0x000f0000 && W(18) == 0x7da86405 && W(19) == 0x600003c6
    ensures W(20) == 0x3e9d7b78 && W(21) == 0x0183fc00 && W(22) == 0x12dcbfdb && W(23) == 0xe2e2c38e
    ensures W(24) == 0xc8215c1a && W(25) == 0xb73679a2 && W(26) == 0xe5bc3909 && W(27) == 0x32663c5b
    ensures W(28) == 0x9d209d67 && W(29) == 0xec8726cb && W(30) == 0x702138a4 && W(31) == 0xd3b7973b
  {
    hide W;
    AbcWords0();
    NextWord(16);
    NextWord(17);
    NextWord(18);
    NextWord(19);
    NextWord(20);
    NextWord(21);
    NextWord(22);
    NextWord(23);
    NextWord(24);
    NextWord(25);
    NextWord(26);
    NextWord(27);
    NextWord(28);
    NextWord(29);
    NextWord(30);
    NextWord(31);
  }

  lemma AbcWords2()
    ensures W(32) == 0x93f5997f && W(33) == 0x3b68ba73 && W(34) == 0xaff4ffc1 && W(35) == 0xf10a5c62
    ensures W(36) == 0x0a8b3996 && W(37) == 0x72af830a && W(38) == 0x9409e33e && W(39) == 0x24641522
    ensures W(40) == 0x9f47bf94 && W(41) == 0xf0a64f5a && W(42) == 0x3e246a79 && W(43) == 0x27333ba3
    ensures W(44) == 0x0c4763f2 && W(45) == 0x840abf27 && W(46) == 0x7a290d5d && W(47) == 0x065c43da
  {
    hide W;
    AbcWords1();
    NextWord(32);
    NextWord(33);
    NextWord(34);
    NextWord(35);
    NextWord(36);
    NextWord(37);
    NextWord(38);
    NextWord(39);
    NextWord(40);
    NextWord(41);
    NextWord(42);
    NextWord(43);
    NextWord(44);
    NextWord(45);
    NextWord(46);
    NextWord(47);
  }

  lemma AbcWords3()
    ensures W(48) == 0xfb3e89cb && W(49) == 0xcc7617db && W(50) == 0xb9e66c34 && W(51) == 0xa9993667
    ensures W(52) == 0x84badedd && W(53) == 0xc21462bc && W(54) == 0x1487472c && W(55) == 0xb20f7a99
    ensures W(56) == 0xef57b9cd && W(57) == 0xebe6b238 && W(58) == 0x9fe3095e && W(59) == 0x78bc8d4b
    ensures W(60) == 0xa43fcf15 && W(61) == 0x668b2ff8 && W(62) == 0xeeaba2cc && W(63) == 0x12b1edeb
  {
    hide W;
    AbcWords2();
    NextWord(48);
    NextWord(49);
    NextWord(50);
    NextWord(51);
    NextWord(52);
    NextWord(53);
    NextWord(54);
    NextWord(55);
    NextWord(56);
    NextWord(57);
    NextWord(58);
    NextWord(59);
    NextWord(60);
    NextWord(61);
    NextWord(62);
    NextWord(63);
  }

  // ---- its rounds ----

  datatype Registers = Registers(a: bv32, b: bv32, c: bv32, d: bv32, e: bv32, f: bv32, g: bv32, h: bv32)
  {
    function State(): (s: State) { [a, b, c, d, e, f, g, h] }
  }

  ghost predicate After(t: nat, r: Registers)
  {
    t <= 64 && Rounds(INITIAL, AbcBlock(), t) == r.State()
  }

  lemma NextRound(t: nat, r: Registers, k: bv32, w: bv32, a: bv32, e: bv32) returns (s: Registers)
    requires t < 64 && After(t, r) && RoundConstant(t) == k && W(t) == w
    requires Round(r.State(), k, w) == [a, r.a, r.b, r.c, e, r.e, r.f, r.g]
    ensures s == Registers(a, r.a, r.b, r.c, e, r.e, r.f, r.g) && After(t + 1, s)
  {
    hide Round, RoundConstant, AbcBlock, Schedule;
    s := Registers(a, r.a, r.b, r.c, e, r.e, r.f, r.g);
  }

  lemma Constants0()
    ensures RoundConstant(0) == 0x428a2f98 && RoundConstant(1) == 0x71374491 && RoundConstant(2) == 0xb5c0fbcf
    ensures RoundConstant(3) == 0xe9b5dba5 && RoundConstant(4) == 0x3956c25b && RoundConstant(5) == 0x59f111f1
    ensures RoundConstant(6) == 0x923f82a4 && RoundConstant(7) == 0xab1c5ed5 && RoundConstant(8) == 0xd807aa98
    ensures RoundConstant(9) == 0x12835b01 && RoundConstant(10) == 0x243185be && RoundConstant(11) == 0x550c7dc3
    ensures RoundConstant(12) == 0x72be5d74 && RoundConstant(13) == 0x80deb1fe && RoundConstant(14) == 0x9bdc06a7
    ensures RoundConstant(15) == 0xc19bf174
  {}

  lemma Constants1()
    ensures RoundConstant(16) == 0xe49b69c1 && RoundConstant(17) == 0xefbe4786 && RoundConstant(18) == 0x0fc19dc6
    ensures RoundConstant(19) == 0x240ca1cc && RoundConstant(20) == 0x2de92c6f && RoundConstant(21) == 0x4a7484aa
    ensures RoundConstant(22) == 0x5cb0a9dc && RoundConstant(23) == 0x76f988da && RoundConstant(24) == 0x983e5152
    ensures RoundConstant(25) == 0xa831c66d && RoundConstant(26) == 0xb00327c8 && RoundConstant(27) == 0xbf597fc7
    ensures RoundConstant(28) == 0xc6e00bf3 && RoundConstant(29) == 0xd5a79147 && RoundConstant(30) == 0x06ca6351
    ensures RoundConstant(31) == 0x14292967
  {}

  lemma Constants2()
    ensures RoundConstant(32) == 0x27b70a85 && RoundConstant(33) == 0x2e1b2138 && RoundConstant(34) == 0x4d2c6dfc
    ensures RoundConstant(35) == 0x53380d13 && RoundConstant(36) == 0x650a7354 && RoundConstant(37) == 0x766a0abb
    ensures RoundConstant(38) == 0x81c2c92e && RoundConstant(39) == 0x92722c85 && RoundConstant(40) == 0xa2bfe8a1
    ensures RoundConstant(41) == 0xa81a664b && RoundConstant(42) == 0xc24b8b70 && RoundConstant(43) == 0xc76c51a3
    ensures RoundConstant(44) == 0xd192e819 && RoundConstant(45) == 0xd6990624 && RoundConstant(46) == 0xf40e3585
    ensures RoundConstant(47) == 0x106aa070
  {}

  lemma Constants3()
    ensures RoundConstant(48) == 0x19a4c116 && RoundConstant(49) == 0x1e376c08 && RoundConstant(50) == 0x2748774c
    ensures RoundConstant(51) == 0x34b0bcb5 && RoundConstant(52) == 0x391c0cb3 && RoundConstant(53) == 0x4ed8aa4a
    ensures RoundConstant(54) == 0x5b9cca4f && RoundConstant(55) == 0x682e6ff3 && RoundConstant(56) == 0x748f82ee
    ensures RoundConstant(57) == 0x78a5636f && RoundConstant(58) == 0x84c87814 && RoundConstant(59) == 0x8cc70208
    ensures RoundConstant(60) == 0x90befffa && RoundConstant(61) == 0xa4506ceb && RoundConstant(62) == 0xbef9a3f7
    ensures RoundConstant(63) == 0xc67178f2
  {}

  lemma AbcStart() returns (r: Registers)
    ensures After(0, r) && r == Registers(
      0x6a09e667, 0xbb67ae85, 0x3c6ef372, 0xa54ff53a, 0x510e527f, 0x9b05688c, 0x1f83d9ab, 0x5be0cd19)
  {
    hide AbcBlock;
    r := Registers(
      0x6a09e667, 0xbb67ae85, 0x3c6ef372, 0xa54ff53a, 0x510e527f, 0x9b05688c, 0x1f83d9ab, 0x5be0cd19);
  }

  lemma AbcRounds16() returns (r: Registers)
    ensures After(16, r) && r == Registers(
      0xb0fa238e, 0xc0645fde, 0xd932eb16, 0x87912990, 0x07590dcd, 0x0b92f20c, 0x745a48de, 0x1e578218)
  {
    hide After, W, RoundConstant;
    AbcWords0();
    Constants0();
    r := AbcStart();
    r := NextRound(0, r, 0x428a2f98, 0x61626380, 0x5d6aebcd, 0xfa2a4622);
    r := NextRound(1, r, 0x71374491, 0x00000000, 0x5a6ad9ad, 0x78ce7989);
    r := NextRound(2, r, 0xb5c0fbcf, 0x00000000, 0xc8c347a7, 0xf92939eb);
    r := NextRound(3, r, 0xe9b5dba5, 0x00000000, 0xd550f666, 0x24e00850);
    r := NextRound(4, r, 0x3956c25b, 0x00000000, 0x04409a6a, 0x43ada245);
    r := NextRound(5, r, 0x59f111f1, 0x00000000, 0x2b4209f5, 0x714260ad);
    r := NextRound(6, r, 0x923f82a4, 0x00000000, 0xe5030380, 0x9b27a401);
    r := NextRound(7, r, 0xab1c5ed5, 0x00000000, 0x85a07b5f, 0x0c657a79);
    r := NextRound(8, r, 0xd807aa98, 0x00000000, 0x8e04ecb9, 0x32ca2d8c);
    r := NextRound(9, r, 0x12835b01, 0x00000000, 0x8c87346b, 0x1cc92596);
    r := NextRound(10, r, 0x243185be, 0x00000000, 0x4798a3f4, 0x436b23e8);
    r := NextRound(11, r, 0x550c7dc3, 0x00000000, 0xf71fc5a9, 0x816fd6e9);
    r := NextRound(12, r, 0x72be5d74, 0x00000000, 0x87912990, 0x1e578218);
    r := NextRound(13, r, 0x80deb1fe, 0x00000000, 0xd932eb16, 0x745a48de);
    r := NextRound(14, r, 0x9bdc06a7, 0x00000000, 0xc0645fde, 0x0b92f20c);
    r := NextRound(15, r, 0xc19bf174, 0x00000018, 0xb0fa238e, 0x07590dcd);
  }

  lemma AbcRounds32() returns (r: Registers)
    ensures After(32, r) && r == Registers(
      0x73b33bf5, 0xea992a22, 0xa0060b30, 0x363482c9, 0xba591112, 0x0109ab3a, 0xade79437, 0x6112a3b7)
  {
    hide After, W, RoundConstant;
    AbcWords1();
    Constants1();
    r := AbcRounds16();
    r := NextRound(16, r, 0xe49b69c1, 0x61626380, 0x21da9a9b, 0x8034229c);
    r := NextRound(17, r, 0xefbe4786, 0x000f0000, 0xc2fbd9d1, 0x846ee454);
    r := NextRound(18, r, 0x0fc19dc6, 0x7da86405, 0xfe777bbf, 0xcc899961);
    r := NextRound(19, r, 0x240ca1cc, 0x600003c6, 0xe1f20c33, 0xb0638179);
    r := NextRound(20, r, 0x2de92c6f, 0x3e9d7b78, 0x9dc68b63, 0x8ada8930);
    r := NextRound(21, r, 0x4a7484aa, 0x0183fc00, 0xc2606d6d, 0xe1257970);
    r := NextRound(22, r, 0x5cb0a9dc, 0x12dcbfdb, 0xa7a3623f, 0x49f5114a);
    r := NextRound(23, r, 0x76f988da, 0xe2e2c38e, 0xc5d53d8d, 0xaa47c347);
    r := NextRound(24, r, 0x983e5152, 0xc8215c1a, 0x1c2c2838, 0x2823ef91);
    r := NextRound(25, r, 0xa831c66d, 0xb73679a2, 0xcde8037d, 0x14383d8e);
    r := NextRound(26, r, 0xb00327c8, 0xe5bc3909, 0xb62ec4bc, 0xc74c6516);
    r := NextRound(27, r, 0xbf597fc7, 0x32663c5b, 0x77d37528, 0xedffbff8);
    r := NextRound(28, r, 0xc6e00bf3, 0x9d209d67, 0x363482c9, 0x6112a3b7);
    r := NextRound(29, r, 0xd5a79147, 0xec8726cb, 0xa0060b30, 0xade79437);
    r := NextRound(30, r, 0x06ca6351, 0x702138a4, 0xea992a22, 0x0109ab3a);
    r := NextRound(31, r, 0x14292967, 0xd3b7973b, 0x73b33bf5, 0xba591112);
  }

  lemma AbcRounds48() returns (r: Registers)
    ensures After(48, r) && r == Registers(
      0x4172328d, 0xa14c14b0, 0x72ab4b91, 0x26628815, 0xfecf0bc6, 0xd57b94a9, 0xb7755da1, 0xa80f11f0)
  {
    hide After, W, RoundConstant;
    AbcWords2();
    Constants2();
    r := AbcRounds32();
    r := NextRound(32, r, 0x27b70a85, 0x93f5997f, 0x98e12507, 0x9cd9f5f6);
    r := NextRound(33, r, 0x2e1b2138, 0x3b68ba73, 0xfe604df5, 0x59249dd3);
    r := NextRound(34, r, 0x4d2c6dfc, 0xaff4ffc1, 0xa9a7738c, 0x085f3833);
    r := NextRound(35, r, 0x53380d13, 0xf10a5c62, 0x65a0cfe4, 0xf4b002d6);
    r := NextRound(36, r, 0x650a7354, 0x0a8b3996, 0x41a65cb1, 0x0772a26b);
    r := NextRound(37, r, 0x766a0abb, 0x72af830a, 0x34df1604, 0xa507a53d);
    r := NextRound(38, r, 0x81c2c92e, 0x9409e33e, 0x6dc57a8a, 0xf0781bc8);
    r := NextRound(39, r, 0x92722c85, 0x24641522, 0x79ea687a, 0x1efbc0a0);
    r := NextRound(40, r, 0xa2bfe8a1, 0x9f47bf94, 0xd6670766, 0x26352d63);
    r := NextRound(41, r, 0xa81a664b, 0xf0a64f5a, 0xdf46652f, 0x838b2711);
    r := NextRound(42, r, 0xc24b8b70, 0x3e246a79, 0x17aa0dfe, 0xdecd4715);
    r := NextRound(43, r, 0xc76c51a3, 0x27333ba3, 0x9d4baf93, 0xfda24c2e);
    r := NextRound(44, r, 0xd192e819, 0x0c4763f2, 0x26628815, 0xa80f11f0);
    r := NextRound(45, r, 0xd6990624, 0x840abf27, 0x72ab4b91, 0xb7755da1);
    r := NextRound(46, r, 0xf40e3585, 0x7a290d5d, 0xa14c14b0, 0xd57b94a9);
    r := NextRound(47, r, 0x106aa070, 0x065c43da, 0x4172328d, 0xfecf0bc6);
  }

  lemma AbcRounds64() returns (r: Registers)
    ensures After(64, r) && r == Registers(
      0x506e3058, 0xd39a2165, 0x04d24d6c, 0xb85e2ce9, 0x5ef50f24, 0xfb121210, 0x948d25b6, 0x961f4894)
  {
    hide After, W, RoundConstant;
    AbcWords3();
    Constants3();
    r := AbcRounds48();
    r := NextRound(48, r, 0x19a4c116, 0xfb3e89cb, 0x05757ceb, 0xbd714038);
    r := NextRound(49, r, 0x1e376c08, 0xcc7617db, 0xf11bfaa8, 0x6e5c390c);
    r := NextRound(50, r, 0x2748774c, 0xb9e66c34, 0x7a0508a1, 0x52f1ccf7);
    r := NextRound(51, r, 0x34b0bcb5, 0xa9993667, 0x886e7a22, 0x49231c1e);
    r := NextRound(52, r, 0x391c0cb3, 0x84badedd, 0x101fd28f, 0x529e7d00);
    r := NextRound(53, r, 0x4ed8aa4a, 0xc21462bc, 0xf5702fdb, 0x9f4787c3);
    r := NextRound(54, r, 0x5b9cca4f, 0x1487472c, 0x3ec45cdb, 0xe50e1b4f);
    r := NextRound(55, r, 0x682e6ff3, 0xb20f7a99, 0x38cc9913, 0x54cb266b);
    r := NextRound(56, r, 0x748f82ee, 0xef57b9cd, 0xfcd1887b, 0x9b5e906c);
    r := NextRound(57, r, 0x78a5636f, 0xebe6b238, 0xc062d46f, 0x7e44008e);
    r := NextRound(58, r, 0x84c87814, 0x9fe3095e, 0xffb70472, 0x6d83bfc6);
    r := NextRound(59, r, 0x8cc70208, 0x78bc8d4b, 0xb6ae8fff, 0xb21bad3d);
    r := NextRound(60, r, 0x90befffa, 0xa43fcf15, 0xb85e2ce9, 0x961f4894);
    r := NextRound(61, r, 0xa4506ceb, 0x668b2ff8, 0x04d24d6c, 0x948d25b6);
    r := NextRound(62, r, 0xbef9a3f7, 0xeeaba2cc, 0xd39a2165, 0xfb121210);
    r := NextRound(63, r, 0xc67178f2, 0x12b1edeb, 0x506e3058, 0x5ef50f24);
  }

  lemma AbcSum()
    ensures AddWords(INITIAL, [
      0x506e3058, 0xd39a2165, 0x04d24d6c, 0xb85e2ce9, 0x5ef50f24, 0xfb121210, 0x948d25b6, 0x961f4894]) == [
      0xba7816bf, 0x8f01cfea, 0x414140de, 0x5dae2223, 0xb00361a3, 0x96177a9c, 0xb410ff61, 0xf20015ad]
  {}

  // ba7816bf 8f01cfea 414140de 5dae2223 b00361a3 96177a9c b410ff61 f20015ad
  lemma AbcDigest()
    ensures Digest(ABC) == WordBytes([
      0xba7816bf, 0x8f01cfea, 0x414140de, 0x5dae2223, 0xb00361a3, 0x96177a9c, 0xb410ff61, 0xf20015ad])
  {
    hide AbcBlock, Padded, WordBytes, Compress;
    AbcPadded();
    OneBlock(AbcBlock());
    AbcCompressed();
  }

  lemma AbcCompressed()
    ensures Compress(INITIAL, AbcBlock()) == [
      0xba7816bf, 0x8f01cfea, 0x414140de, 0x5dae2223, 0xb00361a3, 0x96177a9c, 0xb410ff61, 0xf20015ad]
  {
    hide Rounds, AbcBlock, AddWords;
    var r := AbcRounds64();
    AbcSum();
  }

  lemma OneBlock(b: Bytes)
    requires |b| == 64
    ensures FoldBlocks(INITIAL, b) == Compress(INITIAL, b)
  {
    hide Compress;
    assert b[..64] == b && b[64..] == [];
  }
}
