/**
 * What the definitions of Salsa20/8 come to: rotation as arithmetic, the two rounds as quarterrounds on the columns
 * and rows of a matrix, and the example of section 8 of RFC 7914, a round at a time.
 */
module SalsaKnown {
  import opened Words
  import opened Salsa

  /** The four rotations of a quarterround, in arithmetic modulo 2^32. */
  lemma RotlValue(x: word)
    ensures Rotl(x, 7) == x * 0x80 + x / 0x200_0000
    ensures Rotl(x, 9) == x * 0x200 + x / 0x80_0000
    ensures Rotl(x, 13) == x * 0x2000 + x / 0x8_0000
    ensures Rotl(x, 18) == x * 0x4_0000 + x / 0x4000
  {
    Shift7(x);
    Shift9(x);
    Shift13(x);
    Shift18(x);
  }

  lemma Shift7(x: word)
    ensures (x << 7) | (x >> 25) == x * 0x80 + x / 0x200_0000
  {
  }

  lemma Shift9(x: word)
    ensures (x << 9) | (x >> 23) == x * 0x200 + x / 0x80_0000
  {
  }

  lemma Shift13(x: word)
    ensures (x << 13) | (x >> 19) == x * 0x2000 + x / 0x8_0000
  {
  }

  lemma Shift18(x: word)
    ensures (x << 18) | (x >> 14) == x * 0x4_0000 + x / 0x4000
  {
  }

  /** The columns of the matrix, each from its diagonal word downwards. */
  lemma Columns(x: seq<word>)
    requires |x| == 16
    ensures var y := ColumnRound(x);
            && Quarter(x[0], x[4], x[8], x[12]) == (y[0], y[4], y[8], y[12])
            && Quarter(x[5], x[9], x[13], x[1]) == (y[5], y[9], y[13], y[1])
            && Quarter(x[10], x[14], x[2], x[6]) == (y[10], y[14], y[2], y[6])
            && Quarter(x[15], x[3], x[7], x[11]) == (y[15], y[3], y[7], y[11])
  {
    hide Quarter;
  }

  /** The rows, each from its diagonal word to the right. */
  lemma Rows(x: seq<word>)
    requires |x| == 16
    ensures var y := RowRound(x);
            && Quarter(x[0], x[1], x[2], x[3]) == (y[0], y[1], y[2], y[3])
            && Quarter(x[5], x[6], x[7], x[4]) == (y[5], y[6], y[7], y[4])
            && Quarter(x[10], x[11], x[8], x[9]) == (y[10], y[11], y[8], y[9])
            && Quarter(x[15], x[12], x[13], x[14]) == (y[15], y[12], y[13], y[14])
  {
    hide Quarter;
  }

  // The example of section 8, as little-endian words: the input, the matrix after each round, and the output.

  const X0: seq<word> := [0x219a877e, 0x86c93e4f, 0xe640a97c, 0x268f7141,
                          0x5b55eeba, 0xb5c1618c, 0x1146f80d, 0x1d3bcd6d,
                          0x19f324ee, 0x853d9bdf, 0x4b1e1214, 0x32aac55a,
                          0x291d0276, 0x2948c709, 0x8dc6ebed, 0x5ec2b8b8]
  const X1: seq<word> := [0x08857f83, 0xbc4dffa4, 0x225a0768, 0x90307809,
                          0x0091149f, 0xc3e54d59, 0xd113843e, 0xfb5a4eb0,
                          0x4ecb1eaa, 0xc0727641, 0x6585dfa2, 0x6a7df42b,
                          0xaf742b9d, 0x4ee75de5, 0xbf43fb43, 0x55af2fd9]
  const X2: seq<word> := [0x482665b1, 0xe6b639e8, 0x5528d0b6, 0x7163bf72,
                          0x93580e01, 0x0c50b5fd, 0xea23785c, 0xead125ec,
                          0xf701a95d, 0xd590a7ea, 0x209aedeb, 0x965705b9,
                          0xd6e1a597, 0x6f4dbdbc, 0x53299386, 0x10a42604]
  const X3: seq<word> := [0xb4cf7248, 0xb8e79720, 0x3e130cef, 0x0cf661a1,
                          0x175daa0e, 0xde3bd4f1, 0x5dbd3119, 0xdfde6fd7,
                          0xff1ed7e2, 0x56e75513, 0xd8b882ab, 0x0c781823,
                          0x46dfa758, 0x1f5b9d7a, 0x0c1ab003, 0x0f4f975e]
  const X4: seq<word> := [0xe9e67835, 0x5a0e63c0, 0x85bf1cf2, 0xbce03a58,
                          0x95e02c9d, 0x10a33116, 0x91024ee3, 0xa399c709,
                          0x678d68da, 0x70e69077, 0x3dffe364, 0xc393c734,
                          0xf3fc17d5, 0x8805fb7c, 0x4e709f83, 0x64b0ce84]
  const X5: seq<word> := [0xfbef1227, 0x12c789d1, 0x56808ce8, 0x9eaae64c,
                          0x64a829f3, 0x43dbdd85, 0xd82bca5e, 0x14f0670f,
                          0x7ac93847, 0x282cfb42, 0x60e759d5, 0xaa38b147,
                          0xdfbb4c3b, 0x285d4b0d, 0xcf69bc64, 0x05ea3220]
  const X6: seq<word> := [0x28f2a180, 0x5e3bb01c, 0x03040a5c, 0x69e5ea6b,
                          0x997f9f3c, 0x1c650ad9, 0x9a28760a, 0x1c5778b3,
                          0x89e18946, 0x5055ce7c, 0x3fec3108, 0x20123a83,
                          0x764c0e51, 0x44dda9f5, 0xf8616b01, 0x5632c6dc]
  const X7: seq<word> := [0xb0e98b83, 0x346a63e9, 0x3d22e238, 0x4b6545d0,
                          0x062877f3, 0x1abe5aed, 0x22bcf3e0, 0x2c4e21f0,
                          0xbfd36f18, 0x0008b4c1, 0x678d4e77, 0x4cea3475,
                          0x0aad76ee, 0x9fa29dcd, 0xf232e26c, 0x0fa7223d]
  const X8: seq<word> := [0x7aea9826, 0x1302ca17, 0xe589d7bf, 0xdf5f9ac1,
                          0x25cb5c4a, 0xc7729c16, 0x51d583f0, 0x0bf39b29,
                          0x4e3e14c6, 0x37a92e04, 0x6ca759ea, 0x87eba846,
                          0xe7af226e, 0x332bca23, 0xafa0c137, 0x22cca90f]
  const OUT: seq<word> := [0x9c851fa4, 0x99cc0866, 0xcbca813b, 0x05ef0c02,
                          0x81214b04, 0x7d33fda2, 0x631c7bfd, 0x292f6896,
                          0x683139b4, 0xbce6c9e3, 0xb7c56bfe, 0xba966da0,
                          0x10cc24e4, 0x5c74912c, 0x3d67ad24, 0x818f61c7]

  lemma Round0()
    ensures ColumnRound(X0) == X1
  {
    hide ColumnRound, RowRound;
    assert Quarter(0x219a877e, 0x5b55eeba, 0x19f324ee, 0x291d0276) == (0x08857f83, 0x0091149f, 0x4ecb1eaa, 0xaf742b9d);
    assert Quarter(0xb5c1618c, 0x853d9bdf, 0x2948c709, 0x86c93e4f) == (0xc3e54d59, 0xc0727641, 0x4ee75de5, 0xbc4dffa4);
    assert Quarter(0x4b1e1214, 0x8dc6ebed, 0xe640a97c, 0x1146f80d) == (0x6585dfa2, 0xbf43fb43, 0x225a0768, 0xd113843e);
    assert Quarter(0x5ec2b8b8, 0x268f7141, 0x1d3bcd6d, 0x32aac55a) == (0x55af2fd9, 0x90307809, 0xfb5a4eb0, 0x6a7df42b);
    Columns(X0);
  }

  lemma Round1()
    ensures RowRound(X1) == X2
  {
    hide ColumnRound, RowRound;
    assert Quarter(0x08857f83, 0xbc4dffa4, 0x225a0768, 0x90307809) == (0x482665b1, 0xe6b639e8, 0x5528d0b6, 0x7163bf72);
    assert Quarter(0xc3e54d59, 0xd113843e, 0xfb5a4eb0, 0x0091149f) == (0x0c50b5fd, 0xea23785c, 0xead125ec, 0x93580e01);
    assert Quarter(0x6585dfa2, 0x6a7df42b, 0x4ecb1eaa, 0xc0727641) == (0x209aedeb, 0x965705b9, 0xf701a95d, 0xd590a7ea);
    assert Quarter(0x55af2fd9, 0xaf742b9d, 0x4ee75de5, 0xbf43fb43) == (0x10a42604, 0xd6e1a597, 0x6f4dbdbc, 0x53299386);
    Rows(X1);
  }

  lemma Round2()
    ensures ColumnRound(X2) == X3
  {
    hide ColumnRound, RowRound;
    assert Quarter(0x482665b1, 0x93580e01, 0xf701a95d, 0xd6e1a597) == (0xb4cf7248, 0x175daa0e, 0xff1ed7e2, 0x46dfa758);
    assert Quarter(0x0c50b5fd, 0xd590a7ea, 0x6f4dbdbc, 0xe6b639e8) == (0xde3bd4f1, 0x56e75513, 0x1f5b9d7a, 0xb8e79720);
    assert Quarter(0x209aedeb, 0x53299386, 0x5528d0b6, 0xea23785c) == (0xd8b882ab, 0x0c1ab003, 0x3e130cef, 0x5dbd3119);
    assert Quarter(0x10a42604, 0x7163bf72, 0xead125ec, 0x965705b9) == (0x0f4f975e, 0x0cf661a1, 0xdfde6fd7, 0x0c781823);
    Columns(X2);
  }

  lemma Round3()
    ensures RowRound(X3) == X4
  {
    hide ColumnRound, RowRound;
    assert Quarter(0xb4cf7248, 0xb8e79720, 0x3e130cef, 0x0cf661a1) == (0xe9e67835, 0x5a0e63c0, 0x85bf1cf2, 0xbce03a58);
    assert Quarter(0xde3bd4f1, 0x5dbd3119, 0xdfde6fd7, 0x175daa0e) == (0x10a33116, 0x91024ee3, 0xa399c709, 0x95e02c9d);
    assert Quarter(0xd8b882ab, 0x0c781823, 0xff1ed7e2, 0x56e75513) == (0x3dffe364, 0xc393c734, 0x678d68da, 0x70e69077);
    assert Quarter(0x0f4f975e, 0x46dfa758, 0x1f5b9d7a, 0x0c1ab003) == (0x64b0ce84, 0xf3fc17d5, 0x8805fb7c, 0x4e709f83);
    Rows(X3);
  }

  lemma Round4()
    ensures ColumnRound(X4) == X5
  {
    hide ColumnRound, RowRound;
    assert Quarter(0xe9e67835, 0x95e02c9d, 0x678d68da, 0xf3fc17d5) == (0xfbef1227, 0x64a829f3, 0x7ac93847, 0xdfbb4c3b);
    assert Quarter(0x10a33116, 0x70e69077, 0x8805fb7c, 0x5a0e63c0) == (0x43dbdd85, 0x282cfb42, 0x285d4b0d, 0x12c789d1);
    assert Quarter(0x3dffe364, 0x4e709f83, 0x85bf1cf2, 0x91024ee3) == (0x60e759d5, 0xcf69bc64, 0x56808ce8, 0xd82bca5e);
    assert Quarter(0x64b0ce84, 0xbce03a58, 0xa399c709, 0xc393c734) == (0x05ea3220, 0x9eaae64c, 0x14f0670f, 0xaa38b147);
    Columns(X4);
  }

  lemma Round5()
    ensures RowRound(X5) == X6
  {
    hide ColumnRound, RowRound;
    assert Quarter(0xfbef1227, 0x12c789d1, 0x56808ce8, 0x9eaae64c) == (0x28f2a180, 0x5e3bb01c, 0x03040a5c, 0x69e5ea6b);
    assert Quarter(0x43dbdd85, 0xd82bca5e, 0x14f0670f, 0x64a829f3) == (0x1c650ad9, 0x9a28760a, 0x1c5778b3, 0x997f9f3c);
    assert Quarter(0x60e759d5, 0xaa38b147, 0x7ac93847, 0x282cfb42) == (0x3fec3108, 0x20123a83, 0x89e18946, 0x5055ce7c);
    assert Quarter(0x05ea3220, 0xdfbb4c3b, 0x285d4b0d, 0xcf69bc64) == (0x5632c6dc, 0x764c0e51, 0x44dda9f5, 0xf8616b01);
    Rows(X5);
  }

  lemma Round6()
    ensures ColumnRound(X6) == X7
  {
    hide ColumnRound, RowRound;
    assert Quarter(0x28f2a180, 0x997f9f3c, 0x89e18946, 0x764c0e51) == (0xb0e98b83, 0x062877f3, 0xbfd36f18, 0x0aad76ee);
    assert Quarter(0x1c650ad9, 0x5055ce7c, 0x44dda9f5, 0x5e3bb01c) == (0x1abe5aed, 0x0008b4c1, 0x9fa29dcd, 0x346a63e9);
    assert Quarter(0x3fec3108, 0xf8616b01, 0x03040a5c, 0x9a28760a) == (0x678d4e77, 0xf232e26c, 0x3d22e238, 0x22bcf3e0);
    assert Quarter(0x5632c6dc, 0x69e5ea6b, 0x1c5778b3, 0x20123a83) == (0x0fa7223d, 0x4b6545d0, 0x2c4e21f0, 0x4cea3475);
    Columns(X6);
  }

  lemma Round7()
    ensures RowRound(X7) == X8
  {
    hide ColumnRound, RowRound;
    assert Quarter(0xb0e98b83, 0x346a63e9, 0x3d22e238, 0x4b6545d0) == (0x7aea9826, 0x1302ca17, 0xe589d7bf, 0xdf5f9ac1);
    assert Quarter(0x1abe5aed, 0x22bcf3e0, 0x2c4e21f0, 0x062877f3) == (0xc7729c16, 0x51d583f0, 0x0bf39b29, 0x25cb5c4a);
    assert Quarter(0x678d4e77, 0x4cea3475, 0xbfd36f18, 0x0008b4c1) == (0x6ca759ea, 0x87eba846, 0x4e3e14c6, 0x37a92e04);
    assert Quarter(0x0fa7223d, 0x0aad76ee, 0x9fa29dcd, 0xf232e26c) == (0x22cca90f, 0xe7af226e, 0x332bca23, 0xafa0c137);
    Rows(X7);
  }

  lemma FourDoubles()
    ensures DoubleRounds(X0, 4) == X8
  {
    hide ColumnRound, RowRound;
    Round0(); Round1(); Round2(); Round3(); Round4(); Round5(); Round6(); Round7();
    assert DoubleRounds(X0, 1) == X2;
    assert DoubleRounds(X0, 2) == X4;
    assert DoubleRounds(X0, 3) == X6;
  }

  /** Salsa20/8 of the example's input is its output. */
  lemma SalsaExample(b: seq<word>)
    requires b == X0
    ensures |b| == 16 && Salsa20_8(b) == OUT
  {
    FourDoubles();
    hide DoubleRounds;
    Sums();
    assert Salsa20_8(b) == AddBlocks(b, X8);
  }

  lemma Sums()
    ensures AddBlocks(X0, X8) == OUT
  {
    assert Add(0x219a877e, 0x7aea9826) == 0x9c851fa4 && Add(0x86c93e4f, 0x1302ca17) == 0x99cc0866;
    assert Add(0xe640a97c, 0xe589d7bf) == 0xcbca813b && Add(0x268f7141, 0xdf5f9ac1) == 0x05ef0c02;
    assert Add(0x5b55eeba, 0x25cb5c4a) == 0x81214b04 && Add(0xb5c1618c, 0xc7729c16) == 0x7d33fda2;
    assert Add(0x1146f80d, 0x51d583f0) == 0x631c7bfd && Add(0x1d3bcd6d, 0x0bf39b29) == 0x292f6896;
    assert Add(0x19f324ee, 0x4e3e14c6) == 0x683139b4 && Add(0x853d9bdf, 0x37a92e04) == 0xbce6c9e3;
    assert Add(0x4b1e1214, 0x6ca759ea) == 0xb7c56bfe && Add(0x32aac55a, 0x87eba846) == 0xba966da0;
    assert Add(0x291d0276, 0xe7af226e) == 0x10cc24e4 && Add(0x2948c709, 0x332bca23) == 0x5c74912c;
    assert Add(0x8dc6ebed, 0xafa0c137) == 0x3d67ad24 && Add(0x5ec2b8b8, 0x22cca90f) == 0x818f61c7;
    hide Add;
  }
}
