/** The example of section 8 of RFC 7914: the specification of Salsa20/8 gives the published output. */
module SalsaExample {
  import opened Bytes
  import opened Salsa

  // X0 is the input, read as little-endian words; Y and X follow it through the column and the row rounds.

  const X0: seq<word> :=
    [0x219a877e, 0x86c93e4f, 0xe640a97c, 0x268f7141, 0x5b55eeba, 0xb5c1618c, 0x1146f80d, 0x1d3bcd6d,
     0x19f324ee, 0x853d9bdf, 0x4b1e1214, 0x32aac55a, 0x291d0276, 0x2948c709, 0x8dc6ebed, 0x5ec2b8b8]
  const Y0: seq<word> :=
    [0x08857f83, 0xbc4dffa4, 0x225a0768, 0x90307809, 0x0091149f, 0xc3e54d59, 0xd113843e, 0xfb5a4eb0,
     0x4ecb1eaa, 0xc0727641, 0x6585dfa2, 0x6a7df42b, 0xaf742b9d, 0x4ee75de5, 0xbf43fb43, 0x55af2fd9]
  const X1: seq<word> :=
    [0x482665b1, 0xe6b639e8, 0x5528d0b6, 0x7163bf72, 0x93580e01, 0x0c50b5fd, 0xea23785c, 0xead125ec,
     0xf701a95d, 0xd590a7ea, 0x209aedeb, 0x965705b9, 0xd6e1a597, 0x6f4dbdbc, 0x53299386, 0x10a42604]
  const Y1: seq<word> :=
    [0xb4cf7248, 0xb8e79720, 0x3e130cef, 0x0cf661a1, 0x175daa0e, 0xde3bd4f1, 0x5dbd3119, 0xdfde6fd7,
     0xff1ed7e2, 0x56e75513, 0xd8b882ab, 0x0c781823, 0x46dfa758, 0x1f5b9d7a, 0x0c1ab003, 0x0f4f975e]
  const X2: seq<word> :=
    [0xe9e67835, 0x5a0e63c0, 0x85bf1cf2, 0xbce03a58, 0x95e02c9d, 0x10a33116, 0x91024ee3, 0xa399c709,
     0x678d68da, 0x70e69077, 0x3dffe364, 0xc393c734, 0xf3fc17d5, 0x8805fb7c, 0x4e709f83, 0x64b0ce84]
  const Y2: seq<word> :=
    [0xfbef1227, 0x12c789d1, 0x56808ce8, 0x9eaae64c, 0x64a829f3, 0x43dbdd85, 0xd82bca5e, 0x14f0670f,
     0x7ac93847, 0x282cfb42, 0x60e759d5, 0xaa38b147, 0xdfbb4c3b, 0x285d4b0d, 0xcf69bc64, 0x05ea3220]
  const X3: seq<word> :=
    [0x28f2a180, 0x5e3bb01c, 0x03040a5c, 0x69e5ea6b, 0x997f9f3c, 0x1c650ad9, 0x9a28760a, 0x1c5778b3,
     0x89e18946, 0x5055ce7c, 0x3fec3108, 0x20123a83, 0x764c0e51, 0x44dda9f5, 0xf8616b01, 0x5632c6dc]
  const Y3: seq<word> :=
    [0xb0e98b83, 0x346a63e9, 0x3d22e238, 0x4b6545d0, 0x062877f3, 0x1abe5aed, 0x22bcf3e0, 0x2c4e21f0,
     0xbfd36f18, 0x0008b4c1, 0x678d4e77, 0x4cea3475, 0x0aad76ee, 0x9fa29dcd, 0xf232e26c, 0x0fa7223d]
  const X4: seq<word> :=
    [0x7aea9826, 0x1302ca17, 0xe589d7bf, 0xdf5f9ac1, 0x25cb5c4a, 0xc7729c16, 0x51d583f0, 0x0bf39b29,
     0x4e3e14c6, 0x37a92e04, 0x6ca759ea, 0x87eba846, 0xe7af226e, 0x332bca23, 0xafa0c137, 0x22cca90f]
  const OUT: seq<word> :=
    [0x9c851fa4, 0x99cc0866, 0xcbca813b, 0x05ef0c02, 0x81214b04, 0x7d33fda2, 0x631c7bfd, 0x292f6896,
     0x683139b4, 0xbce6c9e3, 0xb7c56bfe, 0xba966da0, 0x10cc24e4, 0x5c74912c, 0x3d67ad24, 0x818f61c7]

  lemma Column0() ensures ColumnRound(X0) == Y0 {}
  lemma Row0() ensures RowRound(Y0) == X1 {}
  lemma Column1() ensures ColumnRound(X1) == Y1 {}
  lemma Row1() ensures RowRound(Y1) == X2 {}
  lemma Column2() ensures ColumnRound(X2) == Y2 {}
  lemma Row2() ensures RowRound(Y2) == X3 {}
  lemma Column3() ensures ColumnRound(X3) == Y3 {}
  lemma Row3() ensures RowRound(Y3) == X4 {}

  lemma Sum()
    ensures AddWords(X0, X4) == OUT
  {
    var s := AddWords(X0, X4);
    assert s[..4] == OUT[..4];
    assert s[4..8] == OUT[4..8];
    assert s[8..12] == OUT[8..12];
    assert s[12..] == OUT[12..];
    assert s == s[..4] + s[4..8] + s[8..12] + s[12..];
  }

  /** The octets that RFC 7914 gives as output, read as little-endian words. */
  lemma ExampleOutput()
    ensures Salsa20_8(X0) == OUT
  {
    hide ColumnRound, RowRound, AddWords;
    Column0(); Row0();
    Column1(); Row1();
    Column2(); Row2();
    Column3(); Row3();
    Sum();
    assert DoubleRounds(X0, 1) == DoubleRound(DoubleRounds(X0, 0));
    assert DoubleRounds(X0, 2) == DoubleRound(DoubleRounds(X0, 1));
    assert DoubleRounds(X0, 3) == DoubleRound(DoubleRounds(X0, 2));
  }
}
