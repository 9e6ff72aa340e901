/**
  The two lookup tables behind the rolling hash of the delta encoder, entry for
  entry, and the one fact about them that the hash needs: both are linear over
  exclusive or.
*/
module RabinTables {

  /** Table T: the remainder that replaces the eight bits shifted out of the hash (indices below 256). */
  function T(i: bv32): bv32 {
    TRow(i >> 4, i & 15)
  }

  function TRow(r: bv32, j: bv32): bv32 {
    match r
    case 0 => TRow0(j)
    case 1 => TRow1(j)
    case 2 => TRow2(j)
    case 3 => TRow3(j)
    case 4 => TRow4(j)
    case 5 => TRow5(j)
    case 6 => TRow6(j)
    case 7 => TRow7(j)
    case 8 => TRow8(j)
    case 9 => TRow9(j)
    case 10 => TRow10(j)
    case 11 => TRow11(j)
    case 12 => TRow12(j)
    case 13 => TRow13(j)
    case 14 => TRow14(j)
    case _ => TRow15(j)
  }

  // The first column of table T.
  function TColumn(r: bv32): bv32 {
    match r
    case 0 => 0x00000000 case 1 => 0x18fd9e54 case 2 => 0x31fb3ca8 case 3 => 0x2906a2fc
    case 4 => 0x63f67950 case 5 => 0x7b0be704 case 6 => 0x520d45f8 case 7 => 0x4af0dbac
    case 8 => 0x6cb54671 case 9 => 0x7448d825 case 10 => 0x5d4e7ad9 case 11 => 0x45b3e48d
    case 12 => 0x0f433f21 case 13 => 0x17bea175 case 14 => 0x3eb80389 case _ => 0x26459ddd
  }

  /** Table U: what a byte contributes to the hash fifteen bytes later (indices below 256). */
  function U(i: bv32): bv32 {
    URow(i >> 4, i & 15)
  }

  function URow(r: bv32, j: bv32): bv32 {
    match r
    case 0 => URow0(j)
    case 1 => URow1(j)
    case 2 => URow2(j)
    case 3 => URow3(j)
    case 4 => URow4(j)
    case 5 => URow5(j)
    case 6 => URow6(j)
    case 7 => URow7(j)
    case 8 => URow8(j)
    case 9 => URow9(j)
    case 10 => URow10(j)
    case 11 => URow11(j)
    case 12 => URow12(j)
    case 13 => URow13(j)
    case 14 => URow14(j)
    case _ => URow15(j)
  }

  // The first column of table U.
  function UColumn(r: bv32): bv32 {
    match r
    case 0 => 0x00000000 case 1 => 0x1cf9751c case 2 => 0x39f2ea38 case 3 => 0x250b9f24
    case 4 => 0x73e5d470 case 5 => 0x6f1ca16c case 6 => 0x4a173e48 case 7 => 0x56ee4b54
    case 8 => 0x4c921c31 case 9 => 0x506b692d case 10 => 0x7560f609 case 11 => 0x69998315
    case 12 => 0x3f77c841 case 13 => 0x238ebd5d case 14 => 0x06852279 case _ => 0x1a7c5765
  }

  function TRow0(j: bv32): bv32 {
    match j
    case 0 => 0x00000000 case 1 => 0xab59b4d1 case 2 => 0x56b369a2 case 3 => 0xfdeadd73
    case 4 => 0x063f6795 case 5 => 0xad66d344 case 6 => 0x508c0e37 case 7 => 0xfbd5bae6
    case 8 => 0x0c7ecf2a case 9 => 0xa7277bfb case 10 => 0x5acda688 case 11 => 0xf1941259
    case 12 => 0x0a41a8bf case 13 => 0xa1181c6e case 14 => 0x5cf2c11d case _ => 0xf7ab75cc
  }

  function TRow1(j: bv32): bv32 {
    match j
    case 0 => 0x18fd9e54 case 1 => 0xb3a42a85 case 2 => 0x4e4ef7f6 case 3 => 0xe5174327
    case 4 => 0x1ec2f9c1 case 5 => 0xb59b4d10 case 6 => 0x48719063 case 7 => 0xe32824b2
    case 8 => 0x1483517e case 9 => 0xbfdae5af case 10 => 0x423038dc case 11 => 0xe9698c0d
    case 12 => 0x12bc36eb case 13 => 0xb9e5823a case 14 => 0x440f5f49 case _ => 0xef56eb98
  }

  function TRow2(j: bv32): bv32 {
    match j
    case 0 => 0x31fb3ca8 case 1 => 0x9aa28879 case 2 => 0x6748550a case 3 => 0xcc11e1db
    case 4 => 0x37c45b3d case 5 => 0x9c9defec case 6 => 0x6177329f case 7 => 0xca2e864e
    case 8 => 0x3d85f382 case 9 => 0x96dc4753 case 10 => 0x6b369a20 case 11 => 0xc06f2ef1
    case 12 => 0x3bba9417 case 13 => 0x90e320c6 case 14 => 0x6d09fdb5 case _ => 0xc6504964
  }

  function TRow3(j: bv32): bv32 {
    match j
    case 0 => 0x2906a2fc case 1 => 0x825f162d case 2 => 0x7fb5cb5e case 3 => 0xd4ec7f8f
    case 4 => 0x2f39c569 case 5 => 0x846071b8 case 6 => 0x798aaccb case 7 => 0xd2d3181a
    case 8 => 0x25786dd6 case 9 => 0x8e21d907 case 10 => 0x73cb0474 case 11 => 0xd892b0a5
    case 12 => 0x23470a43 case 13 => 0x881ebe92 case 14 => 0x75f463e1 case _ => 0xdeadd730
  }

  function TRow4(j: bv32): bv32 {
    match j
    case 0 => 0x63f67950 case 1 => 0xc8afcd81 case 2 => 0x354510f2 case 3 => 0x9e1ca423
    case 4 => 0x65c91ec5 case 5 => 0xce90aa14 case 6 => 0x337a7767 case 7 => 0x9823c3b6
    case 8 => 0x6f88b67a case 9 => 0xc4d102ab case 10 => 0x393bdfd8 case 11 => 0x92626b09
    case 12 => 0x69b7d1ef case 13 => 0xc2ee653e case 14 => 0x3f04b84d case _ => 0x945d0c9c
  }

  function TRow5(j: bv32): bv32 {
    match j
    case 0 => 0x7b0be704 case 1 => 0xd05253d5 case 2 => 0x2db88ea6 case 3 => 0x86e13a77
    case 4 => 0x7d348091 case 5 => 0xd66d3440 case 6 => 0x2b87e933 case 7 => 0x80de5de2
    case 8 => 0x7775282e case 9 => 0xdc2c9cff case 10 => 0x21c6418c case 11 => 0x8a9ff55d
    case 12 => 0x714a4fbb case 13 => 0xda13fb6a case 14 => 0x27f92619 case _ => 0x8ca092c8
  }

  function TRow6(j: bv32): bv32 {
    match j
    case 0 => 0x520d45f8 case 1 => 0xf954f129 case 2 => 0x04be2c5a case 3 => 0xafe7988b
    case 4 => 0x5432226d case 5 => 0xff6b96bc case 6 => 0x02814bcf case 7 => 0xa9d8ff1e
    case 8 => 0x5e738ad2 case 9 => 0xf52a3e03 case 10 => 0x08c0e370 case 11 => 0xa39957a1
    case 12 => 0x584ced47 case 13 => 0xf3155996 case 14 => 0x0eff84e5 case _ => 0xa5a63034
  }

  function TRow7(j: bv32): bv32 {
    match j
    case 0 => 0x4af0dbac case 1 => 0xe1a96f7d case 2 => 0x1c43b20e case 3 => 0xb71a06df
    case 4 => 0x4ccfbc39 case 5 => 0xe79608e8 case 6 => 0x1a7cd59b case 7 => 0xb125614a
    case 8 => 0x468e1486 case 9 => 0xedd7a057 case 10 => 0x103d7d24 case 11 => 0xbb64c9f5
    case 12 => 0x40b17313 case 13 => 0xebe8c7c2 case 14 => 0x16021ab1 case _ => 0xbd5bae60
  }

  function TRow8(j: bv32): bv32 {
    match j
    case 0 => 0x6cb54671 case 1 => 0xc7ecf2a0 case 2 => 0x3a062fd3 case 3 => 0x915f9b02
    case 4 => 0x6a8a21e4 case 5 => 0xc1d39535 case 6 => 0x3c394846 case 7 => 0x9760fc97
    case 8 => 0x60cb895b case 9 => 0xcb923d8a case 10 => 0x3678e0f9 case 11 => 0x9d215428
    case 12 => 0x66f4eece case 13 => 0xcdad5a1f case 14 => 0x3047876c case _ => 0x9b1e33bd
  }

  function TRow9(j: bv32): bv32 {
    match j
    case 0 => 0x7448d825 case 1 => 0xdf116cf4 case 2 => 0x22fbb187 case 3 => 0x89a20556
    case 4 => 0x7277bfb0 case 5 => 0xd92e0b61 case 6 => 0x24c4d612 case 7 => 0x8f9d62c3
    case 8 => 0x7836170f case 9 => 0xd36fa3de case 10 => 0x2e857ead case 11 => 0x85dcca7c
    case 12 => 0x7e09709a case 13 => 0xd550c44b case 14 => 0x28ba1938 case _ => 0x83e3ade9
  }

  function TRow10(j: bv32): bv32 {
    match j
    case 0 => 0x5d4e7ad9 case 1 => 0xf617ce08 case 2 => 0x0bfd137b case 3 => 0xa0a4a7aa
    case 4 => 0x5b711d4c case 5 => 0xf028a99d case 6 => 0x0dc274ee case 7 => 0xa69bc03f
    case 8 => 0x5130b5f3 case 9 => 0xfa690122 case 10 => 0x0783dc51 case 11 => 0xacda6880
    case 12 => 0x570fd266 case 13 => 0xfc5666b7 case 14 => 0x01bcbbc4 case _ => 0xaae50f15
  }

  function TRow11(j: bv32): bv32 {
    match j
    case 0 => 0x45b3e48d case 1 => 0xeeea505c case 2 => 0x13008d2f case 3 => 0xb85939fe
    case 4 => 0x438c8318 case 5 => 0xe8d537c9 case 6 => 0x153feaba case 7 => 0xbe665e6b
    case 8 => 0x49cd2ba7 case 9 => 0xe2949f76 case 10 => 0x1f7e4205 case 11 => 0xb427f6d4
    case 12 => 0x4ff24c32 case 13 => 0xe4abf8e3 case 14 => 0x19412590 case _ => 0xb2189141
  }

  function TRow12(j: bv32): bv32 {
    match j
    case 0 => 0x0f433f21 case 1 => 0xa41a8bf0 case 2 => 0x59f05683 case 3 => 0xf2a9e252
    case 4 => 0x097c58b4 case 5 => 0xa225ec65 case 6 => 0x5fcf3116 case 7 => 0xf49685c7
    case 8 => 0x033df00b case 9 => 0xa86444da case 10 => 0x558e99a9 case 11 => 0xfed72d78
    case 12 => 0x0502979e case 13 => 0xae5b234f case 14 => 0x53b1fe3c case _ => 0xf8e84aed
  }

  function TRow13(j: bv32): bv32 {
    match j
    case 0 => 0x17bea175 case 1 => 0xbce715a4 case 2 => 0x410dc8d7 case 3 => 0xea547c06
    case 4 => 0x1181c6e0 case 5 => 0xbad87231 case 6 => 0x4732af42 case 7 => 0xec6b1b93
    case 8 => 0x1bc06e5f case 9 => 0xb099da8e case 10 => 0x4d7307fd case 11 => 0xe62ab32c
    case 12 => 0x1dff09ca case 13 => 0xb6a6bd1b case 14 => 0x4b4c6068 case _ => 0xe015d4b9
  }

  function TRow14(j: bv32): bv32 {
    match j
    case 0 => 0x3eb80389 case 1 => 0x95e1b758 case 2 => 0x680b6a2b case 3 => 0xc352defa
    case 4 => 0x3887641c case 5 => 0x93ded0cd case 6 => 0x6e340dbe case 7 => 0xc56db96f
    case 8 => 0x32c6cca3 case 9 => 0x999f7872 case 10 => 0x6475a501 case 11 => 0xcf2c11d0
    case 12 => 0x34f9ab36 case 13 => 0x9fa01fe7 case 14 => 0x624ac294 case _ => 0xc9137645
  }

  function TRow15(j: bv32): bv32 {
    match j
    case 0 => 0x26459ddd case 1 => 0x8d1c290c case 2 => 0x70f6f47f case 3 => 0xdbaf40ae
    case 4 => 0x207afa48 case 5 => 0x8b234e99 case 6 => 0x76c993ea case 7 => 0xdd90273b
    case 8 => 0x2a3b52f7 case 9 => 0x8162e626 case 10 => 0x7c883b55 case 11 => 0xd7d18f84
    case 12 => 0x2c043562 case 13 => 0x875d81b3 case 14 => 0x7ab75cc0 case _ => 0xd1eee811
  }

  function URow0(j: bv32): bv32 {
    match j
    case 0 => 0x00000000 case 1 => 0x7eb5200d case 2 => 0x5633f4cb case 3 => 0x2886d4c6
    case 4 => 0x073e5d47 case 5 => 0x798b7d4a case 6 => 0x510da98c case 7 => 0x2fb88981
    case 8 => 0x0e7cba8e case 9 => 0x70c99a83 case 10 => 0x584f4e45 case 11 => 0x26fa6e48
    case 12 => 0x0942e7c9 case 13 => 0x77f7c7c4 case 14 => 0x5f711302 case _ => 0x21c4330f
  }

  function URow1(j: bv32): bv32 {
    match j
    case 0 => 0x1cf9751c case 1 => 0x624c5511 case 2 => 0x4aca81d7 case 3 => 0x347fa1da
    case 4 => 0x1bc7285b case 5 => 0x65720856 case 6 => 0x4df4dc90 case 7 => 0x3341fc9d
    case 8 => 0x1285cf92 case 9 => 0x6c30ef9f case 10 => 0x44b63b59 case 11 => 0x3a031b54
    case 12 => 0x15bb92d5 case 13 => 0x6b0eb2d8 case 14 => 0x4388661e case _ => 0x3d3d4613
  }

  function URow2(j: bv32): bv32 {
    match j
    case 0 => 0x39f2ea38 case 1 => 0x4747ca35 case 2 => 0x6fc11ef3 case 3 => 0x11743efe
    case 4 => 0x3eccb77f case 5 => 0x40799772 case 6 => 0x68ff43b4 case 7 => 0x164a63b9
    case 8 => 0x378e50b6 case 9 => 0x493b70bb case 10 => 0x61bda47d case 11 => 0x1f088470
    case 12 => 0x30b00df1 case 13 => 0x4e052dfc case 14 => 0x6683f93a case _ => 0x1836d937
  }

  function URow3(j: bv32): bv32 {
    match j
    case 0 => 0x250b9f24 case 1 => 0x5bbebf29 case 2 => 0x73386bef case 3 => 0x0d8d4be2
    case 4 => 0x2235c263 case 5 => 0x5c80e26e case 6 => 0x740636a8 case 7 => 0x0ab316a5
    case 8 => 0x2b7725aa case 9 => 0x55c205a7 case 10 => 0x7d44d161 case 11 => 0x03f1f16c
    case 12 => 0x2c4978ed case 13 => 0x52fc58e0 case 14 => 0x7a7a8c26 case _ => 0x04cfac2b
  }

  function URow4(j: bv32): bv32 {
    match j
    case 0 => 0x73e5d470 case 1 => 0x0d50f47d case 2 => 0x25d620bb case 3 => 0x5b6300b6
    case 4 => 0x74db8937 case 5 => 0x0a6ea93a case 6 => 0x22e87dfc case 7 => 0x5c5d5df1
    case 8 => 0x7d996efe case 9 => 0x032c4ef3 case 10 => 0x2baa9a35 case 11 => 0x551fba38
    case 12 => 0x7aa733b9 case 13 => 0x041213b4 case 14 => 0x2c94c772 case _ => 0x5221e77f
  }

  function URow5(j: bv32): bv32 {
    match j
    case 0 => 0x6f1ca16c case 1 => 0x11a98161 case 2 => 0x392f55a7 case 3 => 0x479a75aa
    case 4 => 0x6822fc2b case 5 => 0x1697dc26 case 6 => 0x3e1108e0 case 7 => 0x40a428ed
    case 8 => 0x61601be2 case 9 => 0x1fd53bef case 10 => 0x3753ef29 case 11 => 0x49e6cf24
    case 12 => 0x665e46a5 case 13 => 0x18eb66a8 case 14 => 0x306db26e case _ => 0x4ed89263
  }

  function URow6(j: bv32): bv32 {
    match j
    case 0 => 0x4a173e48 case 1 => 0x34a21e45 case 2 => 0x1c24ca83 case 3 => 0x6291ea8e
    case 4 => 0x4d29630f case 5 => 0x339c4302 case 6 => 0x1b1a97c4 case 7 => 0x65afb7c9
    case 8 => 0x446b84c6 case 9 => 0x3adea4cb case 10 => 0x1258700d case 11 => 0x6ced5000
    case 12 => 0x4355d981 case 13 => 0x3de0f98c case 14 => 0x15662d4a case _ => 0x6bd30d47
  }

  function URow7(j: bv32): bv32 {
    match j
    case 0 => 0x56ee4b54 case 1 => 0x285b6b59 case 2 => 0x00ddbf9f case 3 => 0x7e689f92
    case 4 => 0x51d01613 case 5 => 0x2f65361e case 6 => 0x07e3e2d8 case 7 => 0x7956c2d5
    case 8 => 0x5892f1da case 9 => 0x2627d1d7 case 10 => 0x0ea10511 case 11 => 0x7014251c
    case 12 => 0x5facac9d case 13 => 0x21198c90 case 14 => 0x099f5856 case _ => 0x772a785b
  }

  function URow8(j: bv32): bv32 {
    match j
    case 0 => 0x4c921c31 case 1 => 0x32273c3c case 2 => 0x1aa1e8fa case 3 => 0x6414c8f7
    case 4 => 0x4bac4176 case 5 => 0x3519617b case 6 => 0x1d9fb5bd case 7 => 0x632a95b0
    case 8 => 0x42eea6bf case 9 => 0x3c5b86b2 case 10 => 0x14dd5274 case 11 => 0x6a687279
    case 12 => 0x45d0fbf8 case 13 => 0x3b65dbf5 case 14 => 0x13e30f33 case _ => 0x6d562f3e
  }

  function URow9(j: bv32): bv32 {
    match j
    case 0 => 0x506b692d case 1 => 0x2ede4920 case 2 => 0x06589de6 case 3 => 0x78edbdeb
    case 4 => 0x5755346a case 5 => 0x29e01467 case 6 => 0x0166c0a1 case 7 => 0x7fd3e0ac
    case 8 => 0x5e17d3a3 case 9 => 0x20a2f3ae case 10 => 0x08242768 case 11 => 0x76910765
    case 12 => 0x59298ee4 case 13 => 0x279caee9 case 14 => 0x0f1a7a2f case _ => 0x71af5a22
  }

  function URow10(j: bv32): bv32 {
    match j
    case 0 => 0x7560f609 case 1 => 0x0bd5d604 case 2 => 0x235302c2 case 3 => 0x5de622cf
    case 4 => 0x725eab4e case 5 => 0x0ceb8b43 case 6 => 0x246d5f85 case 7 => 0x5ad87f88
    case 8 => 0x7b1c4c87 case 9 => 0x05a96c8a case 10 => 0x2d2fb84c case 11 => 0x539a9841
    case 12 => 0x7c2211c0 case 13 => 0x029731cd case 14 => 0x2a11e50b case _ => 0x54a4c506
  }

  function URow11(j: bv32): bv32 {
    match j
    case 0 => 0x69998315 case 1 => 0x172ca318 case 2 => 0x3faa77de case 3 => 0x411f57d3
    case 4 => 0x6ea7de52 case 5 => 0x1012fe5f case 6 => 0x38942a99 case 7 => 0x46210a94
    case 8 => 0x67e5399b case 9 => 0x19501996 case 10 => 0x31d6cd50 case 11 => 0x4f63ed5d
    case 12 => 0x60db64dc case 13 => 0x1e6e44d1 case 14 => 0x36e89017 case _ => 0x485db01a
  }

  function URow12(j: bv32): bv32 {
    match j
    case 0 => 0x3f77c841 case 1 => 0x41c2e84c case 2 => 0x69443c8a case 3 => 0x17f11c87
    case 4 => 0x38499506 case 5 => 0x46fcb50b case 6 => 0x6e7a61cd case 7 => 0x10cf41c0
    case 8 => 0x310b72cf case 9 => 0x4fbe52c2 case 10 => 0x67388604 case 11 => 0x198da609
    case 12 => 0x36352f88 case 13 => 0x48800f85 case 14 => 0x6006db43 case _ => 0x1eb3fb4e
  }

  function URow13(j: bv32): bv32 {
    match j
    case 0 => 0x238ebd5d case 1 => 0x5d3b9d50 case 2 => 0x75bd4996 case 3 => 0x0b08699b
    case 4 => 0x24b0e01a case 5 => 0x5a05c017 case 6 => 0x728314d1 case 7 => 0x0c3634dc
    case 8 => 0x2df207d3 case 9 => 0x534727de case 10 => 0x7bc1f318 case 11 => 0x0574d315
    case 12 => 0x2acc5a94 case 13 => 0x54797a99 case 14 => 0x7cffae5f case _ => 0x024a8e52
  }

  function URow14(j: bv32): bv32 {
    match j
    case 0 => 0x06852279 case 1 => 0x78300274 case 2 => 0x50b6d6b2 case 3 => 0x2e03f6bf
    case 4 => 0x01bb7f3e case 5 => 0x7f0e5f33 case 6 => 0x57888bf5 case 7 => 0x293dabf8
    case 8 => 0x08f998f7 case 9 => 0x764cb8fa case 10 => 0x5eca6c3c case 11 => 0x207f4c31
    case 12 => 0x0fc7c5b0 case 13 => 0x7172e5bd case 14 => 0x59f4317b case _ => 0x27411176
  }

  function URow15(j: bv32): bv32 {
    match j
    case 0 => 0x1a7c5765 case 1 => 0x64c97768 case 2 => 0x4c4fa3ae case 3 => 0x32fa83a3
    case 4 => 0x1d420a22 case 5 => 0x63f72a2f case 6 => 0x4b71fee9 case 7 => 0x35c4dee4
    case 8 => 0x1400edeb case 9 => 0x6ab5cde6 case 10 => 0x42331920 case 11 => 0x3c86392d
    case 12 => 0x133eb0ac case 13 => 0x6d8b90a1 case 14 => 0x450d4467 case _ => 0x3bb8646a
  }

  /** Exclusive or, named so that proofs can treat it as an abstract group operation. */
  function Xor(a: bv32, b: bv32): bv32 {
    a ^ b
  }

  lemma XorCommutes(a: bv32, b: bv32)
    ensures Xor(a, b) == Xor(b, a)
  {
  }

  lemma XorAssociates(a: bv32, b: bv32, c: bv32)
    ensures Xor(Xor(a, b), c) == Xor(a, Xor(b, c))
  {
  }

  lemma XorRegroup(a: bv32, b: bv32, c: bv32, d: bv32)
    ensures Xor(Xor(a, b), Xor(c, d)) == Xor(Xor(a, c), Xor(b, d))
  {
    hide Xor;
    XorAssociates(a, b, Xor(c, d));
    XorAssociates(b, c, d);
    XorCommutes(b, c);
    XorAssociates(c, b, d);
    XorAssociates(a, c, Xor(b, d));
  }

  lemma XorNibbles(i: bv32, j: bv32)
    requires i < 256 && j < 256
    ensures Xor(i, j) < 256
    ensures Xor(i, j) >> 4 == Xor(i >> 4, j >> 4) && Xor(i, j) & 15 == Xor(i & 15, j & 15)
  {
  }

  function Pick(bit: bv32, a: bv32): bv32 {
    if bit == 0 then 0 else a
  }

  // The exclusive or of those of four values that the four bits of `j` pick.
  function Span(j: bv32, a: bv32, b: bv32, c: bv32, d: bv32): bv32 {
    Xor(Xor(Pick(j & 1, a), Pick(j & 2, b)), Xor(Pick(j & 4, c), Pick(j & 8, d)))
  }

  lemma XorUnit(a: bv32)
    ensures Xor(0, a) == a && Xor(a, 0) == a && Xor(a, a) == 0
  {
  }

  lemma PickLinear(x: bv32, y: bv32, bit: bv32, a: bv32)
    requires (x == 0 || x == bit) && (y == 0 || y == bit)
    ensures Pick(Xor(x, y), a) == Xor(Pick(x, a), Pick(y, a))
  {
    hide Xor;
    XorUnit(bit);
    XorUnit(a);
    XorUnit(0);
  }

  lemma BitsXor(i: bv32, j: bv32)
    ensures Xor(i, j) & 1 == Xor(i & 1, j & 1) && Xor(i, j) & 2 == Xor(i & 2, j & 2)
    ensures Xor(i, j) & 4 == Xor(i & 4, j & 4) && Xor(i, j) & 8 == Xor(i & 8, j & 8)
  {
  }

  lemma BitIsZeroOrOne(i: bv32)
    ensures i & 1 == 0 || i & 1 == 1
    ensures i & 2 == 0 || i & 2 == 2
    ensures i & 4 == 0 || i & 4 == 4
    ensures i & 8 == 0 || i & 8 == 8
  {
  }

  lemma SpanLinear(i: bv32, j: bv32, a: bv32, b: bv32, c: bv32, d: bv32)
    ensures Span(Xor(i, j), a, b, c, d) == Xor(Span(i, a, b, c, d), Span(j, a, b, c, d))
  {
    hide Xor, Pick;
    BitsXor(i, j);
    BitIsZeroOrOne(i);
    BitIsZeroOrOne(j);
    PickLinear(i & 1, j & 1, 1, a);
    PickLinear(i & 2, j & 2, 2, b);
    PickLinear(i & 4, j & 4, 4, c);
    PickLinear(i & 8, j & 8, 8, d);
    XorRegroup(Pick(i & 1, a), Pick(j & 1, a), Pick(i & 2, b), Pick(j & 2, b));
    XorRegroup(Pick(i & 4, c), Pick(j & 4, c), Pick(i & 8, d), Pick(j & 8, d));
    XorRegroup(Xor(Pick(i & 1, a), Pick(i & 2, b)), Xor(Pick(j & 1, a), Pick(j & 2, b)),
               Xor(Pick(i & 4, c), Pick(i & 8, d)), Xor(Pick(j & 4, c), Pick(j & 8, d)));
  }

  lemma NibbleXor(i: bv32, j: bv32)
    requires i < 16 && j < 16
    ensures Xor(i, j) < 16
  {
  }

  // Every row of the table is its first row shifted by the row's first entry.
  lemma TRows0(j: bv32)
    requires j < 16
    ensures TRow0(j) == Xor(TColumn(0), TRow0(j))
    ensures TRow1(j) == Xor(TColumn(1), TRow0(j))
    ensures TRow2(j) == Xor(TColumn(2), TRow0(j))
    ensures TRow3(j) == Xor(TColumn(3), TRow0(j))
  {
  }

  lemma TRows1(j: bv32)
    requires j < 16
    ensures TRow4(j) == Xor(TColumn(4), TRow0(j))
    ensures TRow5(j) == Xor(TColumn(5), TRow0(j))
    ensures TRow6(j) == Xor(TColumn(6), TRow0(j))
    ensures TRow7(j) == Xor(TColumn(7), TRow0(j))
  {
  }

  lemma TRows2(j: bv32)
    requires j < 16
    ensures TRow8(j) == Xor(TColumn(8), TRow0(j))
    ensures TRow9(j) == Xor(TColumn(9), TRow0(j))
    ensures TRow10(j) == Xor(TColumn(10), TRow0(j))
    ensures TRow11(j) == Xor(TColumn(11), TRow0(j))
  {
  }

  lemma TRows3(j: bv32)
    requires j < 16
    ensures TRow12(j) == Xor(TColumn(12), TRow0(j))
    ensures TRow13(j) == Xor(TColumn(13), TRow0(j))
    ensures TRow14(j) == Xor(TColumn(14), TRow0(j))
    ensures TRow15(j) == Xor(TColumn(15), TRow0(j))
  {
  }

  lemma TRowSplit(r: bv32, j: bv32)
    requires r < 16 && j < 16
    ensures TRow(r, j) == Xor(TColumn(r), TRow0(j))
  {
    hide Xor, TColumn, TRow0, TRow1, TRow2, TRow3, TRow4, TRow5, TRow6, TRow7,
         TRow8, TRow9, TRow10, TRow11, TRow12, TRow13, TRow14, TRow15;
    match r
    case 0 => TRows0(j); case 1 => TRows0(j); case 2 => TRows0(j); case 3 => TRows0(j);
    case 4 => TRows1(j); case 5 => TRows1(j); case 6 => TRows1(j); case 7 => TRows1(j);
    case 8 => TRows2(j); case 9 => TRows2(j); case 10 => TRows2(j); case 11 => TRows2(j);
    case 12 => TRows3(j); case 13 => TRows3(j); case 14 => TRows3(j); case _ => TRows3(j);
  }

  lemma TSplit(i: bv32)
    requires i < 256
    ensures T(i) == Xor(TColumn(i >> 4), TRow0(i & 15))
  {
    hide Xor, TRow, TColumn, TRow0;
    TRowSplit(i >> 4, i & 15);
  }

  // The first row and the first column are spanned by their entries at the powers of two.
  lemma TSpans(j: bv32)
    requires j < 16
    ensures TRow0(j) == Span(j, TRow0(1), TRow0(2), TRow0(4), TRow0(8))
    ensures TColumn(j) == Span(j, TColumn(1), TColumn(2), TColumn(4), TColumn(8))
  {
  }

  lemma TRowLinear(i: bv32, j: bv32)
    requires i < 16 && j < 16
    ensures TRow0(Xor(i, j)) == Xor(TRow0(i), TRow0(j))
  {
    hide TRow0, TColumn, Span, Xor;
    NibbleXor(i, j);
    TSpans(i);
    TSpans(j);
    TSpans(Xor(i, j));
    SpanLinear(i, j, TRow0(1), TRow0(2), TRow0(4), TRow0(8));
  }

  lemma TColumnLinear(i: bv32, j: bv32)
    requires i < 16 && j < 16
    ensures TColumn(Xor(i, j)) == Xor(TColumn(i), TColumn(j))
  {
    hide TRow0, TColumn, Span, Xor;
    NibbleXor(i, j);
    TSpans(i);
    TSpans(j);
    TSpans(Xor(i, j));
    SpanLinear(i, j, TColumn(1), TColumn(2), TColumn(4), TColumn(8));
  }

  /** Table T is linear over exclusive or. */
  lemma TLinear(i: bv32, j: bv32)
    requires i < 256 && j < 256
    ensures Xor(i, j) < 256
    ensures T(Xor(i, j)) == Xor(T(i), T(j))
  {
    XorNibbles(i, j);
    hide T, TRow0, TColumn, Xor;
    TSplit(i);
    TSplit(j);
    TSplit(Xor(i, j));
    TRowLinear(i & 15, j & 15);
    TColumnLinear(i >> 4, j >> 4);
    XorRegroup(TColumn(i >> 4), TRow0(i & 15), TColumn(j >> 4), TRow0(j & 15));
  }

  // Every row of the table is its first row shifted by the row's first entry.
  lemma URows0(j: bv32)
    requires j < 16
    ensures URow0(j) == Xor(UColumn(0), URow0(j))
    ensures URow1(j) == Xor(UColumn(1), URow0(j))
    ensures URow2(j) == Xor(UColumn(2), URow0(j))
    ensures URow3(j) == Xor(UColumn(3), URow0(j))
  {
  }

  lemma URows1(j: bv32)
    requires j < 16
    ensures URow4(j) == Xor(UColumn(4), URow0(j))
    ensures URow5(j) == Xor(UColumn(5), URow0(j))
    ensures URow6(j) == Xor(UColumn(6), URow0(j))
    ensures URow7(j) == Xor(UColumn(7), URow0(j))
  {
  }

  lemma URows2(j: bv32)
    requires j < 16
    ensures URow8(j) == Xor(UColumn(8), URow0(j))
    ensures URow9(j) == Xor(UColumn(9), URow0(j))
    ensures URow10(j) == Xor(UColumn(10), URow0(j))
    ensures URow11(j) == Xor(UColumn(11), URow0(j))
  {
  }

  lemma URows3(j: bv32)
    requires j < 16
    ensures URow12(j) == Xor(UColumn(12), URow0(j))
    ensures URow13(j) == Xor(UColumn(13), URow0(j))
    ensures URow14(j) == Xor(UColumn(14), URow0(j))
    ensures URow15(j) == Xor(UColumn(15), URow0(j))
  {
  }

  lemma URowSplit(r: bv32, j: bv32)
    requires r < 16 && j < 16
    ensures URow(r, j) == Xor(UColumn(r), URow0(j))
  {
    hide Xor, UColumn, URow0, URow1, URow2, URow3, URow4, URow5, URow6, URow7,
         URow8, URow9, URow10, URow11, URow12, URow13, URow14, URow15;
    match r
    case 0 => URows0(j); case 1 => URows0(j); case 2 => URows0(j); case 3 => URows0(j);
    case 4 => URows1(j); case 5 => URows1(j); case 6 => URows1(j); case 7 => URows1(j);
    case 8 => URows2(j); case 9 => URows2(j); case 10 => URows2(j); case 11 => URows2(j);
    case 12 => URows3(j); case 13 => URows3(j); case 14 => URows3(j); case _ => URows3(j);
  }

  lemma USplit(i: bv32)
    requires i < 256
    ensures U(i) == Xor(UColumn(i >> 4), URow0(i & 15))
  {
    hide Xor, URow, UColumn, URow0;
    URowSplit(i >> 4, i & 15);
  }

  // The first row and the first column are spanned by their entries at the powers of two.
  lemma USpans(j: bv32)
    requires j < 16
    ensures URow0(j) == Span(j, URow0(1), URow0(2), URow0(4), URow0(8))
    ensures UColumn(j) == Span(j, UColumn(1), UColumn(2), UColumn(4), UColumn(8))
  {
  }

  lemma URowLinear(i: bv32, j: bv32)
    requires i < 16 && j < 16
    ensures URow0(Xor(i, j)) == Xor(URow0(i), URow0(j))
  {
    hide URow0, UColumn, Span, Xor;
    NibbleXor(i, j);
    USpans(i);
    USpans(j);
    USpans(Xor(i, j));
    SpanLinear(i, j, URow0(1), URow0(2), URow0(4), URow0(8));
  }

  lemma UColumnLinear(i: bv32, j: bv32)
    requires i < 16 && j < 16
    ensures UColumn(Xor(i, j)) == Xor(UColumn(i), UColumn(j))
  {
    hide URow0, UColumn, Span, Xor;
    NibbleXor(i, j);
    USpans(i);
    USpans(j);
    USpans(Xor(i, j));
    SpanLinear(i, j, UColumn(1), UColumn(2), UColumn(4), UColumn(8));
  }

  /** Table U is linear over exclusive or. */
  lemma ULinear(i: bv32, j: bv32)
    requires i < 256 && j < 256
    ensures Xor(i, j) < 256
    ensures U(Xor(i, j)) == Xor(U(i), U(j))
  {
    XorNibbles(i, j);
    hide U, URow0, UColumn, Xor;
    USplit(i);
    USplit(j);
    USplit(Xor(i, j));
    URowLinear(i & 15, j & 15);
    UColumnLinear(i >> 4, j >> 4);
    XorRegroup(UColumn(i >> 4), URow0(i & 15), UColumn(j >> 4), URow0(j & 15));
  }
}
