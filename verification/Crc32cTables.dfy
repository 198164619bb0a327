/** The four 256-entry tables of util/crc32c.cc, written as functions of the index. */
module Crc32cTables {

  function Table0(i: bv8): bv32 {
    if i < 16 then Table0Row0(i & 15)
    else if i < 32 then Table0Row1(i & 15)
    else if i < 48 then Table0Row2(i & 15)
    else if i < 64 then Table0Row3(i & 15)
    else if i < 80 then Table0Row4(i & 15)
    else if i < 96 then Table0Row5(i & 15)
    else if i < 112 then Table0Row6(i & 15)
    else if i < 128 then Table0Row7(i & 15)
    else if i < 144 then Table0Row8(i & 15)
    else if i < 160 then Table0Row9(i & 15)
    else if i < 176 then Table0Row10(i & 15)
    else if i < 192 then Table0Row11(i & 15)
    else if i < 208 then Table0Row12(i & 15)
    else if i < 224 then Table0Row13(i & 15)
    else if i < 240 then Table0Row14(i & 15)
    else Table0Row15(i & 15)
  }

  function Table0Row0(j: bv8): bv32 {
    if j == 0 then 0x00000000 else if j == 1 then 0xf26b8303 else if j == 2 then 0xe13b70f7 else
    if j == 3 then 0x1350f3f4 else if j == 4 then 0xc79a971f else if j == 5 then 0x35f1141c else
    if j == 6 then 0x26a1e7e8 else if j == 7 then 0xd4ca64eb else if j == 8 then 0x8ad958cf else
    if j == 9 then 0x78b2dbcc else if j == 10 then 0x6be22838 else if j == 11 then 0x9989ab3b else
    if j == 12 then 0x4d43cfd0 else if j == 13 then 0xbf284cd3 else if j == 14 then 0xac78bf27 else
    0x5e133c24
  }

  function Table0Row1(j: bv8): bv32 {
    if j == 0 then 0x105ec76f else if j == 1 then 0xe235446c else if j == 2 then 0xf165b798 else
    if j == 3 then 0x030e349b else if j == 4 then 0xd7c45070 else if j == 5 then 0x25afd373 else
    if j == 6 then 0x36ff2087 else if j == 7 then 0xc494a384 else if j == 8 then 0x9a879fa0 else
    if j == 9 then 0x68ec1ca3 else if j == 10 then 0x7bbcef57 else if j == 11 then 0x89d76c54 else
    if j == 12 then 0x5d1d08bf else if j == 13 then 0xaf768bbc else if j == 14 then 0xbc267848 else
    0x4e4dfb4b
  }

  function Table0Row2(j: bv8): bv32 {
    if j == 0 then 0x20bd8ede else if j == 1 then 0xd2d60ddd else if j == 2 then 0xc186fe29 else
    if j == 3 then 0x33ed7d2a else if j == 4 then 0xe72719c1 else if j == 5 then 0x154c9ac2 else
    if j == 6 then 0x061c6936 else if j == 7 then 0xf477ea35 else if j == 8 then 0xaa64d611 else
    if j == 9 then 0x580f5512 else if j == 10 then 0x4b5fa6e6 else if j == 11 then 0xb93425e5 else
    if j == 12 then 0x6dfe410e else if j == 13 then 0x9f95c20d else if j == 14 then 0x8cc531f9 else
    0x7eaeb2fa
  }

  function Table0Row3(j: bv8): bv32 {
    if j == 0 then 0x30e349b1 else if j == 1 then 0xc288cab2 else if j == 2 then 0xd1d83946 else
    if j == 3 then 0x23b3ba45 else if j == 4 then 0xf779deae else if j == 5 then 0x05125dad else
    if j == 6 then 0x1642ae59 else if j == 7 then 0xe4292d5a else if j == 8 then 0xba3a117e else
    if j == 9 then 0x4851927d else if j == 10 then 0x5b016189 else if j == 11 then 0xa96ae28a else
    if j == 12 then 0x7da08661 else if j == 13 then 0x8fcb0562 else if j == 14 then 0x9c9bf696 else
    0x6ef07595
  }

  function Table0Row4(j: bv8): bv32 {
    if j == 0 then 0x417b1dbc else if j == 1 then 0xb3109ebf else if j == 2 then 0xa0406d4b else
    if j == 3 then 0x522bee48 else if j == 4 then 0x86e18aa3 else if j == 5 then 0x748a09a0 else
    if j == 6 then 0x67dafa54 else if j == 7 then 0x95b17957 else if j == 8 then 0xcba24573 else
    if j == 9 then 0x39c9c670 else if j == 10 then 0x2a993584 else if j == 11 then 0xd8f2b687 else
    if j == 12 then 0x0c38d26c else if j == 13 then 0xfe53516f else if j == 14 then 0xed03a29b else
    0x1f682198
  }

  function Table0Row5(j: bv8): bv32 {
    if j == 0 then 0x5125dad3 else if j == 1 then 0xa34e59d0 else if j == 2 then 0xb01eaa24 else
    if j == 3 then 0x42752927 else if j == 4 then 0x96bf4dcc else if j == 5 then 0x64d4cecf else
    if j == 6 then 0x77843d3b else if j == 7 then 0x85efbe38 else if j == 8 then 0xdbfc821c else
    if j == 9 then 0x2997011f else if j == 10 then 0x3ac7f2eb else if j == 11 then 0xc8ac71e8 else
    if j == 12 then 0x1c661503 else if j == 13 then 0xee0d9600 else if j == 14 then 0xfd5d65f4 else
    0x0f36e6f7
  }

  function Table0Row6(j: bv8): bv32 {
    if j == 0 then 0x61c69362 else if j == 1 then 0x93ad1061 else if j == 2 then 0x80fde395 else
    if j == 3 then 0x72966096 else if j == 4 then 0xa65c047d else if j == 5 then 0x5437877e else
    if j == 6 then 0x4767748a else if j == 7 then 0xb50cf789 else if j == 8 then 0xeb1fcbad else
    if j == 9 then 0x197448ae else if j == 10 then 0x0a24bb5a else if j == 11 then 0xf84f3859 else
    if j == 12 then 0x2c855cb2 else if j == 13 then 0xdeeedfb1 else if j == 14 then 0xcdbe2c45 else
    0x3fd5af46
  }

  function Table0Row7(j: bv8): bv32 {
    if j == 0 then 0x7198540d else if j == 1 then 0x83f3d70e else if j == 2 then 0x90a324fa else
    if j == 3 then 0x62c8a7f9 else if j == 4 then 0xb602c312 else if j == 5 then 0x44694011 else
    if j == 6 then 0x5739b3e5 else if j == 7 then 0xa55230e6 else if j == 8 then 0xfb410cc2 else
    if j == 9 then 0x092a8fc1 else if j == 10 then 0x1a7a7c35 else if j == 11 then 0xe811ff36 else
    if j == 12 then 0x3cdb9bdd else if j == 13 then 0xceb018de else if j == 14 then 0xdde0eb2a else
    0x2f8b6829
  }

  function Table0Row8(j: bv8): bv32 {
    if j == 0 then 0x82f63b78 else if j == 1 then 0x709db87b else if j == 2 then 0x63cd4b8f else
    if j == 3 then 0x91a6c88c else if j == 4 then 0x456cac67 else if j == 5 then 0xb7072f64 else
    if j == 6 then 0xa457dc90 else if j == 7 then 0x563c5f93 else if j == 8 then 0x082f63b7 else
    if j == 9 then 0xfa44e0b4 else if j == 10 then 0xe9141340 else if j == 11 then 0x1b7f9043 else
    if j == 12 then 0xcfb5f4a8 else if j == 13 then 0x3dde77ab else if j == 14 then 0x2e8e845f else
    0xdce5075c
  }

  function Table0Row9(j: bv8): bv32 {
    if j == 0 then 0x92a8fc17 else if j == 1 then 0x60c37f14 else if j == 2 then 0x73938ce0 else
    if j == 3 then 0x81f80fe3 else if j == 4 then 0x55326b08 else if j == 5 then 0xa759e80b else
    if j == 6 then 0xb4091bff else if j == 7 then 0x466298fc else if j == 8 then 0x1871a4d8 else
    if j == 9 then 0xea1a27db else if j == 10 then 0xf94ad42f else if j == 11 then 0x0b21572c else
    if j == 12 then 0xdfeb33c7 else if j == 13 then 0x2d80b0c4 else if j == 14 then 0x3ed04330 else
    0xccbbc033
  }

  function Table0Row10(j: bv8): bv32 {
    if j == 0 then 0xa24bb5a6 else if j == 1 then 0x502036a5 else if j == 2 then 0x4370c551 else
    if j == 3 then 0xb11b4652 else if j == 4 then 0x65d122b9 else if j == 5 then 0x97baa1ba else
    if j == 6 then 0x84ea524e else if j == 7 then 0x7681d14d else if j == 8 then 0x2892ed69 else
    if j == 9 then 0xdaf96e6a else if j == 10 then 0xc9a99d9e else if j == 11 then 0x3bc21e9d else
    if j == 12 then 0xef087a76 else if j == 13 then 0x1d63f975 else if j == 14 then 0x0e330a81 else
    0xfc588982
  }

  function Table0Row11(j: bv8): bv32 {
    if j == 0 then 0xb21572c9 else if j == 1 then 0x407ef1ca else if j == 2 then 0x532e023e else
    if j == 3 then 0xa145813d else if j == 4 then 0x758fe5d6 else if j == 5 then 0x87e466d5 else
    if j == 6 then 0x94b49521 else if j == 7 then 0x66df1622 else if j == 8 then 0x38cc2a06 else
    if j == 9 then 0xcaa7a905 else if j == 10 then 0xd9f75af1 else if j == 11 then 0x2b9cd9f2 else
    if j == 12 then 0xff56bd19 else if j == 13 then 0x0d3d3e1a else if j == 14 then 0x1e6dcdee else
    0xec064eed
  }

  function Table0Row12(j: bv8): bv32 {
    if j == 0 then 0xc38d26c4 else if j == 1 then 0x31e6a5c7 else if j == 2 then 0x22b65633 else
    if j == 3 then 0xd0ddd530 else if j == 4 then 0x0417b1db else if j == 5 then 0xf67c32d8 else
    if j == 6 then 0xe52cc12c else if j == 7 then 0x1747422f else if j == 8 then 0x49547e0b else
    if j == 9 then 0xbb3ffd08 else if j == 10 then 0xa86f0efc else if j == 11 then 0x5a048dff else
    if j == 12 then 0x8ecee914 else if j == 13 then 0x7ca56a17 else if j == 14 then 0x6ff599e3 else
    0x9d9e1ae0
  }

  function Table0Row13(j: bv8): bv32 {
    if j == 0 then 0xd3d3e1ab else if j == 1 then 0x21b862a8 else if j == 2 then 0x32e8915c else
    if j == 3 then 0xc083125f else if j == 4 then 0x144976b4 else if j == 5 then 0xe622f5b7 else
    if j == 6 then 0xf5720643 else if j == 7 then 0x07198540 else if j == 8 then 0x590ab964 else
    if j == 9 then 0xab613a67 else if j == 10 then 0xb831c993 else if j == 11 then 0x4a5a4a90 else
    if j == 12 then 0x9e902e7b else if j == 13 then 0x6cfbad78 else if j == 14 then 0x7fab5e8c else
    0x8dc0dd8f
  }

  function Table0Row14(j: bv8): bv32 {
    if j == 0 then 0xe330a81a else if j == 1 then 0x115b2b19 else if j == 2 then 0x020bd8ed else
    if j == 3 then 0xf0605bee else if j == 4 then 0x24aa3f05 else if j == 5 then 0xd6c1bc06 else
    if j == 6 then 0xc5914ff2 else if j == 7 then 0x37faccf1 else if j == 8 then 0x69e9f0d5 else
    if j == 9 then 0x9b8273d6 else if j == 10 then 0x88d28022 else if j == 11 then 0x7ab90321 else
    if j == 12 then 0xae7367ca else if j == 13 then 0x5c18e4c9 else if j == 14 then 0x4f48173d else
    0xbd23943e
  }

  function Table0Row15(j: bv8): bv32 {
    if j == 0 then 0xf36e6f75 else if j == 1 then 0x0105ec76 else if j == 2 then 0x12551f82 else
    if j == 3 then 0xe03e9c81 else if j == 4 then 0x34f4f86a else if j == 5 then 0xc69f7b69 else
    if j == 6 then 0xd5cf889d else if j == 7 then 0x27a40b9e else if j == 8 then 0x79b737ba else
    if j == 9 then 0x8bdcb4b9 else if j == 10 then 0x988c474d else if j == 11 then 0x6ae7c44e else
    if j == 12 then 0xbe2da0a5 else if j == 13 then 0x4c4623a6 else if j == 14 then 0x5f16d052 else
    0xad7d5351
  }

  function Table1(i: bv8): bv32 {
    if i < 16 then Table1Row0(i & 15)
    else if i < 32 then Table1Row1(i & 15)
    else if i < 48 then Table1Row2(i & 15)
    else if i < 64 then Table1Row3(i & 15)
    else if i < 80 then Table1Row4(i & 15)
    else if i < 96 then Table1Row5(i & 15)
    else if i < 112 then Table1Row6(i & 15)
    else if i < 128 then Table1Row7(i & 15)
    else if i < 144 then Table1Row8(i & 15)
    else if i < 160 then Table1Row9(i & 15)
    else if i < 176 then Table1Row10(i & 15)
    else if i < 192 then Table1Row11(i & 15)
    else if i < 208 then Table1Row12(i & 15)
    else if i < 224 then Table1Row13(i & 15)
    else if i < 240 then Table1Row14(i & 15)
    else Table1Row15(i & 15)
  }

  function Table1Row0(j: bv8): bv32 {
    if j == 0 then 0x00000000 else if j == 1 then 0x13a29877 else if j == 2 then 0x274530ee else
    if j == 3 then 0x34e7a899 else if j == 4 then 0x4e8a61dc else if j == 5 then 0x5d28f9ab else
    if j == 6 then 0x69cf5132 else if j == 7 then 0x7a6dc945 else if j == 8 then 0x9d14c3b8 else
    if j == 9 then 0x8eb65bcf else if j == 10 then 0xba51f356 else if j == 11 then 0xa9f36b21 else
    if j == 12 then 0xd39ea264 else if j == 13 then 0xc03c3a13 else if j == 14 then 0xf4db928a else
    0xe7790afd
  }

  function Table1Row1(j: bv8): bv32 {
    if j == 0 then 0x3fc5f181 else if j == 1 then 0x2c6769f6 else if j == 2 then 0x1880c16f else
    if j == 3 then 0x0b225918 else if j == 4 then 0x714f905d else if j == 5 then 0x62ed082a else
    if j == 6 then 0x560aa0b3 else if j == 7 then 0x45a838c4 else if j == 8 then 0xa2d13239 else
    if j == 9 then 0xb173aa4e else if j == 10 then 0x859402d7 else if j == 11 then 0x96369aa0 else
    if j == 12 then 0xec5b53e5 else if j == 13 then 0xfff9cb92 else if j == 14 then 0xcb1e630b else
    0xd8bcfb7c
  }

  function Table1Row2(j: bv8): bv32 {
    if j == 0 then 0x7f8be302 else if j == 1 then 0x6c297b75 else if j == 2 then 0x58ced3ec else
    if j == 3 then 0x4b6c4b9b else if j == 4 then 0x310182de else if j == 5 then 0x22a31aa9 else
    if j == 6 then 0x1644b230 else if j == 7 then 0x05e62a47 else if j == 8 then 0xe29f20ba else
    if j == 9 then 0xf13db8cd else if j == 10 then 0xc5da1054 else if j == 11 then 0xd6788823 else
    if j == 12 then 0xac154166 else if j == 13 then 0xbfb7d911 else if j == 14 then 0x8b507188 else
    0x98f2e9ff
  }

  function Table1Row3(j: bv8): bv32 {
    if j == 0 then 0x404e1283 else if j == 1 then 0x53ec8af4 else if j == 2 then 0x670b226d else
    if j == 3 then 0x74a9ba1a else if j == 4 then 0x0ec4735f else if j == 5 then 0x1d66eb28 else
    if j == 6 then 0x298143b1 else if j == 7 then 0x3a23dbc6 else if j == 8 then 0xdd5ad13b else
    if j == 9 then 0xcef8494c else if j == 10 then 0xfa1fe1d5 else if j == 11 then 0xe9bd79a2 else
    if j == 12 then 0x93d0b0e7 else if j == 13 then 0x80722890 else if j == 14 then 0xb4958009 else
    0xa737187e
  }

  function Table1Row4(j: bv8): bv32 {
    if j == 0 then 0xff17c604 else if j == 1 then 0xecb55e73 else if j == 2 then 0xd852f6ea else
    if j == 3 then 0xcbf06e9d else if j == 4 then 0xb19da7d8 else if j == 5 then 0xa23f3faf else
    if j == 6 then 0x96d89736 else if j == 7 then 0x857a0f41 else if j == 8 then 0x620305bc else
    if j == 9 then 0x71a19dcb else if j == 10 then 0x45463552 else if j == 11 then 0x56e4ad25 else
    if j == 12 then 0x2c896460 else if j == 13 then 0x3f2bfc17 else if j == 14 then 0x0bcc548e else
    0x186eccf9
  }

  function Table1Row5(j: bv8): bv32 {
    if j == 0 then 0xc0d23785 else if j == 1 then 0xd370aff2 else if j == 2 then 0xe797076b else
    if j == 3 then 0xf4359f1c else if j == 4 then 0x8e585659 else if j == 5 then 0x9dface2e else
    if j == 6 then 0xa91d66b7 else if j == 7 then 0xbabffec0 else if j == 8 then 0x5dc6f43d else
    if j == 9 then 0x4e646c4a else if j == 10 then 0x7a83c4d3 else if j == 11 then 0x69215ca4 else
    if j == 12 then 0x134c95e1 else if j == 13 then 0x00ee0d96 else if j == 14 then 0x3409a50f else
    0x27ab3d78
  }

  function Table1Row6(j: bv8): bv32 {
    if j == 0 then 0x809c2506 else if j == 1 then 0x933ebd71 else if j == 2 then 0xa7d915e8 else
    if j == 3 then 0xb47b8d9f else if j == 4 then 0xce1644da else if j == 5 then 0xddb4dcad else
    if j == 6 then 0xe9537434 else if j == 7 then 0xfaf1ec43 else if j == 8 then 0x1d88e6be else
    if j == 9 then 0x0e2a7ec9 else if j == 10 then 0x3acdd650 else if j == 11 then 0x296f4e27 else
    if j == 12 then 0x53028762 else if j == 13 then 0x40a01f15 else if j == 14 then 0x7447b78c else
    0x67e52ffb
  }

  function Table1Row7(j: bv8): bv32 {
    if j == 0 then 0xbf59d487 else if j == 1 then 0xacfb4cf0 else if j == 2 then 0x981ce469 else
    if j == 3 then 0x8bbe7c1e else if j == 4 then 0xf1d3b55b else if j == 5 then 0xe2712d2c else
    if j == 6 then 0xd69685b5 else if j == 7 then 0xc5341dc2 else if j == 8 then 0x224d173f else
    if j == 9 then 0x31ef8f48 else if j == 10 then 0x050827d1 else if j == 11 then 0x16aabfa6 else
    if j == 12 then 0x6cc776e3 else if j == 13 then 0x7f65ee94 else if j == 14 then 0x4b82460d else
    0x5820de7a
  }

  function Table1Row8(j: bv8): bv32 {
    if j == 0 then 0xfbc3faf9 else if j == 1 then 0xe861628e else if j == 2 then 0xdc86ca17 else
    if j == 3 then 0xcf245260 else if j == 4 then 0xb5499b25 else if j == 5 then 0xa6eb0352 else
    if j == 6 then 0x920cabcb else if j == 7 then 0x81ae33bc else if j == 8 then 0x66d73941 else
    if j == 9 then 0x7575a136 else if j == 10 then 0x419209af else if j == 11 then 0x523091d8 else
    if j == 12 then 0x285d589d else if j == 13 then 0x3bffc0ea else if j == 14 then 0x0f186873 else
    0x1cbaf004
  }

  function Table1Row9(j: bv8): bv32 {
    if j == 0 then 0xc4060b78 else if j == 1 then 0xd7a4930f else if j == 2 then 0xe3433b96 else
    if j == 3 then 0xf0e1a3e1 else if j == 4 then 0x8a8c6aa4 else if j == 5 then 0x992ef2d3 else
    if j == 6 then 0xadc95a4a else if j == 7 then 0xbe6bc23d else if j == 8 then 0x5912c8c0 else
    if j == 9 then 0x4ab050b7 else if j == 10 then 0x7e57f82e else if j == 11 then 0x6df56059 else
    if j == 12 then 0x1798a91c else if j == 13 then 0x043a316b else if j == 14 then 0x30dd99f2 else
    0x237f0185
  }

  function Table1Row10(j: bv8): bv32 {
    if j == 0 then 0x844819fb else if j == 1 then 0x97ea818c else if j == 2 then 0xa30d2915 else
    if j == 3 then 0xb0afb162 else if j == 4 then 0xcac27827 else if j == 5 then 0xd960e050 else
    if j == 6 then 0xed8748c9 else if j == 7 then 0xfe25d0be else if j == 8 then 0x195cda43 else
    if j == 9 then 0x0afe4234 else if j == 10 then 0x3e19eaad else if j == 11 then 0x2dbb72da else
    if j == 12 then 0x57d6bb9f else if j == 13 then 0x447423e8 else if j == 14 then 0x70938b71 else
    0x63311306
  }

  function Table1Row11(j: bv8): bv32 {
    if j == 0 then 0xbb8de87a else if j == 1 then 0xa82f700d else if j == 2 then 0x9cc8d894 else
    if j == 3 then 0x8f6a40e3 else if j == 4 then 0xf50789a6 else if j == 5 then 0xe6a511d1 else
    if j == 6 then 0xd242b948 else if j == 7 then 0xc1e0213f else if j == 8 then 0x26992bc2 else
    if j == 9 then 0x353bb3b5 else if j == 10 then 0x01dc1b2c else if j == 11 then 0x127e835b else
    if j == 12 then 0x68134a1e else if j == 13 then 0x7bb1d269 else if j == 14 then 0x4f567af0 else
    0x5cf4e287
  }

  function Table1Row12(j: bv8): bv32 {
    if j == 0 then 0x04d43cfd else if j == 1 then 0x1776a48a else if j == 2 then 0x23910c13 else
    if j == 3 then 0x30339464 else if j == 4 then 0x4a5e5d21 else if j == 5 then 0x59fcc556 else
    if j == 6 then 0x6d1b6dcf else if j == 7 then 0x7eb9f5b8 else if j == 8 then 0x99c0ff45 else
    if j == 9 then 0x8a626732 else if j == 10 then 0xbe85cfab else if j == 11 then 0xad2757dc else
    if j == 12 then 0xd74a9e99 else if j == 13 then 0xc4e806ee else if j == 14 then 0xf00fae77 else
    0xe3ad3600
  }

  function Table1Row13(j: bv8): bv32 {
    if j == 0 then 0x3b11cd7c else if j == 1 then 0x28b3550b else if j == 2 then 0x1c54fd92 else
    if j == 3 then 0x0ff665e5 else if j == 4 then 0x759baca0 else if j == 5 then 0x663934d7 else
    if j == 6 then 0x52de9c4e else if j == 7 then 0x417c0439 else if j == 8 then 0xa6050ec4 else
    if j == 9 then 0xb5a796b3 else if j == 10 then 0x81403e2a else if j == 11 then 0x92e2a65d else
    if j == 12 then 0xe88f6f18 else if j == 13 then 0xfb2df76f else if j == 14 then 0xcfca5ff6 else
    0xdc68c781
  }

  function Table1Row14(j: bv8): bv32 {
    if j == 0 then 0x7b5fdfff else if j == 1 then 0x68fd4788 else if j == 2 then 0x5c1aef11 else
    if j == 3 then 0x4fb87766 else if j == 4 then 0x35d5be23 else if j == 5 then 0x26772654 else
    if j == 6 then 0x12908ecd else if j == 7 then 0x013216ba else if j == 8 then 0xe64b1c47 else
    if j == 9 then 0xf5e98430 else if j == 10 then 0xc10e2ca9 else if j == 11 then 0xd2acb4de else
    if j == 12 then 0xa8c17d9b else if j == 13 then 0xbb63e5ec else if j == 14 then 0x8f844d75 else
    0x9c26d502
  }

  function Table1Row15(j: bv8): bv32 {
    if j == 0 then 0x449a2e7e else if j == 1 then 0x5738b609 else if j == 2 then 0x63df1e90 else
    if j == 3 then 0x707d86e7 else if j == 4 then 0x0a104fa2 else if j == 5 then 0x19b2d7d5 else
    if j == 6 then 0x2d557f4c else if j == 7 then 0x3ef7e73b else if j == 8 then 0xd98eedc6 else
    if j == 9 then 0xca2c75b1 else if j == 10 then 0xfecbdd28 else if j == 11 then 0xed69455f else
    if j == 12 then 0x97048c1a else if j == 13 then 0x84a6146d else if j == 14 then 0xb041bcf4 else
    0xa3e32483
  }

  function Table2(i: bv8): bv32 {
    if i < 16 then Table2Row0(i & 15)
    else if i < 32 then Table2Row1(i & 15)
    else if i < 48 then Table2Row2(i & 15)
    else if i < 64 then Table2Row3(i & 15)
    else if i < 80 then Table2Row4(i & 15)
    else if i < 96 then Table2Row5(i & 15)
    else if i < 112 then Table2Row6(i & 15)
    else if i < 128 then Table2Row7(i & 15)
    else if i < 144 then Table2Row8(i & 15)
    else if i < 160 then Table2Row9(i & 15)
    else if i < 176 then Table2Row10(i & 15)
    else if i < 192 then Table2Row11(i & 15)
    else if i < 208 then Table2Row12(i & 15)
    else if i < 224 then Table2Row13(i & 15)
    else if i < 240 then Table2Row14(i & 15)
    else Table2Row15(i & 15)
  }

  function Table2Row0(j: bv8): bv32 {
    if j == 0 then 0x00000000 else if j == 1 then 0xa541927e else if j == 2 then 0x4f6f520d else
    if j == 3 then 0xea2ec073 else if j == 4 then 0x9edea41a else if j == 5 then 0x3b9f3664 else
    if j == 6 then 0xd1b1f617 else if j == 7 then 0x74f06469 else if j == 8 then 0x38513ec5 else
    if j == 9 then 0x9d10acbb else if j == 10 then 0x773e6cc8 else if j == 11 then 0xd27ffeb6 else
    if j == 12 then 0xa68f9adf else if j == 13 then 0x03ce08a1 else if j == 14 then 0xe9e0c8d2 else
    0x4ca15aac
  }

  function Table2Row1(j: bv8): bv32 {
    if j == 0 then 0x70a27d8a else if j == 1 then 0xd5e3eff4 else if j == 2 then 0x3fcd2f87 else
    if j == 3 then 0x9a8cbdf9 else if j == 4 then 0xee7cd990 else if j == 5 then 0x4b3d4bee else
    if j == 6 then 0xa1138b9d else if j == 7 then 0x045219e3 else if j == 8 then 0x48f3434f else
    if j == 9 then 0xedb2d131 else if j == 10 then 0x079c1142 else if j == 11 then 0xa2dd833c else
    if j == 12 then 0xd62de755 else if j == 13 then 0x736c752b else if j == 14 then 0x9942b558 else
    0x3c032726
  }

  function Table2Row2(j: bv8): bv32 {
    if j == 0 then 0xe144fb14 else if j == 1 then 0x4405696a else if j == 2 then 0xae2ba919 else
    if j == 3 then 0x0b6a3b67 else if j == 4 then 0x7f9a5f0e else if j == 5 then 0xdadbcd70 else
    if j == 6 then 0x30f50d03 else if j == 7 then 0x95b49f7d else if j == 8 then 0xd915c5d1 else
    if j == 9 then 0x7c5457af else if j == 10 then 0x967a97dc else if j == 11 then 0x333b05a2 else
    if j == 12 then 0x47cb61cb else if j == 13 then 0xe28af3b5 else if j == 14 then 0x08a433c6 else
    0xade5a1b8
  }

  function Table2Row3(j: bv8): bv32 {
    if j == 0 then 0x91e6869e else if j == 1 then 0x34a714e0 else if j == 2 then 0xde89d493 else
    if j == 3 then 0x7bc846ed else if j == 4 then 0x0f382284 else if j == 5 then 0xaa79b0fa else
    if j == 6 then 0x40577089 else if j == 7 then 0xe516e2f7 else if j == 8 then 0xa9b7b85b else
    if j == 9 then 0x0cf62a25 else if j == 10 then 0xe6d8ea56 else if j == 11 then 0x43997828 else
    if j == 12 then 0x37691c41 else if j == 13 then 0x92288e3f else if j == 14 then 0x78064e4c else
    0xdd47dc32
  }

  function Table2Row4(j: bv8): bv32 {
    if j == 0 then 0xc76580d9 else if j == 1 then 0x622412a7 else if j == 2 then 0x880ad2d4 else
    if j == 3 then 0x2d4b40aa else if j == 4 then 0x59bb24c3 else if j == 5 then 0xfcfab6bd else
    if j == 6 then 0x16d476ce else if j == 7 then 0xb395e4b0 else if j == 8 then 0xff34be1c else
    if j == 9 then 0x5a752c62 else if j == 10 then 0xb05bec11 else if j == 11 then 0x151a7e6f else
    if j == 12 then 0x61ea1a06 else if j == 13 then 0xc4ab8878 else if j == 14 then 0x2e85480b else
    0x8bc4da75
  }

  function Table2Row5(j: bv8): bv32 {
    if j == 0 then 0xb7c7fd53 else if j == 1 then 0x12866f2d else if j == 2 then 0xf8a8af5e else
    if j == 3 then 0x5de93d20 else if j == 4 then 0x29195949 else if j == 5 then 0x8c58cb37 else
    if j == 6 then 0x66760b44 else if j == 7 then 0xc337993a else if j == 8 then 0x8f96c396 else
    if j == 9 then 0x2ad751e8 else if j == 10 then 0xc0f9919b else if j == 11 then 0x65b803e5 else
    if j == 12 then 0x1148678c else if j == 13 then 0xb409f5f2 else if j == 14 then 0x5e273581 else
    0xfb66a7ff
  }

  function Table2Row6(j: bv8): bv32 {
    if j == 0 then 0x26217bcd else if j == 1 then 0x8360e9b3 else if j == 2 then 0x694e29c0 else
    if j == 3 then 0xcc0fbbbe else if j == 4 then 0xb8ffdfd7 else if j == 5 then 0x1dbe4da9 else
    if j == 6 then 0xf7908dda else if j == 7 then 0x52d11fa4 else if j == 8 then 0x1e704508 else
    if j == 9 then 0xbb31d776 else if j == 10 then 0x511f1705 else if j == 11 then 0xf45e857b else
    if j == 12 then 0x80aee112 else if j == 13 then 0x25ef736c else if j == 14 then 0xcfc1b31f else
    0x6a802161
  }

  function Table2Row7(j: bv8): bv32 {
    if j == 0 then 0x56830647 else if j == 1 then 0xf3c29439 else if j == 2 then 0x19ec544a else
    if j == 3 then 0xbcadc634 else if j == 4 then 0xc85da25d else if j == 5 then 0x6d1c3023 else
    if j == 6 then 0x8732f050 else if j == 7 then 0x2273622e else if j == 8 then 0x6ed23882 else
    if j == 9 then 0xcb93aafc else if j == 10 then 0x21bd6a8f else if j == 11 then 0x84fcf8f1 else
    if j == 12 then 0xf00c9c98 else if j == 13 then 0x554d0ee6 else if j == 14 then 0xbf63ce95 else
    0x1a225ceb
  }

  function Table2Row8(j: bv8): bv32 {
    if j == 0 then 0x8b277743 else if j == 1 then 0x2e66e53d else if j == 2 then 0xc448254e else
    if j == 3 then 0x6109b730 else if j == 4 then 0x15f9d359 else if j == 5 then 0xb0b84127 else
    if j == 6 then 0x5a968154 else if j == 7 then 0xffd7132a else if j == 8 then 0xb3764986 else
    if j == 9 then 0x1637dbf8 else if j == 10 then 0xfc191b8b else if j == 11 then 0x595889f5 else
    if j == 12 then 0x2da8ed9c else if j == 13 then 0x88e97fe2 else if j == 14 then 0x62c7bf91 else
    0xc7862def
  }

  function Table2Row9(j: bv8): bv32 {
    if j == 0 then 0xfb850ac9 else if j == 1 then 0x5ec498b7 else if j == 2 then 0xb4ea58c4 else
    if j == 3 then 0x11abcaba else if j == 4 then 0x655baed3 else if j == 5 then 0xc01a3cad else
    if j == 6 then 0x2a34fcde else if j == 7 then 0x8f756ea0 else if j == 8 then 0xc3d4340c else
    if j == 9 then 0x6695a672 else if j == 10 then 0x8cbb6601 else if j == 11 then 0x29faf47f else
    if j == 12 then 0x5d0a9016 else if j == 13 then 0xf84b0268 else if j == 14 then 0x1265c21b else
    0xb7245065
  }

  function Table2Row10(j: bv8): bv32 {
    if j == 0 then 0x6a638c57 else if j == 1 then 0xcf221e29 else if j == 2 then 0x250cde5a else
    if j == 3 then 0x804d4c24 else if j == 4 then 0xf4bd284d else if j == 5 then 0x51fcba33 else
    if j == 6 then 0xbbd27a40 else if j == 7 then 0x1e93e83e else if j == 8 then 0x5232b292 else
    if j == 9 then 0xf77320ec else if j == 10 then 0x1d5de09f else if j == 11 then 0xb81c72e1 else
    if j == 12 then 0xccec1688 else if j == 13 then 0x69ad84f6 else if j == 14 then 0x83834485 else
    0x26c2d6fb
  }

  function Table2Row11(j: bv8): bv32 {
    if j == 0 then 0x1ac1f1dd else if j == 1 then 0xbf8063a3 else if j == 2 then 0x55aea3d0 else
    if j == 3 then 0xf0ef31ae else if j == 4 then 0x841f55c7 else if j == 5 then 0x215ec7b9 else
    if j == 6 then 0xcb7007ca else if j == 7 then 0x6e3195b4 else if j == 8 then 0x2290cf18 else
    if j == 9 then 0x87d15d66 else if j == 10 then 0x6dff9d15 else if j == 11 then 0xc8be0f6b else
    if j == 12 then 0xbc4e6b02 else if j == 13 then 0x190ff97c else if j == 14 then 0xf321390f else
    0x5660ab71
  }

  function Table2Row12(j: bv8): bv32 {
    if j == 0 then 0x4c42f79a else if j == 1 then 0xe90365e4 else if j == 2 then 0x032da597 else
    if j == 3 then 0xa66c37e9 else if j == 4 then 0xd29c5380 else if j == 5 then 0x77ddc1fe else
    if j == 6 then 0x9df3018d else if j == 7 then 0x38b293f3 else if j == 8 then 0x7413c95f else
    if j == 9 then 0xd1525b21 else if j == 10 then 0x3b7c9b52 else if j == 11 then 0x9e3d092c else
    if j == 12 then 0xeacd6d45 else if j == 13 then 0x4f8cff3b else if j == 14 then 0xa5a23f48 else
    0x00e3ad36
  }

  function Table2Row13(j: bv8): bv32 {
    if j == 0 then 0x3ce08a10 else if j == 1 then 0x99a1186e else if j == 2 then 0x738fd81d else
    if j == 3 then 0xd6ce4a63 else if j == 4 then 0xa23e2e0a else if j == 5 then 0x077fbc74 else
    if j == 6 then 0xed517c07 else if j == 7 then 0x4810ee79 else if j == 8 then 0x04b1b4d5 else
    if j == 9 then 0xa1f026ab else if j == 10 then 0x4bdee6d8 else if j == 11 then 0xee9f74a6 else
    if j == 12 then 0x9a6f10cf else if j == 13 then 0x3f2e82b1 else if j == 14 then 0xd50042c2 else
    0x7041d0bc
  }

  function Table2Row14(j: bv8): bv32 {
    if j == 0 then 0xad060c8e else if j == 1 then 0x08479ef0 else if j == 2 then 0xe2695e83 else
    if j == 3 then 0x4728ccfd else if j == 4 then 0x33d8a894 else if j == 5 then 0x96993aea else
    if j == 6 then 0x7cb7fa99 else if j == 7 then 0xd9f668e7 else if j == 8 then 0x9557324b else
    if j == 9 then 0x3016a035 else if j == 10 then 0xda386046 else if j == 11 then 0x7f79f238 else
    if j == 12 then 0x0b899651 else if j == 13 then 0xaec8042f else if j == 14 then 0x44e6c45c else
    0xe1a75622
  }

  function Table2Row15(j: bv8): bv32 {
    if j == 0 then 0xdda47104 else if j == 1 then 0x78e5e37a else if j == 2 then 0x92cb2309 else
    if j == 3 then 0x378ab177 else if j == 4 then 0x437ad51e else if j == 5 then 0xe63b4760 else
    if j == 6 then 0x0c158713 else if j == 7 then 0xa954156d else if j == 8 then 0xe5f54fc1 else
    if j == 9 then 0x40b4ddbf else if j == 10 then 0xaa9a1dcc else if j == 11 then 0x0fdb8fb2 else
    if j == 12 then 0x7b2bebdb else if j == 13 then 0xde6a79a5 else if j == 14 then 0x3444b9d6 else
    0x91052ba8
  }

  function Table3(i: bv8): bv32 {
    if i < 16 then Table3Row0(i & 15)
    else if i < 32 then Table3Row1(i & 15)
    else if i < 48 then Table3Row2(i & 15)
    else if i < 64 then Table3Row3(i & 15)
    else if i < 80 then Table3Row4(i & 15)
    else if i < 96 then Table3Row5(i & 15)
    else if i < 112 then Table3Row6(i & 15)
    else if i < 128 then Table3Row7(i & 15)
    else if i < 144 then Table3Row8(i & 15)
    else if i < 160 then Table3Row9(i & 15)
    else if i < 176 then Table3Row10(i & 15)
    else if i < 192 then Table3Row11(i & 15)
    else if i < 208 then Table3Row12(i & 15)
    else if i < 224 then Table3Row13(i & 15)
    else if i < 240 then Table3Row14(i & 15)
    else Table3Row15(i & 15)
  }

  function Table3Row0(j: bv8): bv32 {
    if j == 0 then 0x00000000 else if j == 1 then 0xdd45aab8 else if j == 2 then 0xbf672381 else
    if j == 3 then 0x62228939 else if j == 4 then 0x7b2231f3 else if j == 5 then 0xa6679b4b else
    if j == 6 then 0xc4451272 else if j == 7 then 0x1900b8ca else if j == 8 then 0xf64463e6 else
    if j == 9 then 0x2b01c95e else if j == 10 then 0x49234067 else if j == 11 then 0x9466eadf else
    if j == 12 then 0x8d665215 else if j == 13 then 0x5023f8ad else if j == 14 then 0x32017194 else
    0xef44db2c
  }

  function Table3Row1(j: bv8): bv32 {
    if j == 0 then 0xe964b13d else if j == 1 then 0x34211b85 else if j == 2 then 0x560392bc else
    if j == 3 then 0x8b463804 else if j == 4 then 0x924680ce else if j == 5 then 0x4f032a76 else
    if j == 6 then 0x2d21a34f else if j == 7 then 0xf06409f7 else if j == 8 then 0x1f20d2db else
    if j == 9 then 0xc2657863 else if j == 10 then 0xa047f15a else if j == 11 then 0x7d025be2 else
    if j == 12 then 0x6402e328 else if j == 13 then 0xb9474990 else if j == 14 then 0xdb65c0a9 else
    0x06206a11
  }

  function Table3Row2(j: bv8): bv32 {
    if j == 0 then 0xd725148b else if j == 1 then 0x0a60be33 else if j == 2 then 0x6842370a else
    if j == 3 then 0xb5079db2 else if j == 4 then 0xac072578 else if j == 5 then 0x71428fc0 else
    if j == 6 then 0x136006f9 else if j == 7 then 0xce25ac41 else if j == 8 then 0x2161776d else
    if j == 9 then 0xfc24ddd5 else if j == 10 then 0x9e0654ec else if j == 11 then 0x4343fe54 else
    if j == 12 then 0x5a43469e else if j == 13 then 0x8706ec26 else if j == 14 then 0xe524651f else
    0x3861cfa7
  }

  function Table3Row3(j: bv8): bv32 {
    if j == 0 then 0x3e41a5b6 else if j == 1 then 0xe3040f0e else if j == 2 then 0x81268637 else
    if j == 3 then 0x5c632c8f else if j == 4 then 0x45639445 else if j == 5 then 0x98263efd else
    if j == 6 then 0xfa04b7c4 else if j == 7 then 0x27411d7c else if j == 8 then 0xc805c650 else
    if j == 9 then 0x15406ce8 else if j == 10 then 0x7762e5d1 else if j == 11 then 0xaa274f69 else
    if j == 12 then 0xb327f7a3 else if j == 13 then 0x6e625d1b else if j == 14 then 0x0c40d422 else
    0xd1057e9a
  }

  function Table3Row4(j: bv8): bv32 {
    if j == 0 then 0xaba65fe7 else if j == 1 then 0x76e3f55f else if j == 2 then 0x14c17c66 else
    if j == 3 then 0xc984d6de else if j == 4 then 0xd0846e14 else if j == 5 then 0x0dc1c4ac else
    if j == 6 then 0x6fe34d95 else if j == 7 then 0xb2a6e72d else if j == 8 then 0x5de23c01 else
    if j == 9 then 0x80a796b9 else if j == 10 then 0xe2851f80 else if j == 11 then 0x3fc0b538 else
    if j == 12 then 0x26c00df2 else if j == 13 then 0xfb85a74a else if j == 14 then 0x99a72e73 else
    0x44e284cb
  }

  function Table3Row5(j: bv8): bv32 {
    if j == 0 then 0x42c2eeda else if j == 1 then 0x9f874462 else if j == 2 then 0xfda5cd5b else
    if j == 3 then 0x20e067e3 else if j == 4 then 0x39e0df29 else if j == 5 then 0xe4a57591 else
    if j == 6 then 0x8687fca8 else if j == 7 then 0x5bc25610 else if j == 8 then 0xb4868d3c else
    if j == 9 then 0x69c32784 else if j == 10 then 0x0be1aebd else if j == 11 then 0xd6a40405 else
    if j == 12 then 0xcfa4bccf else if j == 13 then 0x12e11677 else if j == 14 then 0x70c39f4e else
    0xad8635f6
  }

  function Table3Row6(j: bv8): bv32 {
    if j == 0 then 0x7c834b6c else if j == 1 then 0xa1c6e1d4 else if j == 2 then 0xc3e468ed else
    if j == 3 then 0x1ea1c255 else if j == 4 then 0x07a17a9f else if j == 5 then 0xdae4d027 else
    if j == 6 then 0xb8c6591e else if j == 7 then 0x6583f3a6 else if j == 8 then 0x8ac7288a else
    if j == 9 then 0x57828232 else if j == 10 then 0x35a00b0b else if j == 11 then 0xe8e5a1b3 else
    if j == 12 then 0xf1e51979 else if j == 13 then 0x2ca0b3c1 else if j == 14 then 0x4e823af8 else
    0x93c79040
  }

  function Table3Row7(j: bv8): bv32 {
    if j == 0 then 0x95e7fa51 else if j == 1 then 0x48a250e9 else if j == 2 then 0x2a80d9d0 else
    if j == 3 then 0xf7c57368 else if j == 4 then 0xeec5cba2 else if j == 5 then 0x3380611a else
    if j == 6 then 0x51a2e823 else if j == 7 then 0x8ce7429b else if j == 8 then 0x63a399b7 else
    if j == 9 then 0xbee6330f else if j == 10 then 0xdcc4ba36 else if j == 11 then 0x0181108e else
    if j == 12 then 0x1881a844 else if j == 13 then 0xc5c402fc else if j == 14 then 0xa7e68bc5 else
    0x7aa3217d
  }

  function Table3Row8(j: bv8): bv32 {
    if j == 0 then 0x52a0c93f else if j == 1 then 0x8fe56387 else if j == 2 then 0xedc7eabe else
    if j == 3 then 0x30824006 else if j == 4 then 0x2982f8cc else if j == 5 then 0xf4c75274 else
    if j == 6 then 0x96e5db4d else if j == 7 then 0x4ba071f5 else if j == 8 then 0xa4e4aad9 else
    if j == 9 then 0x79a10061 else if j == 10 then 0x1b838958 else if j == 11 then 0xc6c623e0 else
    if j == 12 then 0xdfc69b2a else if j == 13 then 0x02833192 else if j == 14 then 0x60a1b8ab else
    0xbde41213
  }

  function Table3Row9(j: bv8): bv32 {
    if j == 0 then 0xbbc47802 else if j == 1 then 0x6681d2ba else if j == 2 then 0x04a35b83 else
    if j == 3 then 0xd9e6f13b else if j == 4 then 0xc0e649f1 else if j == 5 then 0x1da3e349 else
    if j == 6 then 0x7f816a70 else if j == 7 then 0xa2c4c0c8 else if j == 8 then 0x4d801be4 else
    if j == 9 then 0x90c5b15c else if j == 10 then 0xf2e73865 else if j == 11 then 0x2fa292dd else
    if j == 12 then 0x36a22a17 else if j == 13 then 0xebe780af else if j == 14 then 0x89c50996 else
    0x5480a32e
  }

  function Table3Row10(j: bv8): bv32 {
    if j == 0 then 0x8585ddb4 else if j == 1 then 0x58c0770c else if j == 2 then 0x3ae2fe35 else
    if j == 3 then 0xe7a7548d else if j == 4 then 0xfea7ec47 else if j == 5 then 0x23e246ff else
    if j == 6 then 0x41c0cfc6 else if j == 7 then 0x9c85657e else if j == 8 then 0x73c1be52 else
    if j == 9 then 0xae8414ea else if j == 10 then 0xcca69dd3 else if j == 11 then 0x11e3376b else
    if j == 12 then 0x08e38fa1 else if j == 13 then 0xd5a62519 else if j == 14 then 0xb784ac20 else
    0x6ac10698
  }

  function Table3Row11(j: bv8): bv32 {
    if j == 0 then 0x6ce16c89 else if j == 1 then 0xb1a4c631 else if j == 2 then 0xd3864f08 else
    if j == 3 then 0x0ec3e5b0 else if j == 4 then 0x17c35d7a else if j == 5 then 0xca86f7c2 else
    if j == 6 then 0xa8a47efb else if j == 7 then 0x75e1d443 else if j == 8 then 0x9aa50f6f else
    if j == 9 then 0x47e0a5d7 else if j == 10 then 0x25c22cee else if j == 11 then 0xf8878656 else
    if j == 12 then 0xe1873e9c else if j == 13 then 0x3cc29424 else if j == 14 then 0x5ee01d1d else
    0x83a5b7a5
  }

  function Table3Row12(j: bv8): bv32 {
    if j == 0 then 0xf90696d8 else if j == 1 then 0x24433c60 else if j == 2 then 0x4661b559 else
    if j == 3 then 0x9b241fe1 else if j == 4 then 0x8224a72b else if j == 5 then 0x5f610d93 else
    if j == 6 then 0x3d4384aa else if j == 7 then 0xe0062e12 else if j == 8 then 0x0f42f53e else
    if j == 9 then 0xd2075f86 else if j == 10 then 0xb025d6bf else if j == 11 then 0x6d607c07 else
    if j == 12 then 0x7460c4cd else if j == 13 then 0xa9256e75 else if j == 14 then 0xcb07e74c else
    0x16424df4
  }

  function Table3Row13(j: bv8): bv32 {
    if j == 0 then 0x106227e5 else if j == 1 then 0xcd278d5d else if j == 2 then 0xaf050464 else
    if j == 3 then 0x7240aedc else if j == 4 then 0x6b401616 else if j == 5 then 0xb605bcae else
    if j == 6 then 0xd4273597 else if j == 7 then 0x09629f2f else if j == 8 then 0xe6264403 else
    if j == 9 then 0x3b63eebb else if j == 10 then 0x59416782 else if j == 11 then 0x8404cd3a else
    if j == 12 then 0x9d0475f0 else if j == 13 then 0x4041df48 else if j == 14 then 0x22635671 else
    0xff26fcc9
  }

  function Table3Row14(j: bv8): bv32 {
    if j == 0 then 0x2e238253 else if j == 1 then 0xf36628eb else if j == 2 then 0x9144a1d2 else
    if j == 3 then 0x4c010b6a else if j == 4 then 0x5501b3a0 else if j == 5 then 0x88441918 else
    if j == 6 then 0xea669021 else if j == 7 then 0x37233a99 else if j == 8 then 0xd867e1b5 else
    if j == 9 then 0x05224b0d else if j == 10 then 0x6700c234 else if j == 11 then 0xba45688c else
    if j == 12 then 0xa345d046 else if j == 13 then 0x7e007afe else if j == 14 then 0x1c22f3c7 else
    0xc167597f
  }

  function Table3Row15(j: bv8): bv32 {
    if j == 0 then 0xc747336e else if j == 1 then 0x1a0299d6 else if j == 2 then 0x782010ef else
    if j == 3 then 0xa565ba57 else if j == 4 then 0xbc65029d else if j == 5 then 0x6120a825 else
    if j == 6 then 0x0302211c else if j == 7 then 0xde478ba4 else if j == 8 then 0x31035088 else
    if j == 9 then 0xec46fa30 else if j == 10 then 0x8e647309 else if j == 11 then 0x5321d9b1 else
    if j == 12 then 0x4a21617b else if j == 13 then 0x9764cbc3 else if j == 14 then 0xf54642fa else
    0x2803e842
  }
}
