/** The lookup tables of CryptoNight/oaes_lib.c, a row of sixteen bytes to a line. */
module OaesTables {

  /** Byte `x` of a row, the first one being the highest. */
  function At(row: bv128, x: bv4): bv8 {
    ((row >> (8 * (15 - (x as bv8)))) & 0xff) as bv8
  }

  function SubByteValue(y: bv4, x: bv4): bv8 {
    if y == 0 then At(0x637c777b_f26b6fc5_3001672b_fed7ab76, x)
    else if y == 1 then At(0xca82c97d_fa5947f0_add4a2af_9ca472c0, x)
    else if y == 2 then At(0xb7fd9326_363ff7cc_34a5e5f1_71d83115, x)
    else if y == 3 then At(0x04c723c3_1896059a_071280e2_eb27b275, x)
    else if y == 4 then At(0x09832c1a_1b6e5aa0_523bd6b3_29e32f84, x)
    else if y == 5 then At(0x53d100ed_20fcb15b_6acbbe39_4a4c58cf, x)
    else if y == 6 then At(0xd0efaafb_434d3385_45f9027f_503c9fa8, x)
    else if y == 7 then At(0x51a3408f_929d38f5_bcb6da21_10fff3d2, x)
    else if y == 8 then At(0xcd0c13ec_5f974417_c4a77e3d_645d1973, x)
    else if y == 9 then At(0x60814fdc_222a9088_46eeb814_de5e0bdb, x)
    else if y == 10 then At(0xe0323a0a_4906245c_c2d3ac62_9195e479, x)
    else if y == 11 then At(0xe7c8376d_8dd54ea9_6c56f4ea_657aae08, x)
    else if y == 12 then At(0xba78252e_1ca6b4c6_e8dd741f_4bbd8b8a, x)
    else if y == 13 then At(0x703eb566_4803f60e_613557b9_86c11d9e, x)
    else if y == 14 then At(0xe1f89811_69d98e94_9b1e87e9_ce5528df, x)
    else At(0x8ca1890d_bfe64268_41992d0f_b054bb16, x)
  }

  function InvSubByteValue(y: bv4, x: bv4): bv8 {
    if y == 0 then At(0x52096ad5_3036a538_bf40a39e_81f3d7fb, x)
    else if y == 1 then At(0x7ce33982_9b2fff87_348e4344_c4dee9cb, x)
    else if y == 2 then At(0x547b9432_a6c2233d_ee4c950b_42fac34e, x)
    else if y == 3 then At(0x082ea166_28d924b2_765ba249_6d8bd125, x)
    else if y == 4 then At(0x72f8f664_86689816_d4a45ccc_5d65b692, x)
    else if y == 5 then At(0x6c704850_fdedb9da_5e154657_a78d9d84, x)
    else if y == 6 then At(0x90d8ab00_8cbcd30a_f7e45805_b8b34506, x)
    else if y == 7 then At(0xd02c1e8f_ca3f0f02_c1afbd03_01138a6b, x)
    else if y == 8 then At(0x3a911141_4f67dcea_97f2cfce_f0b4e673, x)
    else if y == 9 then At(0x96ac7422_e7ad3585_e2f937e8_1c75df6e, x)
    else if y == 10 then At(0x47f11a71_1d29c589_6fb7620e_aa18be1b, x)
    else if y == 11 then At(0xfc563e4b_c6d27920_9adbc0fe_78cd5af4, x)
    else if y == 12 then At(0x1fdda833_8807c731_b1121059_2780ec5f, x)
    else if y == 13 then At(0x60517fa9_19b54a0d_2de57a9f_93c99cef, x)
    else if y == 14 then At(0xa0e03b4d_ae2af5b0_c8ebbb3c_83539961, x)
    else At(0x172b047e_ba77d626_e1691463_55210c7d, x)
  }

  function GfMul2(y: bv4, x: bv4): bv8 {
    if y == 0 then At(0x00020406_080a0c0e_10121416_181a1c1e, x)
    else if y == 1 then At(0x20222426_282a2c2e_30323436_383a3c3e, x)
    else if y == 2 then At(0x40424446_484a4c4e_50525456_585a5c5e, x)
    else if y == 3 then At(0x60626466_686a6c6e_70727476_787a7c7e, x)
    else if y == 4 then At(0x80828486_888a8c8e_90929496_989a9c9e, x)
    else if y == 5 then At(0xa0a2a4a6_a8aaacae_b0b2b4b6_b8babcbe, x)
    else if y == 6 then At(0xc0c2c4c6_c8caccce_d0d2d4d6_d8dadcde, x)
    else if y == 7 then At(0xe0e2e4e6_e8eaecee_f0f2f4f6_f8fafcfe, x)
    else if y == 8 then At(0x1b191f1d_13111715_0b090f0d_03010705, x)
    else if y == 9 then At(0x3b393f3d_33313735_2b292f2d_23212725, x)
    else if y == 10 then At(0x5b595f5d_53515755_4b494f4d_43414745, x)
    else if y == 11 then At(0x7b797f7d_73717775_6b696f6d_63616765, x)
    else if y == 12 then At(0x9b999f9d_93919795_8b898f8d_83818785, x)
    else if y == 13 then At(0xbbb9bfbd_b3b1b7b5_aba9afad_a3a1a7a5, x)
    else if y == 14 then At(0xdbd9dfdd_d3d1d7d5_cbc9cfcd_c3c1c7c5, x)
    else At(0xfbf9fffd_f3f1f7f5_ebe9efed_e3e1e7e5, x)
  }

  function GfMul3(y: bv4, x: bv4): bv8 {
    if y == 0 then At(0x00030605_0c0f0a09_181b1e1d_14171211, x)
    else if y == 1 then At(0x30333635_3c3f3a39_282b2e2d_24272221, x)
    else if y == 2 then At(0x60636665_6c6f6a69_787b7e7d_74777271, x)
    else if y == 3 then At(0x50535655_5c5f5a59_484b4e4d_44474241, x)
    else if y == 4 then At(0xc0c3c6c5_cccfcac9_d8dbdedd_d4d7d2d1, x)
    else if y == 5 then At(0xf0f3f6f5_fcfffaf9_e8ebeeed_e4e7e2e1, x)
    else if y == 6 then At(0xa0a3a6a5_acafaaa9_b8bbbebd_b4b7b2b1, x)
    else if y == 7 then At(0x90939695_9c9f9a99_888b8e8d_84878281, x)
    else if y == 8 then At(0x9b989d9e_97949192_83808586_8f8c898a, x)
    else if y == 9 then At(0xaba8adae_a7a4a1a2_b3b0b5b6_bfbcb9ba, x)
    else if y == 10 then At(0xfbf8fdfe_f7f4f1f2_e3e0e5e6_efece9ea, x)
    else if y == 11 then At(0xcbc8cdce_c7c4c1c2_d3d0d5d6_dfdcd9da, x)
    else if y == 12 then At(0x5b585d5e_57545152_43404546_4f4c494a, x)
    else if y == 13 then At(0x6b686d6e_67646162_73707576_7f7c797a, x)
    else if y == 14 then At(0x3b383d3e_37343132_23202526_2f2c292a, x)
    else At(0x0b080d0e_07040102_13101516_1f1c191a, x)
  }

  function GfMul9(y: bv4, x: bv4): bv8 {
    if y == 0 then At(0x0009121b_242d363f_48415a53_6c657e77, x)
    else if y == 1 then At(0x9099828b_b4bda6af_d8d1cac3_fcf5eee7, x)
    else if y == 2 then At(0x3b322920_1f160d04_737a6168_575e454c, x)
    else if y == 3 then At(0xaba2b9b0_8f869d94_e3eaf1f8_c7ced5dc, x)
    else if y == 4 then At(0x767f646d_525b4049_3e372c25_1a130801, x)
    else if y == 5 then At(0xe6eff4fd_c2cbd0d9_aea7bcb5_8a839891, x)
    else if y == 6 then At(0x4d445f56_69607b72_050c171e_2128333a, x)
    else if y == 7 then At(0xddd4cfc6_f9f0ebe2_959c878e_b1b8a3aa, x)
    else if y == 8 then At(0xece5fef7_c8c1dad3_a4adb6bf_8089929b, x)
    else if y == 9 then At(0x7c756e67_58514a43_343d262f_1019020b, x)
    else if y == 10 then At(0xd7dec5cc_f3fae1e8_9f968d84_bbb2a9a0, x)
    else if y == 11 then At(0x474e555c_636a7178_0f061d14_2b223930, x)
    else if y == 12 then At(0x9a938881_beb7aca5_d2dbc0c9_f6ffe4ed, x)
    else if y == 13 then At(0x0a031811_2e273c35_424b5059_666f747d, x)
    else if y == 14 then At(0xa1a8b3ba_858c979e_e9e0fbf2_cdc4dfd6, x)
    else At(0x3138232a_151c070e_79706b62_5d544f46, x)
  }

  function GfMulB(y: bv4, x: bv4): bv8 {
    if y == 0 then At(0x000b161d_2c273a31_58534e45_747f6269, x)
    else if y == 1 then At(0xb0bba6ad_9c978a81_e8e3fef5_c4cfd2d9, x)
    else if y == 2 then At(0x7b706d66_575c414a_2328353e_0f041912, x)
    else if y == 3 then At(0xcbc0ddd6_e7ecf1fa_9398858e_bfb4a9a2, x)
    else if y == 4 then At(0xf6fde0eb_dad1ccc7_aea5b8b3_8289949f, x)
    else if y == 5 then At(0x464d505b_6a617c77_1e150803_3239242f, x)
    else if y == 6 then At(0x8d869b90_a1aab7bc_d5dec3c8_f9f2efe4, x)
    else if y == 7 then At(0x3d362b20_111a070c_656e7378_49425f54, x)
    else if y == 8 then At(0xf7fce1ea_dbd0cdc6_afa4b9b2_8388959e, x)
    else if y == 9 then At(0x474c515a_6b607d76_1f140902_3338252e, x)
    else if y == 10 then At(0x8c879a91_a0abb6bd_d4dfc2c9_f8f3eee5, x)
    else if y == 11 then At(0x3c372a21_101b060d_646f7279_48435e55, x)
    else if y == 12 then At(0x010a171c_2d263b30_59524f44_757e6368, x)
    else if y == 13 then At(0xb1baa7ac_9d968b80_e9e2fff4_c5ced3d8, x)
    else if y == 14 then At(0x7a716c67_565d404b_2229343f_0e051813, x)
    else At(0xcac1dcd7_e6edf0fb_9299848f_beb5a8a3, x)
  }

  function GfMulD(y: bv4, x: bv4): bv8 {
    if y == 0 then At(0x000d1a17_34392e23_6865727f_5c51464b, x)
    else if y == 1 then At(0xd0ddcac7_e4e9fef3_b8b5a2af_8c81969b, x)
    else if y == 2 then At(0xbbb6a1ac_8f829598_d3dec9c4_e7eafdf0, x)
    else if y == 3 then At(0x6b66717c_5f524548_030e1914_373a2d20, x)
    else if y == 4 then At(0x6d60777a_5954434e_05081f12_313c2b26, x)
    else if y == 5 then At(0xbdb0a7aa_8984939e_d5d8cfc2_e1ecfbf6, x)
    else if y == 6 then At(0xd6dbccc1_e2eff8f5_beb3a4a9_8a87909d, x)
    else if y == 7 then At(0x060b1c11_323f2825_6e637479_5a57404d, x)
    else if y == 8 then At(0xdad7c0cd_eee3f4f9_b2bfa8a5_868b9c91, x)
    else if y == 9 then At(0x0a07101d_3e332429_626f7875_565b4c41, x)
    else if y == 10 then At(0x616c7b76_55584f42_0904131e_3d30272a, x)
    else if y == 11 then At(0xb1bcaba6_85889f92_d9d4c3ce_ede0f7fa, x)
    else if y == 12 then At(0xb7baada0_838e9994_dfd2c5c8_ebe6f1fc, x)
    else if y == 13 then At(0x676a7d70_535e4944_0f021518_3b36212c, x)
    else if y == 14 then At(0x0c01161b_3835222f_64697e73_505d4a47, x)
    else At(0xdcd1c6cb_e8e5f2ff_b4b9aea3_808d9a97, x)
  }

  function GfMulE(y: bv4, x: bv4): bv8 {
    if y == 0 then At(0x000e1c12_3836242a_707e6c62_4846545a, x)
    else if y == 1 then At(0xe0eefcf2_d8d6c4ca_909e8c82_a8a6b4ba, x)
    else if y == 2 then At(0xdbd5c7c9_e3edfff1_aba5b7b9_939d8f81, x)
    else if y == 3 then At(0x3b352729_030d1f11_4b455759_737d6f61, x)
    else if y == 4 then At(0xada3b1bf_959b8987_ddd3c1cf_e5ebf9f7, x)
    else if y == 5 then At(0x4d43515f_757b6967_3d33212f_050b1917, x)
    else if y == 6 then At(0x76786a64_4e40525c_06081a14_3e30222c, x)
    else if y == 7 then At(0x96988a84_aea0b2bc_e6e8faf4_ded0c2cc, x)
    else if y == 8 then At(0x414f5d53_7977656b_313f2d23_0907151b, x)
    else if y == 9 then At(0xa1afbdb3_9997858b_d1dfcdc3_e9e7f5fb, x)
    else if y == 10 then At(0x9a948688_a2acbeb0_eae4f6f8_d2dccec0, x)
    else if y == 11 then At(0x7a746668_424c5e50_0a041618_323c2e20, x)
    else if y == 12 then At(0xece2f0fe_d4dac8c6_9c92808e_a4aab8b6, x)
    else if y == 13 then At(0x0c02101e_343a2826_7c72606e_444a5856, x)
    else if y == 14 then At(0x37392b25_0f01131d_47495b55_7f71636d, x)
    else At(0xd7d9cbc5_efe1f3fd_a7a9bbb5_9f91838d, x)
  }

  function LowNibble(b: bv8): bv4 { (b & 0x0f) as bv4 }
  function HighNibble(b: bv8): bv4 { (b >> 4) as bv4 }

  /** oaes_sub_byte */
  function SubByte(b: bv8): bv8 { SubByteValue(HighNibble(b), LowNibble(b)) }

  /** oaes_inv_sub_byte */
  function InvSubByte(b: bv8): bv8 { InvSubByteValue(HighNibble(b), LowNibble(b)) }

  // The second table undoes the first, row by row.

  lemma InverseRow0(b: bv8)
    requires b >> 4 == 0
    ensures InvSubByte(SubByte(b)) == b
  {}

  lemma InverseRow1(b: bv8)
    requires b >> 4 == 1
    ensures InvSubByte(SubByte(b)) == b
  {}

  lemma InverseRow2(b: bv8)
    requires b >> 4 == 2
    ensures InvSubByte(SubByte(b)) == b
  {}

  lemma InverseRow3(b: bv8)
    requires b >> 4 == 3
    ensures InvSubByte(SubByte(b)) == b
  {}

  lemma InverseRow4(b: bv8)
    requires b >> 4 == 4
    ensures InvSubByte(SubByte(b)) == b
  {}

  lemma InverseRow5(b: bv8)
    requires b >> 4 == 5
    ensures InvSubByte(SubByte(b)) == b
  {}

  lemma InverseRow6(b: bv8)
    requires b >> 4 == 6
    ensures InvSubByte(SubByte(b)) == b
  {}

  lemma InverseRow7(b: bv8)
    requires b >> 4 == 7
    ensures InvSubByte(SubByte(b)) == b
  {}

  lemma InverseRow8(b: bv8)
    requires b >> 4 == 8
    ensures InvSubByte(SubByte(b)) == b
  {}

  lemma InverseRow9(b: bv8)
    requires b >> 4 == 9
    ensures InvSubByte(SubByte(b)) == b
  {}

  lemma InverseRow10(b: bv8)
    requires b >> 4 == 10
    ensures InvSubByte(SubByte(b)) == b
  {}

  lemma InverseRow11(b: bv8)
    requires b >> 4 == 11
    ensures InvSubByte(SubByte(b)) == b
  {}

  lemma InverseRow12(b: bv8)
    requires b >> 4 == 12
    ensures InvSubByte(SubByte(b)) == b
  {}

  lemma InverseRow13(b: bv8)
    requires b >> 4 == 13
    ensures InvSubByte(SubByte(b)) == b
  {}

  lemma InverseRow14(b: bv8)
    requires b >> 4 == 14
    ensures InvSubByte(SubByte(b)) == b
  {}

  lemma InverseRow15(b: bv8)
    requires b >> 4 == 15
    ensures InvSubByte(SubByte(b)) == b
  {}

  lemma InvSubByteInverts(b: bv8)
    ensures InvSubByte(SubByte(b)) == b
  {
    hide SubByte, InvSubByte;
    NibbleCases(b);
    var y := b >> 4;
    if y == 0 { InverseRow0(b); }
    else if y == 1 { InverseRow1(b); }
    else if y == 2 { InverseRow2(b); }
    else if y == 3 { InverseRow3(b); }
    else if y == 4 { InverseRow4(b); }
    else if y == 5 { InverseRow5(b); }
    else if y == 6 { InverseRow6(b); }
    else if y == 7 { InverseRow7(b); }
    else if y == 8 { InverseRow8(b); }
    else if y == 9 { InverseRow9(b); }
    else if y == 10 { InverseRow10(b); }
    else if y == 11 { InverseRow11(b); }
    else if y == 12 { InverseRow12(b); }
    else if y == 13 { InverseRow13(b); }
    else if y == 14 { InverseRow14(b); }
    else if y == 15 { InverseRow15(b); }
  }

  lemma NibbleCases(b: bv8)
    ensures b >> 4 < 16
  {}

  // ----- multiplication in GF(2^8)

  /** Multiplication by x modulo x^8 + x^4 + x^3 + x + 1 (section 4.2.1 of FIPS 197). */
  function XTime(b: bv8): bv8 {
    (b << 1) ^ (if b & 0x80 != 0 then 0x1b else 0)
  }

  /** oaes_gf_mul: a lookup for the six factors the cipher uses, the byte itself for any other. */
  function GfMul(left: bv8, right: bv8): bv8 {
    var x, y := LowNibble(left), HighNibble(left);
    if right == 0x02 then GfMul2(y, x)
    else if right == 0x03 then GfMul3(y, x)
    else if right == 0x09 then GfMul9(y, x)
    else if right == 0x0b then GfMulB(y, x)
    else if right == 0x0d then GfMulD(y, x)
    else if right == 0x0e then GfMulE(y, x)
    else left
  }

  /** The product of the field, by shifting and adding. */
  function Product(b: bv8, factor: bv8): bv8 {
    var x2 := XTime(b);
    var x4 := XTime(x2);
    var x8 := XTime(x4);
    (if factor & 1 != 0 then b else 0) ^ (if factor & 2 != 0 then x2 else 0) ^
    (if factor & 4 != 0 then x4 else 0) ^ (if factor & 8 != 0 then x8 else 0)
  }

  lemma Table2Low(b: bv8)
    requires b < 0x80
    ensures GfMul2(HighNibble(b), LowNibble(b)) == Product(b, 2)
  {}

  lemma Table2High(b: bv8)
    requires b >= 0x80
    ensures GfMul2(HighNibble(b), LowNibble(b)) == Product(b, 2)
  {}

  lemma Table3Low(b: bv8)
    requires b < 0x80
    ensures GfMul3(HighNibble(b), LowNibble(b)) == Product(b, 3)
  {}

  lemma Table3High(b: bv8)
    requires b >= 0x80
    ensures GfMul3(HighNibble(b), LowNibble(b)) == Product(b, 3)
  {}

  lemma Table9Low(b: bv8)
    requires b < 0x80
    ensures GfMul9(HighNibble(b), LowNibble(b)) == Product(b, 9)
  {}

  lemma Table9High(b: bv8)
    requires b >= 0x80
    ensures GfMul9(HighNibble(b), LowNibble(b)) == Product(b, 9)
  {}

  lemma TableBLow(b: bv8)
    requires b < 0x80
    ensures GfMulB(HighNibble(b), LowNibble(b)) == Product(b, 0xb)
  {}

  lemma TableBHigh(b: bv8)
    requires b >= 0x80
    ensures GfMulB(HighNibble(b), LowNibble(b)) == Product(b, 0xb)
  {}

  lemma TableDLow(b: bv8)
    requires b < 0x80
    ensures GfMulD(HighNibble(b), LowNibble(b)) == Product(b, 0xd)
  {}

  lemma TableDHigh(b: bv8)
    requires b >= 0x80
    ensures GfMulD(HighNibble(b), LowNibble(b)) == Product(b, 0xd)
  {}

  lemma TableELow(b: bv8)
    requires b < 0x80
    ensures GfMulE(HighNibble(b), LowNibble(b)) == Product(b, 0xe)
  {}

  lemma TableEHigh(b: bv8)
    requires b >= 0x80
    ensures GfMulE(HighNibble(b), LowNibble(b)) == Product(b, 0xe)
  {}

  /** Every table holds the products it is named after. */
  lemma TablesHoldProducts(b: bv8)
    ensures GfMul(b, 2) == Product(b, 2) && GfMul(b, 3) == Product(b, 3) && GfMul(b, 9) == Product(b, 9)
    ensures GfMul(b, 0xb) == Product(b, 0xb) && GfMul(b, 0xd) == Product(b, 0xd) && GfMul(b, 0xe) == Product(b, 0xe)
  {
    hide Product, GfMul2, GfMul3, GfMul9, GfMulB, GfMulD, GfMulE, HighNibble, LowNibble;
    if b < 0x80 {
      Table2Low(b); Table3Low(b); Table9Low(b); TableBLow(b); TableDLow(b); TableELow(b);
    } else {
      Table2High(b); Table3High(b); Table9High(b); TableBHigh(b); TableDHigh(b); TableEHigh(b);
    }
  }

  // ----- the substitution is an affine map of the inverse in the field

  function Rotl(b: bv8, n: nat): bv8
    requires 0 < n < 8
  {
    (b << n) | (b >> (8 - n))
  }

  /** The affine map of section 5.1.1 of FIPS 197. */
  function Affine(b: bv8): bv8 { b ^ Rotl(b, 1) ^ Rotl(b, 2) ^ Rotl(b, 3) ^ Rotl(b, 4) ^ 0x63 }

  function UnAffine(b: bv8): bv8 { Rotl(b, 1) ^ Rotl(b, 3) ^ Rotl(b, 6) ^ 0x05 }

  /** The product of any two bytes: the low half of one times the other, and 16 times the high half. */
  function FieldProduct(a: bv8, b: bv8): bv8 {
    Product(a, b & 0x0f) ^ Product(XTime(XTime(XTime(XTime(a)))), b >> 4)
  }

  lemma AffineOfUnAffine(b: bv8)
    ensures Affine(UnAffine(b)) == b
  {}

  lemma InverseQuarter0(b: bv8)
    requires 0 < b < 0x40
    ensures FieldProduct(b, UnAffine(SubByte(b))) == 1
  {}

  lemma InverseQuarter1(b: bv8)
    requires 0x40 <= b < 0x80
    ensures FieldProduct(b, UnAffine(SubByte(b))) == 1
  {}

  lemma InverseQuarter2(b: bv8)
    requires 0x80 <= b < 0xc0
    ensures FieldProduct(b, UnAffine(SubByte(b))) == 1
  {}

  lemma InverseQuarter3(b: bv8)
    requires 0xc0 <= b
    ensures FieldProduct(b, UnAffine(SubByte(b))) == 1
  {}

  lemma SubByteOfZero()
    ensures UnAffine(SubByte(0)) == 0
  {}

  /** The table holds what section 5.1.1 of FIPS 197 defines: the inverse in the field, zero for zero, then mapped. */
  lemma SubByteIsAffineInverse(b: bv8) returns (inverse: bv8)
    ensures SubByte(b) == Affine(inverse)
    ensures if b == 0 then inverse == 0 else FieldProduct(b, inverse) == 1
  {
    hide SubByte, Affine, UnAffine, FieldProduct;
    inverse := UnAffine(SubByte(b));
    AffineOfUnAffine(SubByte(b));
    if b == 0 {
      SubByteOfZero();
    } else if b < 0x40 {
      InverseQuarter0(b);
    } else if b < 0x80 {
      InverseQuarter1(b);
    } else if b < 0xc0 {
      InverseQuarter2(b);
    } else {
      InverseQuarter3(b);
    }
  }
}
