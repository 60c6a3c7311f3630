/** The CRC-24 table of crc24.c, checked entry by entry against bitwise division. */
module Crc24Table {
  /** The generator polynomial, least significant coefficient in the top bit. */
  const POLY: bv32 := 0xad85dd

  /** One step of the reflected division. */
  function BitStep(s: bv32): bv32
  {
    (s >> 1) ^ (if s & 1 == 1 then POLY else 0)
  }

  /** Eight steps: what one byte of zeros does to the register. */
  function ByteStep(s: bv32): bv32
  {
    BitStep(BitStep(BitStep(BitStep(BitStep(BitStep(BitStep(BitStep(s))))))))
  }

  function Entries00(i: bv8): bv32
  {
    match i
    case 0x00 => 0x00000000 case 0x01 => 0x00d6a776 case 0x02 => 0x00f64557 case 0x03 => 0x0020e221
    case 0x04 => 0x00b78115 case 0x05 => 0x00612663 case 0x06 => 0x0041c442 case 0x07 => 0x00976334
    case 0x08 => 0x00340991 case 0x09 => 0x00e2aee7 case 0x0a => 0x00c24cc6 case 0x0b => 0x0014ebb0
    case 0x0c => 0x00838884 case 0x0d => 0x00552ff2 case 0x0e => 0x0075cdd3 case _ => 0x00a36aa5
  }

  lemma Checked00(i: bv8)
    requires 0x00 <= i <= 0x0f
    ensures Entries00(i) == ByteStep(i as bv32)
  {
    if i == 0x00 { assert ByteStep(0x00) == 0x00000000; }
    if i == 0x01 { assert ByteStep(0x01) == 0x00d6a776; }
    if i == 0x02 { assert ByteStep(0x02) == 0x00f64557; }
    if i == 0x03 { assert ByteStep(0x03) == 0x0020e221; }
    if i == 0x04 { assert ByteStep(0x04) == 0x00b78115; }
    if i == 0x05 { assert ByteStep(0x05) == 0x00612663; }
    if i == 0x06 { assert ByteStep(0x06) == 0x0041c442; }
    if i == 0x07 { assert ByteStep(0x07) == 0x00976334; }
    if i == 0x08 { assert ByteStep(0x08) == 0x00340991; }
    if i == 0x09 { assert ByteStep(0x09) == 0x00e2aee7; }
    if i == 0x0a { assert ByteStep(0x0a) == 0x00c24cc6; }
    if i == 0x0b { assert ByteStep(0x0b) == 0x0014ebb0; }
    if i == 0x0c { assert ByteStep(0x0c) == 0x00838884; }
    if i == 0x0d { assert ByteStep(0x0d) == 0x00552ff2; }
    if i == 0x0e { assert ByteStep(0x0e) == 0x0075cdd3; }
    if i == 0x0f { assert ByteStep(0x0f) == 0x00a36aa5; }
  }

  function Entries10(i: bv8): bv32
  {
    match i
    case 0x10 => 0x00681322 case 0x11 => 0x00beb454 case 0x12 => 0x009e5675 case 0x13 => 0x0048f103
    case 0x14 => 0x00df9237 case 0x15 => 0x00093541 case 0x16 => 0x0029d760 case 0x17 => 0x00ff7016
    case 0x18 => 0x005c1ab3 case 0x19 => 0x008abdc5 case 0x1a => 0x00aa5fe4 case 0x1b => 0x007cf892
    case 0x1c => 0x00eb9ba6 case 0x1d => 0x003d3cd0 case 0x1e => 0x001ddef1 case _ => 0x00cb7987
  }

  lemma Checked10(i: bv8)
    requires 0x10 <= i <= 0x1f
    ensures Entries10(i) == ByteStep(i as bv32)
  {
    if i == 0x10 { assert ByteStep(0x10) == 0x00681322; }
    if i == 0x11 { assert ByteStep(0x11) == 0x00beb454; }
    if i == 0x12 { assert ByteStep(0x12) == 0x009e5675; }
    if i == 0x13 { assert ByteStep(0x13) == 0x0048f103; }
    if i == 0x14 { assert ByteStep(0x14) == 0x00df9237; }
    if i == 0x15 { assert ByteStep(0x15) == 0x00093541; }
    if i == 0x16 { assert ByteStep(0x16) == 0x0029d760; }
    if i == 0x17 { assert ByteStep(0x17) == 0x00ff7016; }
    if i == 0x18 { assert ByteStep(0x18) == 0x005c1ab3; }
    if i == 0x19 { assert ByteStep(0x19) == 0x008abdc5; }
    if i == 0x1a { assert ByteStep(0x1a) == 0x00aa5fe4; }
    if i == 0x1b { assert ByteStep(0x1b) == 0x007cf892; }
    if i == 0x1c { assert ByteStep(0x1c) == 0x00eb9ba6; }
    if i == 0x1d { assert ByteStep(0x1d) == 0x003d3cd0; }
    if i == 0x1e { assert ByteStep(0x1e) == 0x001ddef1; }
    if i == 0x1f { assert ByteStep(0x1f) == 0x00cb7987; }
  }

  function Entries20(i: bv8): bv32
  {
    match i
    case 0x20 => 0x00d02644 case 0x21 => 0x00068132 case 0x22 => 0x00266313 case 0x23 => 0x00f0c465
    case 0x24 => 0x0067a751 case 0x25 => 0x00b10027 case 0x26 => 0x0091e206 case 0x27 => 0x00474570
    case 0x28 => 0x00e42fd5 case 0x29 => 0x003288a3 case 0x2a => 0x00126a82 case 0x2b => 0x00c4cdf4
    case 0x2c => 0x0053aec0 case 0x2d => 0x008509b6 case 0x2e => 0x00a5eb97 case _ => 0x00734ce1
  }

  lemma Checked20(i: bv8)
    requires 0x20 <= i <= 0x2f
    ensures Entries20(i) == ByteStep(i as bv32)
  {
    if i == 0x20 { assert ByteStep(0x20) == 0x00d02644; }
    if i == 0x21 { assert ByteStep(0x21) == 0x00068132; }
    if i == 0x22 { assert ByteStep(0x22) == 0x00266313; }
    if i == 0x23 { assert ByteStep(0x23) == 0x00f0c465; }
    if i == 0x24 { assert ByteStep(0x24) == 0x0067a751; }
    if i == 0x25 { assert ByteStep(0x25) == 0x00b10027; }
    if i == 0x26 { assert ByteStep(0x26) == 0x0091e206; }
    if i == 0x27 { assert ByteStep(0x27) == 0x00474570; }
    if i == 0x28 { assert ByteStep(0x28) == 0x00e42fd5; }
    if i == 0x29 { assert ByteStep(0x29) == 0x003288a3; }
    if i == 0x2a { assert ByteStep(0x2a) == 0x00126a82; }
    if i == 0x2b { assert ByteStep(0x2b) == 0x00c4cdf4; }
    if i == 0x2c { assert ByteStep(0x2c) == 0x0053aec0; }
    if i == 0x2d { assert ByteStep(0x2d) == 0x008509b6; }
    if i == 0x2e { assert ByteStep(0x2e) == 0x00a5eb97; }
    if i == 0x2f { assert ByteStep(0x2f) == 0x00734ce1; }
  }

  function Entries30(i: bv8): bv32
  {
    match i
    case 0x30 => 0x00b83566 case 0x31 => 0x006e9210 case 0x32 => 0x004e7031 case 0x33 => 0x0098d747
    case 0x34 => 0x000fb473 case 0x35 => 0x00d91305 case 0x36 => 0x00f9f124 case 0x37 => 0x002f5652
    case 0x38 => 0x008c3cf7 case 0x39 => 0x005a9b81 case 0x3a => 0x007a79a0 case 0x3b => 0x00acded6
    case 0x3c => 0x003bbde2 case 0x3d => 0x00ed1a94 case 0x3e => 0x00cdf8b5 case _ => 0x001b5fc3
  }

  lemma Checked30(i: bv8)
    requires 0x30 <= i <= 0x3f
    ensures Entries30(i) == ByteStep(i as bv32)
  {
    if i == 0x30 { assert ByteStep(0x30) == 0x00b83566; }
    if i == 0x31 { assert ByteStep(0x31) == 0x006e9210; }
    if i == 0x32 { assert ByteStep(0x32) == 0x004e7031; }
    if i == 0x33 { assert ByteStep(0x33) == 0x0098d747; }
    if i == 0x34 { assert ByteStep(0x34) == 0x000fb473; }
    if i == 0x35 { assert ByteStep(0x35) == 0x00d91305; }
    if i == 0x36 { assert ByteStep(0x36) == 0x00f9f124; }
    if i == 0x37 { assert ByteStep(0x37) == 0x002f5652; }
    if i == 0x38 { assert ByteStep(0x38) == 0x008c3cf7; }
    if i == 0x39 { assert ByteStep(0x39) == 0x005a9b81; }
    if i == 0x3a { assert ByteStep(0x3a) == 0x007a79a0; }
    if i == 0x3b { assert ByteStep(0x3b) == 0x00acded6; }
    if i == 0x3c { assert ByteStep(0x3c) == 0x003bbde2; }
    if i == 0x3d { assert ByteStep(0x3d) == 0x00ed1a94; }
    if i == 0x3e { assert ByteStep(0x3e) == 0x00cdf8b5; }
    if i == 0x3f { assert ByteStep(0x3f) == 0x001b5fc3; }
  }

  function Entries40(i: bv8): bv32
  {
    match i
    case 0x40 => 0x00fb4733 case 0x41 => 0x002de045 case 0x42 => 0x000d0264 case 0x43 => 0x00dba512
    case 0x44 => 0x004cc626 case 0x45 => 0x009a6150 case 0x46 => 0x00ba8371 case 0x47 => 0x006c2407
    case 0x48 => 0x00cf4ea2 case 0x49 => 0x0019e9d4 case 0x4a => 0x00390bf5 case 0x4b => 0x00efac83
    case 0x4c => 0x0078cfb7 case 0x4d => 0x00ae68c1 case 0x4e => 0x008e8ae0 case _ => 0x00582d96
  }

  lemma Checked40(i: bv8)
    requires 0x40 <= i <= 0x4f
    ensures Entries40(i) == ByteStep(i as bv32)
  {
    if i == 0x40 { assert ByteStep(0x40) == 0x00fb4733; }
    if i == 0x41 { assert ByteStep(0x41) == 0x002de045; }
    if i == 0x42 { assert ByteStep(0x42) == 0x000d0264; }
    if i == 0x43 { assert ByteStep(0x43) == 0x00dba512; }
    if i == 0x44 { assert ByteStep(0x44) == 0x004cc626; }
    if i == 0x45 { assert ByteStep(0x45) == 0x009a6150; }
    if i == 0x46 { assert ByteStep(0x46) == 0x00ba8371; }
    if i == 0x47 { assert ByteStep(0x47) == 0x006c2407; }
    if i == 0x48 { assert ByteStep(0x48) == 0x00cf4ea2; }
    if i == 0x49 { assert ByteStep(0x49) == 0x0019e9d4; }
    if i == 0x4a { assert ByteStep(0x4a) == 0x00390bf5; }
    if i == 0x4b { assert ByteStep(0x4b) == 0x00efac83; }
    if i == 0x4c { assert ByteStep(0x4c) == 0x0078cfb7; }
    if i == 0x4d { assert ByteStep(0x4d) == 0x00ae68c1; }
    if i == 0x4e { assert ByteStep(0x4e) == 0x008e8ae0; }
    if i == 0x4f { assert ByteStep(0x4f) == 0x00582d96; }
  }

  function Entries50(i: bv8): bv32
  {
    match i
    case 0x50 => 0x00935411 case 0x51 => 0x0045f367 case 0x52 => 0x00651146 case 0x53 => 0x00b3b630
    case 0x54 => 0x0024d504 case 0x55 => 0x00f27272 case 0x56 => 0x00d29053 case 0x57 => 0x00043725
    case 0x58 => 0x00a75d80 case 0x59 => 0x0071faf6 case 0x5a => 0x005118d7 case 0x5b => 0x0087bfa1
    case 0x5c => 0x0010dc95 case 0x5d => 0x00c67be3 case 0x5e => 0x00e699c2 case _ => 0x00303eb4
  }

  lemma Checked50(i: bv8)
    requires 0x50 <= i <= 0x5f
    ensures Entries50(i) == ByteStep(i as bv32)
  {
    if i == 0x50 { assert ByteStep(0x50) == 0x00935411; }
    if i == 0x51 { assert ByteStep(0x51) == 0x0045f367; }
    if i == 0x52 { assert ByteStep(0x52) == 0x00651146; }
    if i == 0x53 { assert ByteStep(0x53) == 0x00b3b630; }
    if i == 0x54 { assert ByteStep(0x54) == 0x0024d504; }
    if i == 0x55 { assert ByteStep(0x55) == 0x00f27272; }
    if i == 0x56 { assert ByteStep(0x56) == 0x00d29053; }
    if i == 0x57 { assert ByteStep(0x57) == 0x00043725; }
    if i == 0x58 { assert ByteStep(0x58) == 0x00a75d80; }
    if i == 0x59 { assert ByteStep(0x59) == 0x0071faf6; }
    if i == 0x5a { assert ByteStep(0x5a) == 0x005118d7; }
    if i == 0x5b { assert ByteStep(0x5b) == 0x0087bfa1; }
    if i == 0x5c { assert ByteStep(0x5c) == 0x0010dc95; }
    if i == 0x5d { assert ByteStep(0x5d) == 0x00c67be3; }
    if i == 0x5e { assert ByteStep(0x5e) == 0x00e699c2; }
    if i == 0x5f { assert ByteStep(0x5f) == 0x00303eb4; }
  }

  function Entries60(i: bv8): bv32
  {
    match i
    case 0x60 => 0x002b6177 case 0x61 => 0x00fdc601 case 0x62 => 0x00dd2420 case 0x63 => 0x000b8356
    case 0x64 => 0x009ce062 case 0x65 => 0x004a4714 case 0x66 => 0x006aa535 case 0x67 => 0x00bc0243
    case 0x68 => 0x001f68e6 case 0x69 => 0x00c9cf90 case 0x6a => 0x00e92db1 case 0x6b => 0x003f8ac7
    case 0x6c => 0x00a8e9f3 case 0x6d => 0x007e4e85 case 0x6e => 0x005eaca4 case _ => 0x00880bd2
  }

  lemma Checked60(i: bv8)
    requires 0x60 <= i <= 0x6f
    ensures Entries60(i) == ByteStep(i as bv32)
  {
    if i == 0x60 { assert ByteStep(0x60) == 0x002b6177; }
    if i == 0x61 { assert ByteStep(0x61) == 0x00fdc601; }
    if i == 0x62 { assert ByteStep(0x62) == 0x00dd2420; }
    if i == 0x63 { assert ByteStep(0x63) == 0x000b8356; }
    if i == 0x64 { assert ByteStep(0x64) == 0x009ce062; }
    if i == 0x65 { assert ByteStep(0x65) == 0x004a4714; }
    if i == 0x66 { assert ByteStep(0x66) == 0x006aa535; }
    if i == 0x67 { assert ByteStep(0x67) == 0x00bc0243; }
    if i == 0x68 { assert ByteStep(0x68) == 0x001f68e6; }
    if i == 0x69 { assert ByteStep(0x69) == 0x00c9cf90; }
    if i == 0x6a { assert ByteStep(0x6a) == 0x00e92db1; }
    if i == 0x6b { assert ByteStep(0x6b) == 0x003f8ac7; }
    if i == 0x6c { assert ByteStep(0x6c) == 0x00a8e9f3; }
    if i == 0x6d { assert ByteStep(0x6d) == 0x007e4e85; }
    if i == 0x6e { assert ByteStep(0x6e) == 0x005eaca4; }
    if i == 0x6f { assert ByteStep(0x6f) == 0x00880bd2; }
  }

  function Entries70(i: bv8): bv32
  {
    match i
    case 0x70 => 0x00437255 case 0x71 => 0x0095d523 case 0x72 => 0x00b53702 case 0x73 => 0x00639074
    case 0x74 => 0x00f4f340 case 0x75 => 0x00225436 case 0x76 => 0x0002b617 case 0x77 => 0x00d41161
    case 0x78 => 0x00777bc4 case 0x79 => 0x00a1dcb2 case 0x7a => 0x00813e93 case 0x7b => 0x005799e5
    case 0x7c => 0x00c0fad1 case 0x7d => 0x00165da7 case 0x7e => 0x0036bf86 case _ => 0x00e018f0
  }

  lemma Checked70(i: bv8)
    requires 0x70 <= i <= 0x7f
    ensures Entries70(i) == ByteStep(i as bv32)
  {
    if i == 0x70 { assert ByteStep(0x70) == 0x00437255; }
    if i == 0x71 { assert ByteStep(0x71) == 0x0095d523; }
    if i == 0x72 { assert ByteStep(0x72) == 0x00b53702; }
    if i == 0x73 { assert ByteStep(0x73) == 0x00639074; }
    if i == 0x74 { assert ByteStep(0x74) == 0x00f4f340; }
    if i == 0x75 { assert ByteStep(0x75) == 0x00225436; }
    if i == 0x76 { assert ByteStep(0x76) == 0x0002b617; }
    if i == 0x77 { assert ByteStep(0x77) == 0x00d41161; }
    if i == 0x78 { assert ByteStep(0x78) == 0x00777bc4; }
    if i == 0x79 { assert ByteStep(0x79) == 0x00a1dcb2; }
    if i == 0x7a { assert ByteStep(0x7a) == 0x00813e93; }
    if i == 0x7b { assert ByteStep(0x7b) == 0x005799e5; }
    if i == 0x7c { assert ByteStep(0x7c) == 0x00c0fad1; }
    if i == 0x7d { assert ByteStep(0x7d) == 0x00165da7; }
    if i == 0x7e { assert ByteStep(0x7e) == 0x0036bf86; }
    if i == 0x7f { assert ByteStep(0x7f) == 0x00e018f0; }
  }

  function Entries80(i: bv8): bv32
  {
    match i
    case 0x80 => 0x00ad85dd case 0x81 => 0x007b22ab case 0x82 => 0x005bc08a case 0x83 => 0x008d67fc
    case 0x84 => 0x001a04c8 case 0x85 => 0x00cca3be case 0x86 => 0x00ec419f case 0x87 => 0x003ae6e9
    case 0x88 => 0x00998c4c case 0x89 => 0x004f2b3a case 0x8a => 0x006fc91b case 0x8b => 0x00b96e6d
    case 0x8c => 0x002e0d59 case 0x8d => 0x00f8aa2f case 0x8e => 0x00d8480e case _ => 0x000eef78
  }

  lemma Checked80(i: bv8)
    requires 0x80 <= i <= 0x8f
    ensures Entries80(i) == ByteStep(i as bv32)
  {
    if i == 0x80 { assert ByteStep(0x80) == 0x00ad85dd; }
    if i == 0x81 { assert ByteStep(0x81) == 0x007b22ab; }
    if i == 0x82 { assert ByteStep(0x82) == 0x005bc08a; }
    if i == 0x83 { assert ByteStep(0x83) == 0x008d67fc; }
    if i == 0x84 { assert ByteStep(0x84) == 0x001a04c8; }
    if i == 0x85 { assert ByteStep(0x85) == 0x00cca3be; }
    if i == 0x86 { assert ByteStep(0x86) == 0x00ec419f; }
    if i == 0x87 { assert ByteStep(0x87) == 0x003ae6e9; }
    if i == 0x88 { assert ByteStep(0x88) == 0x00998c4c; }
    if i == 0x89 { assert ByteStep(0x89) == 0x004f2b3a; }
    if i == 0x8a { assert ByteStep(0x8a) == 0x006fc91b; }
    if i == 0x8b { assert ByteStep(0x8b) == 0x00b96e6d; }
    if i == 0x8c { assert ByteStep(0x8c) == 0x002e0d59; }
    if i == 0x8d { assert ByteStep(0x8d) == 0x00f8aa2f; }
    if i == 0x8e { assert ByteStep(0x8e) == 0x00d8480e; }
    if i == 0x8f { assert ByteStep(0x8f) == 0x000eef78; }
  }

  function Entries90(i: bv8): bv32
  {
    match i
    case 0x90 => 0x00c596ff case 0x91 => 0x00133189 case 0x92 => 0x0033d3a8 case 0x93 => 0x00e574de
    case 0x94 => 0x007217ea case 0x95 => 0x00a4b09c case 0x96 => 0x008452bd case 0x97 => 0x0052f5cb
    case 0x98 => 0x00f19f6e case 0x99 => 0x00273818 case 0x9a => 0x0007da39 case 0x9b => 0x00d17d4f
    case 0x9c => 0x00461e7b case 0x9d => 0x0090b90d case 0x9e => 0x00b05b2c case _ => 0x0066fc5a
  }

  lemma Checked90(i: bv8)
    requires 0x90 <= i <= 0x9f
    ensures Entries90(i) == ByteStep(i as bv32)
  {
    if i == 0x90 { assert ByteStep(0x90) == 0x00c596ff; }
    if i == 0x91 { assert ByteStep(0x91) == 0x00133189; }
    if i == 0x92 { assert ByteStep(0x92) == 0x0033d3a8; }
    if i == 0x93 { assert ByteStep(0x93) == 0x00e574de; }
    if i == 0x94 { assert ByteStep(0x94) == 0x007217ea; }
    if i == 0x95 { assert ByteStep(0x95) == 0x00a4b09c; }
    if i == 0x96 { assert ByteStep(0x96) == 0x008452bd; }
    if i == 0x97 { assert ByteStep(0x97) == 0x0052f5cb; }
    if i == 0x98 { assert ByteStep(0x98) == 0x00f19f6e; }
    if i == 0x99 { assert ByteStep(0x99) == 0x00273818; }
    if i == 0x9a { assert ByteStep(0x9a) == 0x0007da39; }
    if i == 0x9b { assert ByteStep(0x9b) == 0x00d17d4f; }
    if i == 0x9c { assert ByteStep(0x9c) == 0x00461e7b; }
    if i == 0x9d { assert ByteStep(0x9d) == 0x0090b90d; }
    if i == 0x9e { assert ByteStep(0x9e) == 0x00b05b2c; }
    if i == 0x9f { assert ByteStep(0x9f) == 0x0066fc5a; }
  }

  function Entriesa0(i: bv8): bv32
  {
    match i
    case 0xa0 => 0x007da399 case 0xa1 => 0x00ab04ef case 0xa2 => 0x008be6ce case 0xa3 => 0x005d41b8
    case 0xa4 => 0x00ca228c case 0xa5 => 0x001c85fa case 0xa6 => 0x003c67db case 0xa7 => 0x00eac0ad
    case 0xa8 => 0x0049aa08 case 0xa9 => 0x009f0d7e case 0xaa => 0x00bfef5f case 0xab => 0x00694829
    case 0xac => 0x00fe2b1d case 0xad => 0x00288c6b case 0xae => 0x00086e4a case _ => 0x00dec93c
  }

  lemma Checkeda0(i: bv8)
    requires 0xa0 <= i <= 0xaf
    ensures Entriesa0(i) == ByteStep(i as bv32)
  {
    if i == 0xa0 { assert ByteStep(0xa0) == 0x007da399; }
    if i == 0xa1 { assert ByteStep(0xa1) == 0x00ab04ef; }
    if i == 0xa2 { assert ByteStep(0xa2) == 0x008be6ce; }
    if i == 0xa3 { assert ByteStep(0xa3) == 0x005d41b8; }
    if i == 0xa4 { assert ByteStep(0xa4) == 0x00ca228c; }
    if i == 0xa5 { assert ByteStep(0xa5) == 0x001c85fa; }
    if i == 0xa6 { assert ByteStep(0xa6) == 0x003c67db; }
    if i == 0xa7 { assert ByteStep(0xa7) == 0x00eac0ad; }
    if i == 0xa8 { assert ByteStep(0xa8) == 0x0049aa08; }
    if i == 0xa9 { assert ByteStep(0xa9) == 0x009f0d7e; }
    if i == 0xaa { assert ByteStep(0xaa) == 0x00bfef5f; }
    if i == 0xab { assert ByteStep(0xab) == 0x00694829; }
    if i == 0xac { assert ByteStep(0xac) == 0x00fe2b1d; }
    if i == 0xad { assert ByteStep(0xad) == 0x00288c6b; }
    if i == 0xae { assert ByteStep(0xae) == 0x00086e4a; }
    if i == 0xaf { assert ByteStep(0xaf) == 0x00dec93c; }
  }

  function Entriesb0(i: bv8): bv32
  {
    match i
    case 0xb0 => 0x0015b0bb case 0xb1 => 0x00c317cd case 0xb2 => 0x00e3f5ec case 0xb3 => 0x0035529a
    case 0xb4 => 0x00a231ae case 0xb5 => 0x007496d8 case 0xb6 => 0x005474f9 case 0xb7 => 0x0082d38f
    case 0xb8 => 0x0021b92a case 0xb9 => 0x00f71e5c case 0xba => 0x00d7fc7d case 0xbb => 0x00015b0b
    case 0xbc => 0x0096383f case 0xbd => 0x00409f49 case 0xbe => 0x00607d68 case _ => 0x00b6da1e
  }

  lemma Checkedb0(i: bv8)
    requires 0xb0 <= i <= 0xbf
    ensures Entriesb0(i) == ByteStep(i as bv32)
  {
    if i == 0xb0 { assert ByteStep(0xb0) == 0x0015b0bb; }
    if i == 0xb1 { assert ByteStep(0xb1) == 0x00c317cd; }
    if i == 0xb2 { assert ByteStep(0xb2) == 0x00e3f5ec; }
    if i == 0xb3 { assert ByteStep(0xb3) == 0x0035529a; }
    if i == 0xb4 { assert ByteStep(0xb4) == 0x00a231ae; }
    if i == 0xb5 { assert ByteStep(0xb5) == 0x007496d8; }
    if i == 0xb6 { assert ByteStep(0xb6) == 0x005474f9; }
    if i == 0xb7 { assert ByteStep(0xb7) == 0x0082d38f; }
    if i == 0xb8 { assert ByteStep(0xb8) == 0x0021b92a; }
    if i == 0xb9 { assert ByteStep(0xb9) == 0x00f71e5c; }
    if i == 0xba { assert ByteStep(0xba) == 0x00d7fc7d; }
    if i == 0xbb { assert ByteStep(0xbb) == 0x00015b0b; }
    if i == 0xbc { assert ByteStep(0xbc) == 0x0096383f; }
    if i == 0xbd { assert ByteStep(0xbd) == 0x00409f49; }
    if i == 0xbe { assert ByteStep(0xbe) == 0x00607d68; }
    if i == 0xbf { assert ByteStep(0xbf) == 0x00b6da1e; }
  }

  function Entriesc0(i: bv8): bv32
  {
    match i
    case 0xc0 => 0x0056c2ee case 0xc1 => 0x00806598 case 0xc2 => 0x00a087b9 case 0xc3 => 0x007620cf
    case 0xc4 => 0x00e143fb case 0xc5 => 0x0037e48d case 0xc6 => 0x001706ac case 0xc7 => 0x00c1a1da
    case 0xc8 => 0x0062cb7f case 0xc9 => 0x00b46c09 case 0xca => 0x00948e28 case 0xcb => 0x0042295e
    case 0xcc => 0x00d54a6a case 0xcd => 0x0003ed1c case 0xce => 0x00230f3d case _ => 0x00f5a84b
  }

  lemma Checkedc0(i: bv8)
    requires 0xc0 <= i <= 0xcf
    ensures Entriesc0(i) == ByteStep(i as bv32)
  {
    if i == 0xc0 { assert ByteStep(0xc0) == 0x0056c2ee; }
    if i == 0xc1 { assert ByteStep(0xc1) == 0x00806598; }
    if i == 0xc2 { assert ByteStep(0xc2) == 0x00a087b9; }
    if i == 0xc3 { assert ByteStep(0xc3) == 0x007620cf; }
    if i == 0xc4 { assert ByteStep(0xc4) == 0x00e143fb; }
    if i == 0xc5 { assert ByteStep(0xc5) == 0x0037e48d; }
    if i == 0xc6 { assert ByteStep(0xc6) == 0x001706ac; }
    if i == 0xc7 { assert ByteStep(0xc7) == 0x00c1a1da; }
    if i == 0xc8 { assert ByteStep(0xc8) == 0x0062cb7f; }
    if i == 0xc9 { assert ByteStep(0xc9) == 0x00b46c09; }
    if i == 0xca { assert ByteStep(0xca) == 0x00948e28; }
    if i == 0xcb { assert ByteStep(0xcb) == 0x0042295e; }
    if i == 0xcc { assert ByteStep(0xcc) == 0x00d54a6a; }
    if i == 0xcd { assert ByteStep(0xcd) == 0x0003ed1c; }
    if i == 0xce { assert ByteStep(0xce) == 0x00230f3d; }
    if i == 0xcf { assert ByteStep(0xcf) == 0x00f5a84b; }
  }

  function Entriesd0(i: bv8): bv32
  {
    match i
    case 0xd0 => 0x003ed1cc case 0xd1 => 0x00e876ba case 0xd2 => 0x00c8949b case 0xd3 => 0x001e33ed
    case 0xd4 => 0x008950d9 case 0xd5 => 0x005ff7af case 0xd6 => 0x007f158e case 0xd7 => 0x00a9b2f8
    case 0xd8 => 0x000ad85d case 0xd9 => 0x00dc7f2b case 0xda => 0x00fc9d0a case 0xdb => 0x002a3a7c
    case 0xdc => 0x00bd5948 case 0xdd => 0x006bfe3e case 0xde => 0x004b1c1f case _ => 0x009dbb69
  }

  lemma Checkedd0(i: bv8)
    requires 0xd0 <= i <= 0xdf
    ensures Entriesd0(i) == ByteStep(i as bv32)
  {
    if i == 0xd0 { assert ByteStep(0xd0) == 0x003ed1cc; }
    if i == 0xd1 { assert ByteStep(0xd1) == 0x00e876ba; }
    if i == 0xd2 { assert ByteStep(0xd2) == 0x00c8949b; }
    if i == 0xd3 { assert ByteStep(0xd3) == 0x001e33ed; }
    if i == 0xd4 { assert ByteStep(0xd4) == 0x008950d9; }
    if i == 0xd5 { assert ByteStep(0xd5) == 0x005ff7af; }
    if i == 0xd6 { assert ByteStep(0xd6) == 0x007f158e; }
    if i == 0xd7 { assert ByteStep(0xd7) == 0x00a9b2f8; }
    if i == 0xd8 { assert ByteStep(0xd8) == 0x000ad85d; }
    if i == 0xd9 { assert ByteStep(0xd9) == 0x00dc7f2b; }
    if i == 0xda { assert ByteStep(0xda) == 0x00fc9d0a; }
    if i == 0xdb { assert ByteStep(0xdb) == 0x002a3a7c; }
    if i == 0xdc { assert ByteStep(0xdc) == 0x00bd5948; }
    if i == 0xdd { assert ByteStep(0xdd) == 0x006bfe3e; }
    if i == 0xde { assert ByteStep(0xde) == 0x004b1c1f; }
    if i == 0xdf { assert ByteStep(0xdf) == 0x009dbb69; }
  }

  function Entriese0(i: bv8): bv32
  {
    match i
    case 0xe0 => 0x0086e4aa case 0xe1 => 0x005043dc case 0xe2 => 0x0070a1fd case 0xe3 => 0x00a6068b
    case 0xe4 => 0x003165bf case 0xe5 => 0x00e7c2c9 case 0xe6 => 0x00c720e8 case 0xe7 => 0x0011879e
    case 0xe8 => 0x00b2ed3b case 0xe9 => 0x00644a4d case 0xea => 0x0044a86c case 0xeb => 0x00920f1a
    case 0xec => 0x00056c2e case 0xed => 0x00d3cb58 case 0xee => 0x00f32979 case _ => 0x00258e0f
  }

  lemma Checkede0(i: bv8)
    requires 0xe0 <= i <= 0xef
    ensures Entriese0(i) == ByteStep(i as bv32)
  {
    if i == 0xe0 { assert ByteStep(0xe0) == 0x0086e4aa; }
    if i == 0xe1 { assert ByteStep(0xe1) == 0x005043dc; }
    if i == 0xe2 { assert ByteStep(0xe2) == 0x0070a1fd; }
    if i == 0xe3 { assert ByteStep(0xe3) == 0x00a6068b; }
    if i == 0xe4 { assert ByteStep(0xe4) == 0x003165bf; }
    if i == 0xe5 { assert ByteStep(0xe5) == 0x00e7c2c9; }
    if i == 0xe6 { assert ByteStep(0xe6) == 0x00c720e8; }
    if i == 0xe7 { assert ByteStep(0xe7) == 0x0011879e; }
    if i == 0xe8 { assert ByteStep(0xe8) == 0x00b2ed3b; }
    if i == 0xe9 { assert ByteStep(0xe9) == 0x00644a4d; }
    if i == 0xea { assert ByteStep(0xea) == 0x0044a86c; }
    if i == 0xeb { assert ByteStep(0xeb) == 0x00920f1a; }
    if i == 0xec { assert ByteStep(0xec) == 0x00056c2e; }
    if i == 0xed { assert ByteStep(0xed) == 0x00d3cb58; }
    if i == 0xee { assert ByteStep(0xee) == 0x00f32979; }
    if i == 0xef { assert ByteStep(0xef) == 0x00258e0f; }
  }

  function Entriesf0(i: bv8): bv32
  {
    match i
    case 0xf0 => 0x00eef788 case 0xf1 => 0x003850fe case 0xf2 => 0x0018b2df case 0xf3 => 0x00ce15a9
    case 0xf4 => 0x0059769d case 0xf5 => 0x008fd1eb case 0xf6 => 0x00af33ca case 0xf7 => 0x007994bc
    case 0xf8 => 0x00dafe19 case 0xf9 => 0x000c596f case 0xfa => 0x002cbb4e case 0xfb => 0x00fa1c38
    case 0xfc => 0x006d7f0c case 0xfd => 0x00bbd87a case 0xfe => 0x009b3a5b case _ => 0x004d9d2d
  }

  lemma Checkedf0(i: bv8)
    requires 0xf0 <= i <= 0xff
    ensures Entriesf0(i) == ByteStep(i as bv32)
  {
    if i == 0xf0 { assert ByteStep(0xf0) == 0x00eef788; }
    if i == 0xf1 { assert ByteStep(0xf1) == 0x003850fe; }
    if i == 0xf2 { assert ByteStep(0xf2) == 0x0018b2df; }
    if i == 0xf3 { assert ByteStep(0xf3) == 0x00ce15a9; }
    if i == 0xf4 { assert ByteStep(0xf4) == 0x0059769d; }
    if i == 0xf5 { assert ByteStep(0xf5) == 0x008fd1eb; }
    if i == 0xf6 { assert ByteStep(0xf6) == 0x00af33ca; }
    if i == 0xf7 { assert ByteStep(0xf7) == 0x007994bc; }
    if i == 0xf8 { assert ByteStep(0xf8) == 0x00dafe19; }
    if i == 0xf9 { assert ByteStep(0xf9) == 0x000c596f; }
    if i == 0xfa { assert ByteStep(0xfa) == 0x002cbb4e; }
    if i == 0xfb { assert ByteStep(0xfb) == 0x00fa1c38; }
    if i == 0xfc { assert ByteStep(0xfc) == 0x006d7f0c; }
    if i == 0xfd { assert ByteStep(0xfd) == 0x00bbd87a; }
    if i == 0xfe { assert ByteStep(0xfe) == 0x009b3a5b; }
    if i == 0xff { assert ByteStep(0xff) == 0x004d9d2d; }
  }

  /** tbl_crc24, sixteen entries to a part. */
  function TblCrc24(i: bv8): bv32
  {
    if i <= 0x0f then Entries00(i)
    else if i <= 0x1f then Entries10(i)
    else if i <= 0x2f then Entries20(i)
    else if i <= 0x3f then Entries30(i)
    else if i <= 0x4f then Entries40(i)
    else if i <= 0x5f then Entries50(i)
    else if i <= 0x6f then Entries60(i)
    else if i <= 0x7f then Entries70(i)
    else if i <= 0x8f then Entries80(i)
    else if i <= 0x9f then Entries90(i)
    else if i <= 0xaf then Entriesa0(i)
    else if i <= 0xbf then Entriesb0(i)
    else if i <= 0xcf then Entriesc0(i)
    else if i <= 0xdf then Entriesd0(i)
    else if i <= 0xef then Entriese0(i)
    else Entriesf0(i)
  }

  /** Every table entry is its own index after eight steps of division. */
  lemma TableIsDivision(i: bv8)
    ensures TblCrc24(i) == ByteStep(i as bv32)
  {
    hide ByteStep, BitStep, Entries00, Entries10, Entries20, Entries30, Entries40, Entries50, Entries60, Entries70, Entries80, Entries90, Entriesa0, Entriesb0, Entriesc0, Entriesd0, Entriese0, Entriesf0;
    if i <= 0x0f { Checked00(i); }
    else if i <= 0x1f { Checked10(i); }
    else if i <= 0x2f { Checked20(i); }
    else if i <= 0x3f { Checked30(i); }
    else if i <= 0x4f { Checked40(i); }
    else if i <= 0x5f { Checked50(i); }
    else if i <= 0x6f { Checked60(i); }
    else if i <= 0x7f { Checked70(i); }
    else if i <= 0x8f { Checked80(i); }
    else if i <= 0x9f { Checked90(i); }
    else if i <= 0xaf { Checkeda0(i); }
    else if i <= 0xbf { Checkedb0(i); }
    else if i <= 0xcf { Checkedc0(i); }
    else if i <= 0xdf { Checkedd0(i); }
    else if i <= 0xef { Checkede0(i); }
    else { Checkedf0(i); }
  }
}
