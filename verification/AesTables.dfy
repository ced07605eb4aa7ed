// The constant tables of share/crypto/aes.c, sixteen rows of sixteen.
module AesTables {
  // Forward S-box.
  function FSb(x: bv8): bv8
  {
    match x >> 4
    case 0 =>
      (match x & 0xf
       case 0 => 0x63 case 1 => 0x7C case 2 => 0x77 case 3 => 0x7B
       case 4 => 0xF2 case 5 => 0x6B case 6 => 0x6F case 7 => 0xC5
       case 8 => 0x30 case 9 => 0x01 case 10 => 0x67 case 11 => 0x2B
       case 12 => 0xFE case 13 => 0xD7 case 14 => 0xAB case _ => 0x76)
    case 1 =>
      (match x & 0xf
       case 0 => 0xCA case 1 => 0x82 case 2 => 0xC9 case 3 => 0x7D
       case 4 => 0xFA case 5 => 0x59 case 6 => 0x47 case 7 => 0xF0
       case 8 => 0xAD case 9 => 0xD4 case 10 => 0xA2 case 11 => 0xAF
       case 12 => 0x9C case 13 => 0xA4 case 14 => 0x72 case _ => 0xC0)
    case 2 =>
      (match x & 0xf
       case 0 => 0xB7 case 1 => 0xFD case 2 => 0x93 case 3 => 0x26
       case 4 => 0x36 case 5 => 0x3F case 6 => 0xF7 case 7 => 0xCC
       case 8 => 0x34 case 9 => 0xA5 case 10 => 0xE5 case 11 => 0xF1
       case 12 => 0x71 case 13 => 0xD8 case 14 => 0x31 case _ => 0x15)
    case 3 =>
      (match x & 0xf
       case 0 => 0x04 case 1 => 0xC7 case 2 => 0x23 case 3 => 0xC3
       case 4 => 0x18 case 5 => 0x96 case 6 => 0x05 case 7 => 0x9A
       case 8 => 0x07 case 9 => 0x12 case 10 => 0x80 case 11 => 0xE2
       case 12 => 0xEB case 13 => 0x27 case 14 => 0xB2 case _ => 0x75)
    case 4 =>
      (match x & 0xf
       case 0 => 0x09 case 1 => 0x83 case 2 => 0x2C case 3 => 0x1A
       case 4 => 0x1B case 5 => 0x6E case 6 => 0x5A case 7 => 0xA0
       case 8 => 0x52 case 9 => 0x3B case 10 => 0xD6 case 11 => 0xB3
       case 12 => 0x29 case 13 => 0xE3 case 14 => 0x2F case _ => 0x84)
    case 5 =>
      (match x & 0xf
       case 0 => 0x53 case 1 => 0xD1 case 2 => 0x00 case 3 => 0xED
       case 4 => 0x20 case 5 => 0xFC case 6 => 0xB1 case 7 => 0x5B
       case 8 => 0x6A case 9 => 0xCB case 10 => 0xBE case 11 => 0x39
       case 12 => 0x4A case 13 => 0x4C case 14 => 0x58 case _ => 0xCF)
    case 6 =>
      (match x & 0xf
       case 0 => 0xD0 case 1 => 0xEF case 2 => 0xAA case 3 => 0xFB
       case 4 => 0x43 case 5 => 0x4D case 6 => 0x33 case 7 => 0x85
       case 8 => 0x45 case 9 => 0xF9 case 10 => 0x02 case 11 => 0x7F
       case 12 => 0x50 case 13 => 0x3C case 14 => 0x9F case _ => 0xA8)
    case 7 =>
      (match x & 0xf
       case 0 => 0x51 case 1 => 0xA3 case 2 => 0x40 case 3 => 0x8F
       case 4 => 0x92 case 5 => 0x9D case 6 => 0x38 case 7 => 0xF5
       case 8 => 0xBC case 9 => 0xB6 case 10 => 0xDA case 11 => 0x21
       case 12 => 0x10 case 13 => 0xFF case 14 => 0xF3 case _ => 0xD2)
    case 8 =>
      (match x & 0xf
       case 0 => 0xCD case 1 => 0x0C case 2 => 0x13 case 3 => 0xEC
       case 4 => 0x5F case 5 => 0x97 case 6 => 0x44 case 7 => 0x17
       case 8 => 0xC4 case 9 => 0xA7 case 10 => 0x7E case 11 => 0x3D
       case 12 => 0x64 case 13 => 0x5D case 14 => 0x19 case _ => 0x73)
    case 9 =>
      (match x & 0xf
       case 0 => 0x60 case 1 => 0x81 case 2 => 0x4F case 3 => 0xDC
       case 4 => 0x22 case 5 => 0x2A case 6 => 0x90 case 7 => 0x88
       case 8 => 0x46 case 9 => 0xEE case 10 => 0xB8 case 11 => 0x14
       case 12 => 0xDE case 13 => 0x5E case 14 => 0x0B case _ => 0xDB)
    case 10 =>
      (match x & 0xf
       case 0 => 0xE0 case 1 => 0x32 case 2 => 0x3A case 3 => 0x0A
       case 4 => 0x49 case 5 => 0x06 case 6 => 0x24 case 7 => 0x5C
       case 8 => 0xC2 case 9 => 0xD3 case 10 => 0xAC case 11 => 0x62
       case 12 => 0x91 case 13 => 0x95 case 14 => 0xE4 case _ => 0x79)
    case 11 =>
      (match x & 0xf
       case 0 => 0xE7 case 1 => 0xC8 case 2 => 0x37 case 3 => 0x6D
       case 4 => 0x8D case 5 => 0xD5 case 6 => 0x4E case 7 => 0xA9
       case 8 => 0x6C case 9 => 0x56 case 10 => 0xF4 case 11 => 0xEA
       case 12 => 0x65 case 13 => 0x7A case 14 => 0xAE case _ => 0x08)
    case 12 =>
      (match x & 0xf
       case 0 => 0xBA case 1 => 0x78 case 2 => 0x25 case 3 => 0x2E
       case 4 => 0x1C case 5 => 0xA6 case 6 => 0xB4 case 7 => 0xC6
       case 8 => 0xE8 case 9 => 0xDD case 10 => 0x74 case 11 => 0x1F
       case 12 => 0x4B case 13 => 0xBD case 14 => 0x8B case _ => 0x8A)
    case 13 =>
      (match x & 0xf
       case 0 => 0x70 case 1 => 0x3E case 2 => 0xB5 case 3 => 0x66
       case 4 => 0x48 case 5 => 0x03 case 6 => 0xF6 case 7 => 0x0E
       case 8 => 0x61 case 9 => 0x35 case 10 => 0x57 case 11 => 0xB9
       case 12 => 0x86 case 13 => 0xC1 case 14 => 0x1D case _ => 0x9E)
    case 14 =>
      (match x & 0xf
       case 0 => 0xE1 case 1 => 0xF8 case 2 => 0x98 case 3 => 0x11
       case 4 => 0x69 case 5 => 0xD9 case 6 => 0x8E case 7 => 0x94
       case 8 => 0x9B case 9 => 0x1E case 10 => 0x87 case 11 => 0xE9
       case 12 => 0xCE case 13 => 0x55 case 14 => 0x28 case _ => 0xDF)
    case _ =>
      (match x & 0xf
       case 0 => 0x8C case 1 => 0xA1 case 2 => 0x89 case 3 => 0x0D
       case 4 => 0xBF case 5 => 0xE6 case 6 => 0x42 case 7 => 0x68
       case 8 => 0x41 case 9 => 0x99 case 10 => 0x2D case 11 => 0x0F
       case 12 => 0xB0 case 13 => 0x54 case 14 => 0xBB case _ => 0x16)
  }

  // Reverse S-box.
  function RSb(x: bv8): bv8
  {
    match x >> 4
    case 0 =>
      (match x & 0xf
       case 0 => 0x52 case 1 => 0x09 case 2 => 0x6A case 3 => 0xD5
       case 4 => 0x30 case 5 => 0x36 case 6 => 0xA5 case 7 => 0x38
       case 8 => 0xBF case 9 => 0x40 case 10 => 0xA3 case 11 => 0x9E
       case 12 => 0x81 case 13 => 0xF3 case 14 => 0xD7 case _ => 0xFB)
    case 1 =>
      (match x & 0xf
       case 0 => 0x7C case 1 => 0xE3 case 2 => 0x39 case 3 => 0x82
       case 4 => 0x9B case 5 => 0x2F case 6 => 0xFF case 7 => 0x87
       case 8 => 0x34 case 9 => 0x8E case 10 => 0x43 case 11 => 0x44
       case 12 => 0xC4 case 13 => 0xDE case 14 => 0xE9 case _ => 0xCB)
    case 2 =>
      (match x & 0xf
       case 0 => 0x54 case 1 => 0x7B case 2 => 0x94 case 3 => 0x32
       case 4 => 0xA6 case 5 => 0xC2 case 6 => 0x23 case 7 => 0x3D
       case 8 => 0xEE case 9 => 0x4C case 10 => 0x95 case 11 => 0x0B
       case 12 => 0x42 case 13 => 0xFA case 14 => 0xC3 case _ => 0x4E)
    case 3 =>
      (match x & 0xf
       case 0 => 0x08 case 1 => 0x2E case 2 => 0xA1 case 3 => 0x66
       case 4 => 0x28 case 5 => 0xD9 case 6 => 0x24 case 7 => 0xB2
       case 8 => 0x76 case 9 => 0x5B case 10 => 0xA2 case 11 => 0x49
       case 12 => 0x6D case 13 => 0x8B case 14 => 0xD1 case _ => 0x25)
    case 4 =>
      (match x & 0xf
       case 0 => 0x72 case 1 => 0xF8 case 2 => 0xF6 case 3 => 0x64
       case 4 => 0x86 case 5 => 0x68 case 6 => 0x98 case 7 => 0x16
       case 8 => 0xD4 case 9 => 0xA4 case 10 => 0x5C case 11 => 0xCC
       case 12 => 0x5D case 13 => 0x65 case 14 => 0xB6 case _ => 0x92)
    case 5 =>
      (match x & 0xf
       case 0 => 0x6C case 1 => 0x70 case 2 => 0x48 case 3 => 0x50
       case 4 => 0xFD case 5 => 0xED case 6 => 0xB9 case 7 => 0xDA
       case 8 => 0x5E case 9 => 0x15 case 10 => 0x46 case 11 => 0x57
       case 12 => 0xA7 case 13 => 0x8D case 14 => 0x9D case _ => 0x84)
    case 6 =>
      (match x & 0xf
       case 0 => 0x90 case 1 => 0xD8 case 2 => 0xAB case 3 => 0x00
       case 4 => 0x8C case 5 => 0xBC case 6 => 0xD3 case 7 => 0x0A
       case 8 => 0xF7 case 9 => 0xE4 case 10 => 0x58 case 11 => 0x05
       case 12 => 0xB8 case 13 => 0xB3 case 14 => 0x45 case _ => 0x06)
    case 7 =>
      (match x & 0xf
       case 0 => 0xD0 case 1 => 0x2C case 2 => 0x1E case 3 => 0x8F
       case 4 => 0xCA case 5 => 0x3F case 6 => 0x0F case 7 => 0x02
       case 8 => 0xC1 case 9 => 0xAF case 10 => 0xBD case 11 => 0x03
       case 12 => 0x01 case 13 => 0x13 case 14 => 0x8A case _ => 0x6B)
    case 8 =>
      (match x & 0xf
       case 0 => 0x3A case 1 => 0x91 case 2 => 0x11 case 3 => 0x41
       case 4 => 0x4F case 5 => 0x67 case 6 => 0xDC case 7 => 0xEA
       case 8 => 0x97 case 9 => 0xF2 case 10 => 0xCF case 11 => 0xCE
       case 12 => 0xF0 case 13 => 0xB4 case 14 => 0xE6 case _ => 0x73)
    case 9 =>
      (match x & 0xf
       case 0 => 0x96 case 1 => 0xAC case 2 => 0x74 case 3 => 0x22
       case 4 => 0xE7 case 5 => 0xAD case 6 => 0x35 case 7 => 0x85
       case 8 => 0xE2 case 9 => 0xF9 case 10 => 0x37 case 11 => 0xE8
       case 12 => 0x1C case 13 => 0x75 case 14 => 0xDF case _ => 0x6E)
    case 10 =>
      (match x & 0xf
       case 0 => 0x47 case 1 => 0xF1 case 2 => 0x1A case 3 => 0x71
       case 4 => 0x1D case 5 => 0x29 case 6 => 0xC5 case 7 => 0x89
       case 8 => 0x6F case 9 => 0xB7 case 10 => 0x62 case 11 => 0x0E
       case 12 => 0xAA case 13 => 0x18 case 14 => 0xBE case _ => 0x1B)
    case 11 =>
      (match x & 0xf
       case 0 => 0xFC case 1 => 0x56 case 2 => 0x3E case 3 => 0x4B
       case 4 => 0xC6 case 5 => 0xD2 case 6 => 0x79 case 7 => 0x20
       case 8 => 0x9A case 9 => 0xDB case 10 => 0xC0 case 11 => 0xFE
       case 12 => 0x78 case 13 => 0xCD case 14 => 0x5A case _ => 0xF4)
    case 12 =>
      (match x & 0xf
       case 0 => 0x1F case 1 => 0xDD case 2 => 0xA8 case 3 => 0x33
       case 4 => 0x88 case 5 => 0x07 case 6 => 0xC7 case 7 => 0x31
       case 8 => 0xB1 case 9 => 0x12 case 10 => 0x10 case 11 => 0x59
       case 12 => 0x27 case 13 => 0x80 case 14 => 0xEC case _ => 0x5F)
    case 13 =>
      (match x & 0xf
       case 0 => 0x60 case 1 => 0x51 case 2 => 0x7F case 3 => 0xA9
       case 4 => 0x19 case 5 => 0xB5 case 6 => 0x4A case 7 => 0x0D
       case 8 => 0x2D case 9 => 0xE5 case 10 => 0x7A case 11 => 0x9F
       case 12 => 0x93 case 13 => 0xC9 case 14 => 0x9C case _ => 0xEF)
    case 14 =>
      (match x & 0xf
       case 0 => 0xA0 case 1 => 0xE0 case 2 => 0x3B case 3 => 0x4D
       case 4 => 0xAE case 5 => 0x2A case 6 => 0xF5 case 7 => 0xB0
       case 8 => 0xC8 case 9 => 0xEB case 10 => 0xBB case 11 => 0x3C
       case 12 => 0x83 case 13 => 0x53 case 14 => 0x99 case _ => 0x61)
    case _ =>
      (match x & 0xf
       case 0 => 0x17 case 1 => 0x2B case 2 => 0x04 case 3 => 0x7E
       case 4 => 0xBA case 5 => 0x77 case 6 => 0xD6 case 7 => 0x26
       case 8 => 0xE1 case 9 => 0x69 case 10 => 0x14 case 11 => 0x63
       case 12 => 0x55 case 13 => 0x21 case 14 => 0x0C case _ => 0x7D)
  }

  // Forward table.
  function FT0(x: bv8): bv32
  {
    match x >> 4
    case 0 =>
      (match x & 0xf
       case 0 => 0xA56363C6 case 1 => 0x847C7CF8 case 2 => 0x997777EE case 3 => 0x8D7B7BF6
       case 4 => 0x0DF2F2FF case 5 => 0xBD6B6BD6 case 6 => 0xB16F6FDE case 7 => 0x54C5C591
       case 8 => 0x50303060 case 9 => 0x03010102 case 10 => 0xA96767CE case 11 => 0x7D2B2B56
       case 12 => 0x19FEFEE7 case 13 => 0x62D7D7B5 case 14 => 0xE6ABAB4D case _ => 0x9A7676EC)
    case 1 =>
      (match x & 0xf
       case 0 => 0x45CACA8F case 1 => 0x9D82821F case 2 => 0x40C9C989 case 3 => 0x877D7DFA
       case 4 => 0x15FAFAEF case 5 => 0xEB5959B2 case 6 => 0xC947478E case 7 => 0x0BF0F0FB
       case 8 => 0xECADAD41 case 9 => 0x67D4D4B3 case 10 => 0xFDA2A25F case 11 => 0xEAAFAF45
       case 12 => 0xBF9C9C23 case 13 => 0xF7A4A453 case 14 => 0x967272E4 case _ => 0x5BC0C09B)
    case 2 =>
      (match x & 0xf
       case 0 => 0xC2B7B775 case 1 => 0x1CFDFDE1 case 2 => 0xAE93933D case 3 => 0x6A26264C
       case 4 => 0x5A36366C case 5 => 0x413F3F7E case 6 => 0x02F7F7F5 case 7 => 0x4FCCCC83
       case 8 => 0x5C343468 case 9 => 0xF4A5A551 case 10 => 0x34E5E5D1 case 11 => 0x08F1F1F9
       case 12 => 0x937171E2 case 13 => 0x73D8D8AB case 14 => 0x53313162 case _ => 0x3F15152A)
    case 3 =>
      (match x & 0xf
       case 0 => 0x0C040408 case 1 => 0x52C7C795 case 2 => 0x65232346 case 3 => 0x5EC3C39D
       case 4 => 0x28181830 case 5 => 0xA1969637 case 6 => 0x0F05050A case 7 => 0xB59A9A2F
       case 8 => 0x0907070E case 9 => 0x36121224 case 10 => 0x9B80801B case 11 => 0x3DE2E2DF
       case 12 => 0x26EBEBCD case 13 => 0x6927274E case 14 => 0xCDB2B27F case _ => 0x9F7575EA)
    case 4 =>
      (match x & 0xf
       case 0 => 0x1B090912 case 1 => 0x9E83831D case 2 => 0x742C2C58 case 3 => 0x2E1A1A34
       case 4 => 0x2D1B1B36 case 5 => 0xB26E6EDC case 6 => 0xEE5A5AB4 case 7 => 0xFBA0A05B
       case 8 => 0xF65252A4 case 9 => 0x4D3B3B76 case 10 => 0x61D6D6B7 case 11 => 0xCEB3B37D
       case 12 => 0x7B292952 case 13 => 0x3EE3E3DD case 14 => 0x712F2F5E case _ => 0x97848413)
    case 5 =>
      (match x & 0xf
       case 0 => 0xF55353A6 case 1 => 0x68D1D1B9 case 2 => 0x00000000 case 3 => 0x2CEDEDC1
       case 4 => 0x60202040 case 5 => 0x1FFCFCE3 case 6 => 0xC8B1B179 case 7 => 0xED5B5BB6
       case 8 => 0xBE6A6AD4 case 9 => 0x46CBCB8D case 10 => 0xD9BEBE67 case 11 => 0x4B393972
       case 12 => 0xDE4A4A94 case 13 => 0xD44C4C98 case 14 => 0xE85858B0 case _ => 0x4ACFCF85)
    case 6 =>
      (match x & 0xf
       case 0 => 0x6BD0D0BB case 1 => 0x2AEFEFC5 case 2 => 0xE5AAAA4F case 3 => 0x16FBFBED
       case 4 => 0xC5434386 case 5 => 0xD74D4D9A case 6 => 0x55333366 case 7 => 0x94858511
       case 8 => 0xCF45458A case 9 => 0x10F9F9E9 case 10 => 0x06020204 case 11 => 0x817F7FFE
       case 12 => 0xF05050A0 case 13 => 0x443C3C78 case 14 => 0xBA9F9F25 case _ => 0xE3A8A84B)
    case 7 =>
      (match x & 0xf
       case 0 => 0xF35151A2 case 1 => 0xFEA3A35D case 2 => 0xC0404080 case 3 => 0x8A8F8F05
       case 4 => 0xAD92923F case 5 => 0xBC9D9D21 case 6 => 0x48383870 case 7 => 0x04F5F5F1
       case 8 => 0xDFBCBC63 case 9 => 0xC1B6B677 case 10 => 0x75DADAAF case 11 => 0x63212142
       case 12 => 0x30101020 case 13 => 0x1AFFFFE5 case 14 => 0x0EF3F3FD case _ => 0x6DD2D2BF)
    case 8 =>
      (match x & 0xf
       case 0 => 0x4CCDCD81 case 1 => 0x140C0C18 case 2 => 0x35131326 case 3 => 0x2FECECC3
       case 4 => 0xE15F5FBE case 5 => 0xA2979735 case 6 => 0xCC444488 case 7 => 0x3917172E
       case 8 => 0x57C4C493 case 9 => 0xF2A7A755 case 10 => 0x827E7EFC case 11 => 0x473D3D7A
       case 12 => 0xAC6464C8 case 13 => 0xE75D5DBA case 14 => 0x2B191932 case _ => 0x957373E6)
    case 9 =>
      (match x & 0xf
       case 0 => 0xA06060C0 case 1 => 0x98818119 case 2 => 0xD14F4F9E case 3 => 0x7FDCDCA3
       case 4 => 0x66222244 case 5 => 0x7E2A2A54 case 6 => 0xAB90903B case 7 => 0x8388880B
       case 8 => 0xCA46468C case 9 => 0x29EEEEC7 case 10 => 0xD3B8B86B case 11 => 0x3C141428
       case 12 => 0x79DEDEA7 case 13 => 0xE25E5EBC case 14 => 0x1D0B0B16 case _ => 0x76DBDBAD)
    case 10 =>
      (match x & 0xf
       case 0 => 0x3BE0E0DB case 1 => 0x56323264 case 2 => 0x4E3A3A74 case 3 => 0x1E0A0A14
       case 4 => 0xDB494992 case 5 => 0x0A06060C case 6 => 0x6C242448 case 7 => 0xE45C5CB8
       case 8 => 0x5DC2C29F case 9 => 0x6ED3D3BD case 10 => 0xEFACAC43 case 11 => 0xA66262C4
       case 12 => 0xA8919139 case 13 => 0xA4959531 case 14 => 0x37E4E4D3 case _ => 0x8B7979F2)
    case 11 =>
      (match x & 0xf
       case 0 => 0x32E7E7D5 case 1 => 0x43C8C88B case 2 => 0x5937376E case 3 => 0xB76D6DDA
       case 4 => 0x8C8D8D01 case 5 => 0x64D5D5B1 case 6 => 0xD24E4E9C case 7 => 0xE0A9A949
       case 8 => 0xB46C6CD8 case 9 => 0xFA5656AC case 10 => 0x07F4F4F3 case 11 => 0x25EAEACF
       case 12 => 0xAF6565CA case 13 => 0x8E7A7AF4 case 14 => 0xE9AEAE47 case _ => 0x18080810)
    case 12 =>
      (match x & 0xf
       case 0 => 0xD5BABA6F case 1 => 0x887878F0 case 2 => 0x6F25254A case 3 => 0x722E2E5C
       case 4 => 0x241C1C38 case 5 => 0xF1A6A657 case 6 => 0xC7B4B473 case 7 => 0x51C6C697
       case 8 => 0x23E8E8CB case 9 => 0x7CDDDDA1 case 10 => 0x9C7474E8 case 11 => 0x211F1F3E
       case 12 => 0xDD4B4B96 case 13 => 0xDCBDBD61 case 14 => 0x868B8B0D case _ => 0x858A8A0F)
    case 13 =>
      (match x & 0xf
       case 0 => 0x907070E0 case 1 => 0x423E3E7C case 2 => 0xC4B5B571 case 3 => 0xAA6666CC
       case 4 => 0xD8484890 case 5 => 0x05030306 case 6 => 0x01F6F6F7 case 7 => 0x120E0E1C
       case 8 => 0xA36161C2 case 9 => 0x5F35356A case 10 => 0xF95757AE case 11 => 0xD0B9B969
       case 12 => 0x91868617 case 13 => 0x58C1C199 case 14 => 0x271D1D3A case _ => 0xB99E9E27)
    case 14 =>
      (match x & 0xf
       case 0 => 0x38E1E1D9 case 1 => 0x13F8F8EB case 2 => 0xB398982B case 3 => 0x33111122
       case 4 => 0xBB6969D2 case 5 => 0x70D9D9A9 case 6 => 0x898E8E07 case 7 => 0xA7949433
       case 8 => 0xB69B9B2D case 9 => 0x221E1E3C case 10 => 0x92878715 case 11 => 0x20E9E9C9
       case 12 => 0x49CECE87 case 13 => 0xFF5555AA case 14 => 0x78282850 case _ => 0x7ADFDFA5)
    case _ =>
      (match x & 0xf
       case 0 => 0x8F8C8C03 case 1 => 0xF8A1A159 case 2 => 0x80898909 case 3 => 0x170D0D1A
       case 4 => 0xDABFBF65 case 5 => 0x31E6E6D7 case 6 => 0xC6424284 case 7 => 0xB86868D0
       case 8 => 0xC3414182 case 9 => 0xB0999929 case 10 => 0x772D2D5A case 11 => 0x110F0F1E
       case 12 => 0xCBB0B07B case 13 => 0xFC5454A8 case 14 => 0xD6BBBB6D case _ => 0x3A16162C)
  }

  // Reverse table.
  function RT0(x: bv8): bv32
  {
    match x >> 4
    case 0 =>
      (match x & 0xf
       case 0 => 0x50A7F451 case 1 => 0x5365417E case 2 => 0xC3A4171A case 3 => 0x965E273A
       case 4 => 0xCB6BAB3B case 5 => 0xF1459D1F case 6 => 0xAB58FAAC case 7 => 0x9303E34B
       case 8 => 0x55FA3020 case 9 => 0xF66D76AD case 10 => 0x9176CC88 case 11 => 0x254C02F5
       case 12 => 0xFCD7E54F case 13 => 0xD7CB2AC5 case 14 => 0x80443526 case _ => 0x8FA362B5)
    case 1 =>
      (match x & 0xf
       case 0 => 0x495AB1DE case 1 => 0x671BBA25 case 2 => 0x980EEA45 case 3 => 0xE1C0FE5D
       case 4 => 0x02752FC3 case 5 => 0x12F04C81 case 6 => 0xA397468D case 7 => 0xC6F9D36B
       case 8 => 0xE75F8F03 case 9 => 0x959C9215 case 10 => 0xEB7A6DBF case 11 => 0xDA595295
       case 12 => 0x2D83BED4 case 13 => 0xD3217458 case 14 => 0x2969E049 case _ => 0x44C8C98E)
    case 2 =>
      (match x & 0xf
       case 0 => 0x6A89C275 case 1 => 0x78798EF4 case 2 => 0x6B3E5899 case 3 => 0xDD71B927
       case 4 => 0xB64FE1BE case 5 => 0x17AD88F0 case 6 => 0x66AC20C9 case 7 => 0xB43ACE7D
       case 8 => 0x184ADF63 case 9 => 0x82311AE5 case 10 => 0x60335197 case 11 => 0x457F5362
       case 12 => 0xE07764B1 case 13 => 0x84AE6BBB case 14 => 0x1CA081FE case _ => 0x942B08F9)
    case 3 =>
      (match x & 0xf
       case 0 => 0x58684870 case 1 => 0x19FD458F case 2 => 0x876CDE94 case 3 => 0xB7F87B52
       case 4 => 0x23D373AB case 5 => 0xE2024B72 case 6 => 0x578F1FE3 case 7 => 0x2AAB5566
       case 8 => 0x0728EBB2 case 9 => 0x03C2B52F case 10 => 0x9A7BC586 case 11 => 0xA50837D3
       case 12 => 0xF2872830 case 13 => 0xB2A5BF23 case 14 => 0xBA6A0302 case _ => 0x5C8216ED)
    case 4 =>
      (match x & 0xf
       case 0 => 0x2B1CCF8A case 1 => 0x92B479A7 case 2 => 0xF0F207F3 case 3 => 0xA1E2694E
       case 4 => 0xCDF4DA65 case 5 => 0xD5BE0506 case 6 => 0x1F6234D1 case 7 => 0x8AFEA6C4
       case 8 => 0x9D532E34 case 9 => 0xA055F3A2 case 10 => 0x32E18A05 case 11 => 0x75EBF6A4
       case 12 => 0x39EC830B case 13 => 0xAAEF6040 case 14 => 0x069F715E case _ => 0x51106EBD)
    case 5 =>
      (match x & 0xf
       case 0 => 0xF98A213E case 1 => 0x3D06DD96 case 2 => 0xAE053EDD case 3 => 0x46BDE64D
       case 4 => 0xB58D5491 case 5 => 0x055DC471 case 6 => 0x6FD40604 case 7 => 0xFF155060
       case 8 => 0x24FB9819 case 9 => 0x97E9BDD6 case 10 => 0xCC434089 case 11 => 0x779ED967
       case 12 => 0xBD42E8B0 case 13 => 0x888B8907 case 14 => 0x385B19E7 case _ => 0xDBEEC879)
    case 6 =>
      (match x & 0xf
       case 0 => 0x470A7CA1 case 1 => 0xE90F427C case 2 => 0xC91E84F8 case 3 => 0x00000000
       case 4 => 0x83868009 case 5 => 0x48ED2B32 case 6 => 0xAC70111E case 7 => 0x4E725A6C
       case 8 => 0xFBFF0EFD case 9 => 0x5638850F case 10 => 0x1ED5AE3D case 11 => 0x27392D36
       case 12 => 0x64D90F0A case 13 => 0x21A65C68 case 14 => 0xD1545B9B case _ => 0x3A2E3624)
    case 7 =>
      (match x & 0xf
       case 0 => 0xB1670A0C case 1 => 0x0FE75793 case 2 => 0xD296EEB4 case 3 => 0x9E919B1B
       case 4 => 0x4FC5C080 case 5 => 0xA220DC61 case 6 => 0x694B775A case 7 => 0x161A121C
       case 8 => 0x0ABA93E2 case 9 => 0xE52AA0C0 case 10 => 0x43E0223C case 11 => 0x1D171B12
       case 12 => 0x0B0D090E case 13 => 0xADC78BF2 case 14 => 0xB9A8B62D case _ => 0xC8A91E14)
    case 8 =>
      (match x & 0xf
       case 0 => 0x8519F157 case 1 => 0x4C0775AF case 2 => 0xBBDD99EE case 3 => 0xFD607FA3
       case 4 => 0x9F2601F7 case 5 => 0xBCF5725C case 6 => 0xC53B6644 case 7 => 0x347EFB5B
       case 8 => 0x7629438B case 9 => 0xDCC623CB case 10 => 0x68FCEDB6 case 11 => 0x63F1E4B8
       case 12 => 0xCADC31D7 case 13 => 0x10856342 case 14 => 0x40229713 case _ => 0x2011C684)
    case 9 =>
      (match x & 0xf
       case 0 => 0x7D244A85 case 1 => 0xF83DBBD2 case 2 => 0x1132F9AE case 3 => 0x6DA129C7
       case 4 => 0x4B2F9E1D case 5 => 0xF330B2DC case 6 => 0xEC52860D case 7 => 0xD0E3C177
       case 8 => 0x6C16B32B case 9 => 0x99B970A9 case 10 => 0xFA489411 case 11 => 0x2264E947
       case 12 => 0xC48CFCA8 case 13 => 0x1A3FF0A0 case 14 => 0xD82C7D56 case _ => 0xEF903322)
    case 10 =>
      (match x & 0xf
       case 0 => 0xC74E4987 case 1 => 0xC1D138D9 case 2 => 0xFEA2CA8C case 3 => 0x360BD498
       case 4 => 0xCF81F5A6 case 5 => 0x28DE7AA5 case 6 => 0x268EB7DA case 7 => 0xA4BFAD3F
       case 8 => 0xE49D3A2C case 9 => 0x0D927850 case 10 => 0x9BCC5F6A case 11 => 0x62467E54
       case 12 => 0xC2138DF6 case 13 => 0xE8B8D890 case 14 => 0x5EF7392E case _ => 0xF5AFC382)
    case 11 =>
      (match x & 0xf
       case 0 => 0xBE805D9F case 1 => 0x7C93D069 case 2 => 0xA92DD56F case 3 => 0xB31225CF
       case 4 => 0x3B99ACC8 case 5 => 0xA77D1810 case 6 => 0x6E639CE8 case 7 => 0x7BBB3BDB
       case 8 => 0x097826CD case 9 => 0xF418596E case 10 => 0x01B79AEC case 11 => 0xA89A4F83
       case 12 => 0x656E95E6 case 13 => 0x7EE6FFAA case 14 => 0x08CFBC21 case _ => 0xE6E815EF)
    case 12 =>
      (match x & 0xf
       case 0 => 0xD99BE7BA case 1 => 0xCE366F4A case 2 => 0xD4099FEA case 3 => 0xD67CB029
       case 4 => 0xAFB2A431 case 5 => 0x31233F2A case 6 => 0x3094A5C6 case 7 => 0xC066A235
       case 8 => 0x37BC4E74 case 9 => 0xA6CA82FC case 10 => 0xB0D090E0 case 11 => 0x15D8A733
       case 12 => 0x4A9804F1 case 13 => 0xF7DAEC41 case 14 => 0x0E50CD7F case _ => 0x2FF69117)
    case 13 =>
      (match x & 0xf
       case 0 => 0x8DD64D76 case 1 => 0x4DB0EF43 case 2 => 0x544DAACC case 3 => 0xDF0496E4
       case 4 => 0xE3B5D19E case 5 => 0x1B886A4C case 6 => 0xB81F2CC1 case 7 => 0x7F516546
       case 8 => 0x04EA5E9D case 9 => 0x5D358C01 case 10 => 0x737487FA case 11 => 0x2E410BFB
       case 12 => 0x5A1D67B3 case 13 => 0x52D2DB92 case 14 => 0x335610E9 case _ => 0x1347D66D)
    case 14 =>
      (match x & 0xf
       case 0 => 0x8C61D79A case 1 => 0x7A0CA137 case 2 => 0x8E14F859 case 3 => 0x893C13EB
       case 4 => 0xEE27A9CE case 5 => 0x35C961B7 case 6 => 0xEDE51CE1 case 7 => 0x3CB1477A
       case 8 => 0x59DFD29C case 9 => 0x3F73F255 case 10 => 0x79CE1418 case 11 => 0xBF37C773
       case 12 => 0xEACDF753 case 13 => 0x5BAAFD5F case 14 => 0x146F3DDF case _ => 0x86DB4478)
    case _ =>
      (match x & 0xf
       case 0 => 0x81F3AFCA case 1 => 0x3EC468B9 case 2 => 0x2C342438 case 3 => 0x5F40A3C2
       case 4 => 0x72C31D16 case 5 => 0x0C25E2BC case 6 => 0x8B493C28 case 7 => 0x41950DFF
       case 8 => 0x7101A839 case 9 => 0xDEB30C08 case 10 => 0x9CE4B4D8 case 11 => 0x90C15664
       case 12 => 0x6184CB7B case 13 => 0x70B632D5 case 14 => 0x745C6C48 case _ => 0x4257B8D0)
  }
}
