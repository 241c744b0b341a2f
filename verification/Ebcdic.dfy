/** The byte-substitution tables of dd's conv=ascii, conv=ebcdic and conv=ibm, sixteen entries
    to a function. */
module Ebcdic {
  import opened Common

  // EBCDIC to ASCII

  function ToAscii00(c: nat): Byte {
    match c
    case 0x00 => 0x00 case 0x01 => 0x01 case 0x02 => 0x02 case 0x03 => 0x03 case 0x04 => 0x9c case 0x05 => 0x09 case 0x06 => 0x86 case 0x07 => 0x7f
    case 0x08 => 0x97 case 0x09 => 0x8d case 0x0a => 0x8e case 0x0b => 0x0b case 0x0c => 0x0c case 0x0d => 0x0d case 0x0e => 0x0e case _ => 0x0f
  }

  function ToAscii10(c: nat): Byte {
    match c
    case 0x10 => 0x10 case 0x11 => 0x11 case 0x12 => 0x12 case 0x13 => 0x13 case 0x14 => 0x9d case 0x15 => 0x85 case 0x16 => 0x08 case 0x17 => 0x87
    case 0x18 => 0x18 case 0x19 => 0x19 case 0x1a => 0x92 case 0x1b => 0x8f case 0x1c => 0x1c case 0x1d => 0x1d case 0x1e => 0x1e case _ => 0x1f
  }

  function ToAscii20(c: nat): Byte {
    match c
    case 0x20 => 0x80 case 0x21 => 0x81 case 0x22 => 0x82 case 0x23 => 0x83 case 0x24 => 0x84 case 0x25 => 0x0a case 0x26 => 0x17 case 0x27 => 0x1b
    case 0x28 => 0x88 case 0x29 => 0x89 case 0x2a => 0x8a case 0x2b => 0x8b case 0x2c => 0x8c case 0x2d => 0x05 case 0x2e => 0x06 case _ => 0x07
  }

  function ToAscii30(c: nat): Byte {
    match c
    case 0x30 => 0x90 case 0x31 => 0x91 case 0x32 => 0x16 case 0x33 => 0x93 case 0x34 => 0x94 case 0x35 => 0x95 case 0x36 => 0x96 case 0x37 => 0x04
    case 0x38 => 0x98 case 0x39 => 0x99 case 0x3a => 0x9a case 0x3b => 0x9b case 0x3c => 0x14 case 0x3d => 0x15 case 0x3e => 0x9e case _ => 0x1a
  }

  function ToAscii40(c: nat): Byte {
    match c
    case 0x40 => 0x20 case 0x41 => 0xa0 case 0x42 => 0xa1 case 0x43 => 0xa2 case 0x44 => 0xa3 case 0x45 => 0xa4 case 0x46 => 0xa5 case 0x47 => 0xa6
    case 0x48 => 0xa7 case 0x49 => 0xa8 case 0x4a => 0xd5 case 0x4b => 0x2e case 0x4c => 0x3c case 0x4d => 0x28 case 0x4e => 0x2b case _ => 0x7c
  }

  function ToAscii50(c: nat): Byte {
    match c
    case 0x50 => 0x26 case 0x51 => 0xa9 case 0x52 => 0xaa case 0x53 => 0xab case 0x54 => 0xac case 0x55 => 0xad case 0x56 => 0xae case 0x57 => 0xaf
    case 0x58 => 0xb0 case 0x59 => 0xb1 case 0x5a => 0x21 case 0x5b => 0x24 case 0x5c => 0x2a case 0x5d => 0x29 case 0x5e => 0x3b case _ => 0x7e
  }

  function ToAscii60(c: nat): Byte {
    match c
    case 0x60 => 0x2d case 0x61 => 0x2f case 0x62 => 0xb2 case 0x63 => 0xb3 case 0x64 => 0xb4 case 0x65 => 0xb5 case 0x66 => 0xb6 case 0x67 => 0xb7
    case 0x68 => 0xb8 case 0x69 => 0xb9 case 0x6a => 0xcb case 0x6b => 0x2c case 0x6c => 0x25 case 0x6d => 0x5f case 0x6e => 0x3e case _ => 0x3f
  }

  function ToAscii70(c: nat): Byte {
    match c
    case 0x70 => 0xba case 0x71 => 0xbb case 0x72 => 0xbc case 0x73 => 0xbd case 0x74 => 0xbe case 0x75 => 0xbf case 0x76 => 0xc0 case 0x77 => 0xc1
    case 0x78 => 0xc2 case 0x79 => 0x60 case 0x7a => 0x3a case 0x7b => 0x23 case 0x7c => 0x40 case 0x7d => 0x27 case 0x7e => 0x3d case _ => 0x22
  }

  function ToAscii80(c: nat): Byte {
    match c
    case 0x80 => 0xc3 case 0x81 => 0x61 case 0x82 => 0x62 case 0x83 => 0x63 case 0x84 => 0x64 case 0x85 => 0x65 case 0x86 => 0x66 case 0x87 => 0x67
    case 0x88 => 0x68 case 0x89 => 0x69 case 0x8a => 0xc4 case 0x8b => 0xc5 case 0x8c => 0xc6 case 0x8d => 0xc7 case 0x8e => 0xc8 case _ => 0xc9
  }

  function ToAscii90(c: nat): Byte {
    match c
    case 0x90 => 0xca case 0x91 => 0x6a case 0x92 => 0x6b case 0x93 => 0x6c case 0x94 => 0x6d case 0x95 => 0x6e case 0x96 => 0x6f case 0x97 => 0x70
    case 0x98 => 0x71 case 0x99 => 0x72 case 0x9a => 0x5e case 0x9b => 0xcc case 0x9c => 0xcd case 0x9d => 0xce case 0x9e => 0xcf case _ => 0xd0
  }

  function ToAsciia0(c: nat): Byte {
    match c
    case 0xa0 => 0xd1 case 0xa1 => 0xe5 case 0xa2 => 0x73 case 0xa3 => 0x74 case 0xa4 => 0x75 case 0xa5 => 0x76 case 0xa6 => 0x77 case 0xa7 => 0x78
    case 0xa8 => 0x79 case 0xa9 => 0x7a case 0xaa => 0xd2 case 0xab => 0xd3 case 0xac => 0xd4 case 0xad => 0x5b case 0xae => 0xd6 case _ => 0xd7
  }

  function ToAsciib0(c: nat): Byte {
    match c
    case 0xb0 => 0xd8 case 0xb1 => 0xd9 case 0xb2 => 0xda case 0xb3 => 0xdb case 0xb4 => 0xdc case 0xb5 => 0xdd case 0xb6 => 0xde case 0xb7 => 0xdf
    case 0xb8 => 0xe0 case 0xb9 => 0xe1 case 0xba => 0xe2 case 0xbb => 0xe3 case 0xbc => 0xe4 case 0xbd => 0x5d case 0xbe => 0xe6 case _ => 0xe7
  }

  function ToAsciic0(c: nat): Byte {
    match c
    case 0xc0 => 0x7b case 0xc1 => 0x41 case 0xc2 => 0x42 case 0xc3 => 0x43 case 0xc4 => 0x44 case 0xc5 => 0x45 case 0xc6 => 0x46 case 0xc7 => 0x47
    case 0xc8 => 0x48 case 0xc9 => 0x49 case 0xca => 0xe8 case 0xcb => 0xe9 case 0xcc => 0xea case 0xcd => 0xeb case 0xce => 0xec case _ => 0xed
  }

  function ToAsciid0(c: nat): Byte {
    match c
    case 0xd0 => 0x7d case 0xd1 => 0x4a case 0xd2 => 0x4b case 0xd3 => 0x4c case 0xd4 => 0x4d case 0xd5 => 0x4e case 0xd6 => 0x4f case 0xd7 => 0x50
    case 0xd8 => 0x51 case 0xd9 => 0x52 case 0xda => 0xee case 0xdb => 0xef case 0xdc => 0xf0 case 0xdd => 0xf1 case 0xde => 0xf2 case _ => 0xf3
  }

  function ToAsciie0(c: nat): Byte {
    match c
    case 0xe0 => 0x5c case 0xe1 => 0x9f case 0xe2 => 0x53 case 0xe3 => 0x54 case 0xe4 => 0x55 case 0xe5 => 0x56 case 0xe6 => 0x57 case 0xe7 => 0x58
    case 0xe8 => 0x59 case 0xe9 => 0x5a case 0xea => 0xf4 case 0xeb => 0xf5 case 0xec => 0xf6 case 0xed => 0xf7 case 0xee => 0xf8 case _ => 0xf9
  }

  function ToAsciif0(c: nat): Byte {
    match c
    case 0xf0 => 0x30 case 0xf1 => 0x31 case 0xf2 => 0x32 case 0xf3 => 0x33 case 0xf4 => 0x34 case 0xf5 => 0x35 case 0xf6 => 0x36 case 0xf7 => 0x37
    case 0xf8 => 0x38 case 0xf9 => 0x39 case 0xfa => 0xfa case 0xfb => 0xfb case 0xfc => 0xfc case 0xfd => 0xfd case 0xfe => 0xfe case _ => 0xff
  }

  function ToAscii(c: Byte): Byte {
    if c < 0x80 then
      if c < 0x40 then
        if c < 0x20 then
          if c < 0x10 then ToAscii00(c) else ToAscii10(c)
        else
          if c < 0x30 then ToAscii20(c) else ToAscii30(c)
      else
        if c < 0x60 then
          if c < 0x50 then ToAscii40(c) else ToAscii50(c)
        else
          if c < 0x70 then ToAscii60(c) else ToAscii70(c)
    else
      if c < 0xc0 then
        if c < 0xa0 then
          if c < 0x90 then ToAscii80(c) else ToAscii90(c)
        else
          if c < 0xb0 then ToAsciia0(c) else ToAsciib0(c)
      else
        if c < 0xe0 then
          if c < 0xd0 then ToAsciic0(c) else ToAsciid0(c)
        else
          if c < 0xf0 then ToAsciie0(c) else ToAsciif0(c)
  }

  // ASCII to EBCDIC

  function ToEbcdic00(c: nat): Byte {
    match c
    case 0x00 => 0x00 case 0x01 => 0x01 case 0x02 => 0x02 case 0x03 => 0x03 case 0x04 => 0x37 case 0x05 => 0x2d case 0x06 => 0x2e case 0x07 => 0x2f
    case 0x08 => 0x16 case 0x09 => 0x05 case 0x0a => 0x25 case 0x0b => 0x0b case 0x0c => 0x0c case 0x0d => 0x0d case 0x0e => 0x0e case _ => 0x0f
  }

  function ToEbcdic10(c: nat): Byte {
    match c
    case 0x10 => 0x10 case 0x11 => 0x11 case 0x12 => 0x12 case 0x13 => 0x13 case 0x14 => 0x3c case 0x15 => 0x3d case 0x16 => 0x32 case 0x17 => 0x26
    case 0x18 => 0x18 case 0x19 => 0x19 case 0x1a => 0x3f case 0x1b => 0x27 case 0x1c => 0x1c case 0x1d => 0x1d case 0x1e => 0x1e case _ => 0x1f
  }

  function ToEbcdic20(c: nat): Byte {
    match c
    case 0x20 => 0x40 case 0x21 => 0x5a case 0x22 => 0x7f case 0x23 => 0x7b case 0x24 => 0x5b case 0x25 => 0x6c case 0x26 => 0x50 case 0x27 => 0x7d
    case 0x28 => 0x4d case 0x29 => 0x5d case 0x2a => 0x5c case 0x2b => 0x4e case 0x2c => 0x6b case 0x2d => 0x60 case 0x2e => 0x4b case _ => 0x61
  }

  function ToEbcdic30(c: nat): Byte {
    match c
    case 0x30 => 0xf0 case 0x31 => 0xf1 case 0x32 => 0xf2 case 0x33 => 0xf3 case 0x34 => 0xf4 case 0x35 => 0xf5 case 0x36 => 0xf6 case 0x37 => 0xf7
    case 0x38 => 0xf8 case 0x39 => 0xf9 case 0x3a => 0x7a case 0x3b => 0x5e case 0x3c => 0x4c case 0x3d => 0x7e case 0x3e => 0x6e case _ => 0x6f
  }

  function ToEbcdic40(c: nat): Byte {
    match c
    case 0x40 => 0x7c case 0x41 => 0xc1 case 0x42 => 0xc2 case 0x43 => 0xc3 case 0x44 => 0xc4 case 0x45 => 0xc5 case 0x46 => 0xc6 case 0x47 => 0xc7
    case 0x48 => 0xc8 case 0x49 => 0xc9 case 0x4a => 0xd1 case 0x4b => 0xd2 case 0x4c => 0xd3 case 0x4d => 0xd4 case 0x4e => 0xd5 case _ => 0xd6
  }

  function ToEbcdic50(c: nat): Byte {
    match c
    case 0x50 => 0xd7 case 0x51 => 0xd8 case 0x52 => 0xd9 case 0x53 => 0xe2 case 0x54 => 0xe3 case 0x55 => 0xe4 case 0x56 => 0xe5 case 0x57 => 0xe6
    case 0x58 => 0xe7 case 0x59 => 0xe8 case 0x5a => 0xe9 case 0x5b => 0xad case 0x5c => 0xe0 case 0x5d => 0xbd case 0x5e => 0x9a case _ => 0x6d
  }

  function ToEbcdic60(c: nat): Byte {
    match c
    case 0x60 => 0x79 case 0x61 => 0x81 case 0x62 => 0x82 case 0x63 => 0x83 case 0x64 => 0x84 case 0x65 => 0x85 case 0x66 => 0x86 case 0x67 => 0x87
    case 0x68 => 0x88 case 0x69 => 0x89 case 0x6a => 0x91 case 0x6b => 0x92 case 0x6c => 0x93 case 0x6d => 0x94 case 0x6e => 0x95 case _ => 0x96
  }

  function ToEbcdic70(c: nat): Byte {
    match c
    case 0x70 => 0x97 case 0x71 => 0x98 case 0x72 => 0x99 case 0x73 => 0xa2 case 0x74 => 0xa3 case 0x75 => 0xa4 case 0x76 => 0xa5 case 0x77 => 0xa6
    case 0x78 => 0xa7 case 0x79 => 0xa8 case 0x7a => 0xa9 case 0x7b => 0xc0 case 0x7c => 0x4f case 0x7d => 0xd0 case 0x7e => 0x5f case _ => 0x07
  }

  function ToEbcdic80(c: nat): Byte {
    match c
    case 0x80 => 0x20 case 0x81 => 0x21 case 0x82 => 0x22 case 0x83 => 0x23 case 0x84 => 0x24 case 0x85 => 0x15 case 0x86 => 0x06 case 0x87 => 0x17
    case 0x88 => 0x28 case 0x89 => 0x29 case 0x8a => 0x2a case 0x8b => 0x2b case 0x8c => 0x2c case 0x8d => 0x09 case 0x8e => 0x0a case _ => 0x1b
  }

  function ToEbcdic90(c: nat): Byte {
    match c
    case 0x90 => 0x30 case 0x91 => 0x31 case 0x92 => 0x1a case 0x93 => 0x33 case 0x94 => 0x34 case 0x95 => 0x35 case 0x96 => 0x36 case 0x97 => 0x08
    case 0x98 => 0x38 case 0x99 => 0x39 case 0x9a => 0x3a case 0x9b => 0x3b case 0x9c => 0x04 case 0x9d => 0x14 case 0x9e => 0x3e case _ => 0xe1
  }

  function ToEbcdica0(c: nat): Byte {
    match c
    case 0xa0 => 0x41 case 0xa1 => 0x42 case 0xa2 => 0x43 case 0xa3 => 0x44 case 0xa4 => 0x45 case 0xa5 => 0x46 case 0xa6 => 0x47 case 0xa7 => 0x48
    case 0xa8 => 0x49 case 0xa9 => 0x51 case 0xaa => 0x52 case 0xab => 0x53 case 0xac => 0x54 case 0xad => 0x55 case 0xae => 0x56 case _ => 0x57
  }

  function ToEbcdicb0(c: nat): Byte {
    match c
    case 0xb0 => 0x58 case 0xb1 => 0x59 case 0xb2 => 0x62 case 0xb3 => 0x63 case 0xb4 => 0x64 case 0xb5 => 0x65 case 0xb6 => 0x66 case 0xb7 => 0x67
    case 0xb8 => 0x68 case 0xb9 => 0x69 case 0xba => 0x70 case 0xbb => 0x71 case 0xbc => 0x72 case 0xbd => 0x73 case 0xbe => 0x74 case _ => 0x75
  }

  function ToEbcdicc0(c: nat): Byte {
    match c
    case 0xc0 => 0x76 case 0xc1 => 0x77 case 0xc2 => 0x78 case 0xc3 => 0x80 case 0xc4 => 0x8a case 0xc5 => 0x8b case 0xc6 => 0x8c case 0xc7 => 0x8d
    case 0xc8 => 0x8e case 0xc9 => 0x8f case 0xca => 0x90 case 0xcb => 0x6a case 0xcc => 0x9b case 0xcd => 0x9c case 0xce => 0x9d case _ => 0x9e
  }

  function ToEbcdicd0(c: nat): Byte {
    match c
    case 0xd0 => 0x9f case 0xd1 => 0xa0 case 0xd2 => 0xaa case 0xd3 => 0xab case 0xd4 => 0xac case 0xd5 => 0x4a case 0xd6 => 0xae case 0xd7 => 0xaf
    case 0xd8 => 0xb0 case 0xd9 => 0xb1 case 0xda => 0xb2 case 0xdb => 0xb3 case 0xdc => 0xb4 case 0xdd => 0xb5 case 0xde => 0xb6 case _ => 0xb7
  }

  function ToEbcdice0(c: nat): Byte {
    match c
    case 0xe0 => 0xb8 case 0xe1 => 0xb9 case 0xe2 => 0xba case 0xe3 => 0xbb case 0xe4 => 0xbc case 0xe5 => 0xa1 case 0xe6 => 0xbe case 0xe7 => 0xbf
    case 0xe8 => 0xca case 0xe9 => 0xcb case 0xea => 0xcc case 0xeb => 0xcd case 0xec => 0xce case 0xed => 0xcf case 0xee => 0xda case _ => 0xdb
  }

  function ToEbcdicf0(c: nat): Byte {
    match c
    case 0xf0 => 0xdc case 0xf1 => 0xdd case 0xf2 => 0xde case 0xf3 => 0xdf case 0xf4 => 0xea case 0xf5 => 0xeb case 0xf6 => 0xec case 0xf7 => 0xed
    case 0xf8 => 0xee case 0xf9 => 0xef case 0xfa => 0xfa case 0xfb => 0xfb case 0xfc => 0xfc case 0xfd => 0xfd case 0xfe => 0xfe case _ => 0xff
  }

  function ToEbcdic(c: Byte): Byte {
    if c < 0x80 then
      if c < 0x40 then
        if c < 0x20 then
          if c < 0x10 then ToEbcdic00(c) else ToEbcdic10(c)
        else
          if c < 0x30 then ToEbcdic20(c) else ToEbcdic30(c)
      else
        if c < 0x60 then
          if c < 0x50 then ToEbcdic40(c) else ToEbcdic50(c)
        else
          if c < 0x70 then ToEbcdic60(c) else ToEbcdic70(c)
    else
      if c < 0xc0 then
        if c < 0xa0 then
          if c < 0x90 then ToEbcdic80(c) else ToEbcdic90(c)
        else
          if c < 0xb0 then ToEbcdica0(c) else ToEbcdicb0(c)
      else
        if c < 0xe0 then
          if c < 0xd0 then ToEbcdicc0(c) else ToEbcdicd0(c)
        else
          if c < 0xf0 then ToEbcdice0(c) else ToEbcdicf0(c)
  }

  // ASCII to IBM EBCDIC

  function ToIbm00(c: nat): Byte {
    match c
    case 0x00 => 0x00 case 0x01 => 0x01 case 0x02 => 0x02 case 0x03 => 0x03 case 0x04 => 0x37 case 0x05 => 0x2d case 0x06 => 0x2e case 0x07 => 0x2f
    case 0x08 => 0x16 case 0x09 => 0x05 case 0x0a => 0x25 case 0x0b => 0x0b case 0x0c => 0x0c case 0x0d => 0x0d case 0x0e => 0x0e case _ => 0x0f
  }

  function ToIbm10(c: nat): Byte {
    match c
    case 0x10 => 0x10 case 0x11 => 0x11 case 0x12 => 0x12 case 0x13 => 0x13 case 0x14 => 0x3c case 0x15 => 0x3d case 0x16 => 0x32 case 0x17 => 0x26
    case 0x18 => 0x18 case 0x19 => 0x19 case 0x1a => 0x3f case 0x1b => 0x27 case 0x1c => 0x1c case 0x1d => 0x1d case 0x1e => 0x1e case _ => 0x1f
  }

  function ToIbm20(c: nat): Byte {
    match c
    case 0x20 => 0x40 case 0x21 => 0x5a case 0x22 => 0x7f case 0x23 => 0x7b case 0x24 => 0x5b case 0x25 => 0x6c case 0x26 => 0x50 case 0x27 => 0x7d
    case 0x28 => 0x4d case 0x29 => 0x5d case 0x2a => 0x5c case 0x2b => 0x4e case 0x2c => 0x6b case 0x2d => 0x60 case 0x2e => 0x4b case _ => 0x61
  }

  function ToIbm30(c: nat): Byte {
    match c
    case 0x30 => 0xf0 case 0x31 => 0xf1 case 0x32 => 0xf2 case 0x33 => 0xf3 case 0x34 => 0xf4 case 0x35 => 0xf5 case 0x36 => 0xf6 case 0x37 => 0xf7
    case 0x38 => 0xf8 case 0x39 => 0xf9 case 0x3a => 0x7a case 0x3b => 0x5e case 0x3c => 0x4c case 0x3d => 0x7e case 0x3e => 0x6e case _ => 0x6f
  }

  function ToIbm40(c: nat): Byte {
    match c
    case 0x40 => 0x7c case 0x41 => 0xc1 case 0x42 => 0xc2 case 0x43 => 0xc3 case 0x44 => 0xc4 case 0x45 => 0xc5 case 0x46 => 0xc6 case 0x47 => 0xc7
    case 0x48 => 0xc8 case 0x49 => 0xc9 case 0x4a => 0xd1 case 0x4b => 0xd2 case 0x4c => 0xd3 case 0x4d => 0xd4 case 0x4e => 0xd5 case _ => 0xd6
  }

  function ToIbm50(c: nat): Byte {
    match c
    case 0x50 => 0xd7 case 0x51 => 0xd8 case 0x52 => 0xd9 case 0x53 => 0xe2 case 0x54 => 0xe3 case 0x55 => 0xe4 case 0x56 => 0xe5 case 0x57 => 0xe6
    case 0x58 => 0xe7 case 0x59 => 0xe8 case 0x5a => 0xe9 case 0x5b => 0xad case 0x5c => 0xe0 case 0x5d => 0xbd case 0x5e => 0x5f case _ => 0x6d
  }

  function ToIbm60(c: nat): Byte {
    match c
    case 0x60 => 0x79 case 0x61 => 0x81 case 0x62 => 0x82 case 0x63 => 0x83 case 0x64 => 0x84 case 0x65 => 0x85 case 0x66 => 0x86 case 0x67 => 0x87
    case 0x68 => 0x88 case 0x69 => 0x89 case 0x6a => 0x91 case 0x6b => 0x92 case 0x6c => 0x93 case 0x6d => 0x94 case 0x6e => 0x95 case _ => 0x96
  }

  function ToIbm70(c: nat): Byte {
    match c
    case 0x70 => 0x97 case 0x71 => 0x98 case 0x72 => 0x99 case 0x73 => 0xa2 case 0x74 => 0xa3 case 0x75 => 0xa4 case 0x76 => 0xa5 case 0x77 => 0xa6
    case 0x78 => 0xa7 case 0x79 => 0xa8 case 0x7a => 0xa9 case 0x7b => 0xc0 case 0x7c => 0x4f case 0x7d => 0xd0 case 0x7e => 0xa1 case _ => 0x07
  }

  function ToIbm80(c: nat): Byte {
    match c
    case 0x80 => 0x20 case 0x81 => 0x21 case 0x82 => 0x22 case 0x83 => 0x23 case 0x84 => 0x24 case 0x85 => 0x15 case 0x86 => 0x06 case 0x87 => 0x17
    case 0x88 => 0x28 case 0x89 => 0x29 case 0x8a => 0x2a case 0x8b => 0x2b case 0x8c => 0x2c case 0x8d => 0x09 case 0x8e => 0x0a case _ => 0x1b
  }

  function ToIbm90(c: nat): Byte {
    match c
    case 0x90 => 0x30 case 0x91 => 0x31 case 0x92 => 0x1a case 0x93 => 0x33 case 0x94 => 0x34 case 0x95 => 0x35 case 0x96 => 0x36 case 0x97 => 0x08
    case 0x98 => 0x38 case 0x99 => 0x39 case 0x9a => 0x3a case 0x9b => 0x3b case 0x9c => 0x04 case 0x9d => 0x14 case 0x9e => 0x3e case _ => 0xe1
  }

  function ToIbma0(c: nat): Byte {
    match c
    case 0xa0 => 0x41 case 0xa1 => 0x42 case 0xa2 => 0x43 case 0xa3 => 0x44 case 0xa4 => 0x45 case 0xa5 => 0x46 case 0xa6 => 0x47 case 0xa7 => 0x48
    case 0xa8 => 0x49 case 0xa9 => 0x51 case 0xaa => 0x52 case 0xab => 0x53 case 0xac => 0x54 case 0xad => 0x55 case 0xae => 0x56 case _ => 0x57
  }

  function ToIbmb0(c: nat): Byte {
    match c
    case 0xb0 => 0x58 case 0xb1 => 0x59 case 0xb2 => 0x62 case 0xb3 => 0x63 case 0xb4 => 0x64 case 0xb5 => 0x65 case 0xb6 => 0x66 case 0xb7 => 0x67
    case 0xb8 => 0x68 case 0xb9 => 0x69 case 0xba => 0x70 case 0xbb => 0x71 case 0xbc => 0x72 case 0xbd => 0x73 case 0xbe => 0x74 case _ => 0x75
  }

  function ToIbmc0(c: nat): Byte {
    match c
    case 0xc0 => 0x76 case 0xc1 => 0x77 case 0xc2 => 0x78 case 0xc3 => 0x80 case 0xc4 => 0x8a case 0xc5 => 0x8b case 0xc6 => 0x8c case 0xc7 => 0x8d
    case 0xc8 => 0x8e case 0xc9 => 0x8f case 0xca => 0x90 case 0xcb => 0x9a case 0xcc => 0x9b case 0xcd => 0x9c case 0xce => 0x9d case _ => 0x9e
  }

  function ToIbmd0(c: nat): Byte {
    match c
    case 0xd0 => 0x9f case 0xd1 => 0xa0 case 0xd2 => 0xaa case 0xd3 => 0xab case 0xd4 => 0xac case 0xd5 => 0xad case 0xd6 => 0xae case 0xd7 => 0xaf
    case 0xd8 => 0xb0 case 0xd9 => 0xb1 case 0xda => 0xb2 case 0xdb => 0xb3 case 0xdc => 0xb4 case 0xdd => 0xb5 case 0xde => 0xb6 case _ => 0xb7
  }

  function ToIbme0(c: nat): Byte {
    match c
    case 0xe0 => 0xb8 case 0xe1 => 0xb9 case 0xe2 => 0xba case 0xe3 => 0xbb case 0xe4 => 0xbc case 0xe5 => 0xbd case 0xe6 => 0xbe case 0xe7 => 0xbf
    case 0xe8 => 0xca case 0xe9 => 0xcb case 0xea => 0xcc case 0xeb => 0xcd case 0xec => 0xce case 0xed => 0xcf case 0xee => 0xda case _ => 0xdb
  }

  function ToIbmf0(c: nat): Byte {
    match c
    case 0xf0 => 0xdc case 0xf1 => 0xdd case 0xf2 => 0xde case 0xf3 => 0xdf case 0xf4 => 0xea case 0xf5 => 0xeb case 0xf6 => 0xec case 0xf7 => 0xed
    case 0xf8 => 0xee case 0xf9 => 0xef case 0xfa => 0xfa case 0xfb => 0xfb case 0xfc => 0xfc case 0xfd => 0xfd case 0xfe => 0xfe case _ => 0xff
  }

  function ToIbm(c: Byte): Byte {
    if c < 0x80 then
      if c < 0x40 then
        if c < 0x20 then
          if c < 0x10 then ToIbm00(c) else ToIbm10(c)
        else
          if c < 0x30 then ToIbm20(c) else ToIbm30(c)
      else
        if c < 0x60 then
          if c < 0x50 then ToIbm40(c) else ToIbm50(c)
        else
          if c < 0x70 then ToIbm60(c) else ToIbm70(c)
    else
      if c < 0xc0 then
        if c < 0xa0 then
          if c < 0x90 then ToIbm80(c) else ToIbm90(c)
        else
          if c < 0xb0 then ToIbma0(c) else ToIbmb0(c)
      else
        if c < 0xe0 then
          if c < 0xd0 then ToIbmc0(c) else ToIbmd0(c)
        else
          if c < 0xf0 then ToIbme0(c) else ToIbmf0(c)
  }

  // ---------------------------------------------------------------------
  // How the tables relate

  lemma Back00(c: Byte)
    requires 0x00 <= c < 0x40
    ensures ToAscii(ToEbcdic(c)) == c
  {
  }

  lemma Back40(c: Byte)
    requires 0x40 <= c < 0x80
    ensures ToAscii(ToEbcdic(c)) == c
  {
  }

  lemma Back80(c: Byte)
    requires 0x80 <= c < 0xc0
    ensures ToAscii(ToEbcdic(c)) == c
  {
  }

  lemma Backc0(c: Byte)
    requires 0xc0 <= c < 0x100
    ensures ToAscii(ToEbcdic(c)) == c
  {
  }

  /** conv=ascii undoes conv=ebcdic on every byte. */
  lemma AsciiOfEbcdic(c: Byte)
    ensures ToAscii(ToEbcdic(c)) == c
  {
    hide *;
    if c < 0x40 { Back00(c); } else if c < 0x80 { Back40(c); }
    else if c < 0xc0 { Back80(c); } else { Backc0(c); }
  }

  /** EBCDIC keeps the digits together and the letters in three blocks of each case. */
  function Block(c: Byte): nat {
    if 48 <= c <= 57 then 0xf0 + (c - 48)
    else if 65 <= c <= 73 then 0xc1 + (c - 65)
    else if 74 <= c <= 82 then 0xd1 + (c - 74)
    else if 83 <= c <= 90 then 0xe2 + (c - 83)
    else if 97 <= c <= 105 then 0x81 + (c - 97)
    else if 106 <= c <= 114 then 0x91 + (c - 106)
    else 0xa2 + (c - 115)
  }

  lemma Digits(c: Byte)
    requires 48 <= c <= 57
    ensures ToEbcdic(c) == Block(c)
  {
  }

  lemma Capitals(c: Byte)
    requires 65 <= c <= 90
    ensures ToEbcdic(c) == Block(c)
  {
  }

  lemma Smalls(c: Byte)
    requires 97 <= c <= 122
    ensures ToEbcdic(c) == Block(c)
  {
  }

  /** '0' to '9' go to f0 to f9, 'A' to 'I' to c1 to c9, 'J' to 'R' to d1 to d9, 'S' to 'Z' to
      e2 to e9, the small letters 40 lower; space goes to 40 and newline to 25. */
  lemma LettersAndDigits(c: Byte)
    ensures 48 <= c <= 57 ==> ToEbcdic(c) == 0xf0 + (c - 48)
    ensures 65 <= c <= 73 ==> ToEbcdic(c) == 0xc1 + (c - 65)
    ensures 74 <= c <= 82 ==> ToEbcdic(c) == 0xd1 + (c - 74)
    ensures 83 <= c <= 90 ==> ToEbcdic(c) == 0xe2 + (c - 83)
    ensures 97 <= c <= 122 ==> c >= 32 && ToEbcdic(c) == ToEbcdic(c - 32) - 0x40
    ensures ToEbcdic(32) == 0x40 && ToEbcdic(10) == 0x25
  {
    assert ToEbcdic(32) == 0x40 && ToEbcdic(10) == 0x25;
    hide ToEbcdic;
    if 48 <= c <= 57 { Digits(c); }
    if 65 <= c <= 90 { Capitals(c); }
    if 97 <= c <= 122 { Smalls(c); Capitals(c - 32); }
  }

  /** The five code points at which conv=ibm departs from conv=ebcdic. */
  predicate IbmOnly(c: Byte) {
    c == 0x5e || c == 0x7e || c == 0xcb || c == 0xd5 || c == 0xe5
  }

  lemma Ibm00(c: Byte)
    requires 0x00 <= c < 0x40
    ensures ToIbm(c) == ToEbcdic(c) <==> !IbmOnly(c)
  {
  }

  lemma Ibm40(c: Byte)
    requires 0x40 <= c < 0x80
    ensures ToIbm(c) == ToEbcdic(c) <==> !IbmOnly(c)
  {
  }

  lemma Ibm80(c: Byte)
    requires 0x80 <= c < 0xc0
    ensures ToIbm(c) == ToEbcdic(c) <==> !IbmOnly(c)
  {
  }

  lemma Ibmc0(c: Byte)
    requires 0xc0 <= c < 0x100
    ensures ToIbm(c) == ToEbcdic(c) <==> !IbmOnly(c)
  {
  }

  lemma IbmLoses()
    ensures ToAscii(ToIbm(0x5e)) == 0x7e && ToAscii(ToIbm(0x7e)) == 0xe5
    ensures ToAscii(ToIbm(0xcb)) == 0x5e && ToAscii(ToIbm(0xd5)) == 0x5b && ToAscii(ToIbm(0xe5)) == 0x5d
  {
  }

  /** Those are exactly the bytes at which the tables differ, and exactly the bytes that
      conv=ibm followed by conv=ascii does not bring back. */
  lemma IbmDiffers(c: Byte)
    ensures ToIbm(c) == ToEbcdic(c) <==> !IbmOnly(c)
    ensures ToAscii(ToIbm(c)) == c <==> !IbmOnly(c)
  {
    hide ToAscii, ToEbcdic, ToIbm;
    IbmLoses();
    AsciiOfEbcdic(c);
    if c < 0x40 { Ibm00(c); } else if c < 0x80 { Ibm40(c); }
    else if c < 0xc0 { Ibm80(c); } else { Ibmc0(c); }
  }

  /** No table could: conv=ibm sends two pairs of bytes to one code each. */
  lemma IbmMerges()
    ensures ToIbm(0x5b) == ToIbm(0xd5) && ToIbm(0x5d) == ToIbm(0xe5)
  {
  }
}
