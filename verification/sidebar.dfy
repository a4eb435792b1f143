/**
 The character sidebar of a dump line: one character per octet, either the
 octet itself (ASCII) or its EBCDIC translation when that is printable, and
 '.' otherwise.
 */
module Sidebar {
  import opened Encoding

  /** Octets below this value have no entry in the EBCDIC table (`ebcdicOffset`). */
  const EbcdicOffset: Byte := 0x40

  /**
   The EBCDIC-to-ASCII table of xxd.go, from EBCDIC code 0x40 up to 0xff:
   entry i translates the EBCDIC octet 0x40 + i.
   */
  const EbcdicTable: seq<Byte> := [
    0x20, 0xa0, 0xa1, 0xa2, 0xa3, 0xa4, 0xa5, 0xa6,
    0xa7, 0xa8, 0xd5, 0x2e, 0x3c, 0x28, 0x2b, 0x7c,
    0x26, 0xa9, 0xaa, 0xab, 0xac, 0xad, 0xae, 0xaf,
    0xb0, 0xb1, 0x21, 0x24, 0x2a, 0x29, 0x3b, 0x7e,
    0x2d, 0x2f, 0xb2, 0xb3, 0xb4, 0xb5, 0xb6, 0xb7,
    0xb8, 0xb9, 0xcb, 0x2c, 0x25, 0x5f, 0x3e, 0x3f,
    0xba, 0xbb, 0xbc, 0xbd, 0xbe, 0xbf, 0xc0, 0xc1,
    0xc2, 0x60, 0x3a, 0x23, 0x40, 0x27, 0x3d, 0x22,
    0xc3, 0x61, 0x62, 0x63, 0x64, 0x65, 0x66, 0x67,
    0x68, 0x69, 0xc4, 0xc5, 0xc6, 0xc7, 0xc8, 0xc9,
    0xca, 0x6a, 0x6b, 0x6c, 0x6d, 0x6e, 0x6f, 0x70,
    0x71, 0x72, 0x5e, 0xcc, 0xcd, 0xce, 0xcf, 0xd0,
    0xd1, 0xe5, 0x73, 0x74, 0x75, 0x76, 0x77, 0x78,
    0x79, 0x7a, 0xd2, 0xd3, 0xd4, 0x5b, 0xd6, 0xd7,
    0xd8, 0xd9, 0xda, 0xdb, 0xdc, 0xdd, 0xde, 0xdf,
    0xe0, 0xe1, 0xe2, 0xe3, 0xe4, 0x5d, 0xe6, 0xe7,
    0x7b, 0x41, 0x42, 0x43, 0x44, 0x45, 0x46, 0x47,
    0x48, 0x49, 0xe8, 0xe9, 0xea, 0xeb, 0xec, 0xed,
    0x7d, 0x4a, 0x4b, 0x4c, 0x4d, 0x4e, 0x4f, 0x50,
    0x51, 0x52, 0xee, 0xef, 0xf0, 0xf1, 0xf2, 0xf3,
    0x5c, 0x9f, 0x53, 0x54, 0x55, 0x56, 0x57, 0x58,
    0x59, 0x5a, 0xf4, 0xf5, 0xf6, 0xf7, 0xf8, 0xf9,
    0x30, 0x31, 0x32, 0x33, 0x34, 0x35, 0x36, 0x37,
    0x38, 0x39, 0xfa, 0xfb, 0xfc, 0xfd, 0xfe, 0xff
  ]

  /** The range the dump shows verbatim: 0x1f < c < 0x7f. */
  predicate Printable(c: Byte) {
    0x1f < c < 0x7f
  }

  /** The sidebar character for one octet, in ASCII or in EBCDIC mode. */
  function SideChar(c: Byte, ebcdic: bool): (r: char)
    ensures 0x20 <= r as int < 0x7f
    ensures !ebcdic && Printable(c) ==> r == c as char
    ensures !ebcdic && !Printable(c) ==> r == '.'
    ensures ebcdic && c < EbcdicOffset ==> r == '.'
    ensures ebcdic && EbcdicOffset <= c ==>
              c - EbcdicOffset < |EbcdicTable| &&
              var e := EbcdicTable[c - EbcdicOffset];
              (Printable(e) ==> r == e as char) && (!Printable(e) ==> r == '.')
  {
    if ebcdic then
      if c >= EbcdicOffset then
        var e := EbcdicTable[c - EbcdicOffset];
        if Printable(e) then e as char else '.'
      else '.'
    else if Printable(c) then c as char
    else '.'
  }

  /** The sidebar of a line's octets: the octets read, never the stale tail. */
  function Side(b: seq<Byte>, ebcdic: bool): (s: string)
    ensures |s| == |b|
    ensures forall i :: 0 <= i < |b| ==> s[i] == SideChar(b[i], ebcdic)
  {
    if |b| == 0 then [] else [SideChar(b[0], ebcdic)] + Side(b[1..], ebcdic)
  }
}
