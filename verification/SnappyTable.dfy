/** The decompressor's lookup table, and what its entries stand for. */
module SnappyTable {
  import opened Bytes
  import opened SnappyFormat

  /** One entry per tag byte, sixteen to a row: the element length in bits 0-7,
      the high bits of a short copy's offset in bits 8-10, and the number of
      bytes after the tag in bits 11-13. */
  const CHAR_TABLE: seq<seq<u16>> := [
    [0x0001, 0x0804, 0x1001, 0x2001, 0x0002, 0x0805, 0x1002, 0x2002,
     0x0003, 0x0806, 0x1003, 0x2003, 0x0004, 0x0807, 0x1004, 0x2004],
    [0x0005, 0x0808, 0x1005, 0x2005, 0x0006, 0x0809, 0x1006, 0x2006,
     0x0007, 0x080a, 0x1007, 0x2007, 0x0008, 0x080b, 0x1008, 0x2008],
    [0x0009, 0x0904, 0x1009, 0x2009, 0x000a, 0x0905, 0x100a, 0x200a,
     0x000b, 0x0906, 0x100b, 0x200b, 0x000c, 0x0907, 0x100c, 0x200c],
    [0x000d, 0x0908, 0x100d, 0x200d, 0x000e, 0x0909, 0x100e, 0x200e,
     0x000f, 0x090a, 0x100f, 0x200f, 0x0010, 0x090b, 0x1010, 0x2010],
    [0x0011, 0x0a04, 0x1011, 0x2011, 0x0012, 0x0a05, 0x1012, 0x2012,
     0x0013, 0x0a06, 0x1013, 0x2013, 0x0014, 0x0a07, 0x1014, 0x2014],
    [0x0015, 0x0a08, 0x1015, 0x2015, 0x0016, 0x0a09, 0x1016, 0x2016,
     0x0017, 0x0a0a, 0x1017, 0x2017, 0x0018, 0x0a0b, 0x1018, 0x2018],
    [0x0019, 0x0b04, 0x1019, 0x2019, 0x001a, 0x0b05, 0x101a, 0x201a,
     0x001b, 0x0b06, 0x101b, 0x201b, 0x001c, 0x0b07, 0x101c, 0x201c],
    [0x001d, 0x0b08, 0x101d, 0x201d, 0x001e, 0x0b09, 0x101e, 0x201e,
     0x001f, 0x0b0a, 0x101f, 0x201f, 0x0020, 0x0b0b, 0x1020, 0x2020],
    [0x0021, 0x0c04, 0x1021, 0x2021, 0x0022, 0x0c05, 0x1022, 0x2022,
     0x0023, 0x0c06, 0x1023, 0x2023, 0x0024, 0x0c07, 0x1024, 0x2024],
    [0x0025, 0x0c08, 0x1025, 0x2025, 0x0026, 0x0c09, 0x1026, 0x2026,
     0x0027, 0x0c0a, 0x1027, 0x2027, 0x0028, 0x0c0b, 0x1028, 0x2028],
    [0x0029, 0x0d04, 0x1029, 0x2029, 0x002a, 0x0d05, 0x102a, 0x202a,
     0x002b, 0x0d06, 0x102b, 0x202b, 0x002c, 0x0d07, 0x102c, 0x202c],
    [0x002d, 0x0d08, 0x102d, 0x202d, 0x002e, 0x0d09, 0x102e, 0x202e,
     0x002f, 0x0d0a, 0x102f, 0x202f, 0x0030, 0x0d0b, 0x1030, 0x2030],
    [0x0031, 0x0e04, 0x1031, 0x2031, 0x0032, 0x0e05, 0x1032, 0x2032,
     0x0033, 0x0e06, 0x1033, 0x2033, 0x0034, 0x0e07, 0x1034, 0x2034],
    [0x0035, 0x0e08, 0x1035, 0x2035, 0x0036, 0x0e09, 0x1036, 0x2036,
     0x0037, 0x0e0a, 0x1037, 0x2037, 0x0038, 0x0e0b, 0x1038, 0x2038],
    [0x0039, 0x0f04, 0x1039, 0x2039, 0x003a, 0x0f05, 0x103a, 0x203a,
     0x003b, 0x0f06, 0x103b, 0x203b, 0x003c, 0x0f07, 0x103c, 0x203c],
    [0x0801, 0x0f08, 0x103d, 0x203d, 0x1001, 0x0f09, 0x103e, 0x203e,
     0x1801, 0x0f0a, 0x103f, 0x203f, 0x2001, 0x0f0b, 0x1040, 0x2040]
  ]

  function Entry(c: byte): (e: int) {
    CHAR_TABLE[c / 16][c % 16]
  }

  /** The entry that the format calls for. */
  function FormatEntry(c: byte): (e: int) {
    0x800 * TrailerSize(c) +
    if c % 4 == 0 then (if c / 4 < 60 then c / 4 + 1 else 1)
    else if c % 4 == 1 then 0x100 * (c / 32) + 4 + c / 4 % 8
    else 1 + c / 4
  }

  /** The entry for tag 16 r + 4 q + m: a literal, a short copy, or one with two or four bytes
      of offset. */
  function Tag(r: nat, q: nat, m: nat): (e: int) {
    if m == 0 then (if r < 15 then 4 * r + q + 1 else 0x800 * (q + 1) + 1)
    else if m == 1 then 0x800 + 0x100 * (r / 2) + 4 * (r % 2) + 4 + q
    else if m == 2 then 0x1000 + 4 * r + q + 1
    else 0x2000 + 4 * r + q + 1
  }

  function FormatRow(r: nat): (row: seq<int>)
    ensures |row| == 16
  {
    [ Tag(r, 0, 0), Tag(r, 0, 1), Tag(r, 0, 2), Tag(r, 0, 3),
      Tag(r, 1, 0), Tag(r, 1, 1), Tag(r, 1, 2), Tag(r, 1, 3),
      Tag(r, 2, 0), Tag(r, 2, 1), Tag(r, 2, 2), Tag(r, 2, 3),
      Tag(r, 3, 0), Tag(r, 3, 1), Tag(r, 3, 2), Tag(r, 3, 3) ]
  }

  lemma LowRow(r: nat)
    requires r < 8
    ensures CHAR_TABLE[r] == FormatRow(r)
  {
  }

  lemma HighRow(r: nat)
    requires 8 <= r < 16
    ensures CHAR_TABLE[r] == FormatRow(r)
  {
  }

  lemma TagIs(c: byte, r: nat, q: nat, m: nat)
    requires r < 16 && q < 4 && m < 4 && c == 16 * r + 4 * q + m
    ensures Tag(r, q, m) == FormatEntry(c)
  {
    assert c / 4 == 4 * r + q && c % 4 == m && c / 32 == r / 2;
    assert (4 * r + q) % 8 == 4 * (r % 2) + q;
  }

  lemma RowTag(r: nat, q: nat, m: nat)
    requires r < 16 && q < 4 && m < 4
    ensures FormatRow(r)[4 * q + m] == Tag(r, q, m)
  {
    hide Tag;
  }

  /** All 256 entries are right. */
  lemma TableIsFormat(c: byte)
    ensures Entry(c) == FormatEntry(c)
  {
    hide Tag, FormatRow, FormatEntry;
    var r, q, m := c / 16, c % 16 / 4, c % 4;
    assert c % 16 == 4 * q + m;
    if r < 8 { LowRow(r); } else { HighRow(r); }
    RowTag(r, q, m);
    TagIs(c, r, q, m);
  }

  lemma SplitEntry(e: int, k: nat, h: nat, l: nat)
    requires e == 0x800 * k + 0x100 * h + l && h < 8 && l < 0x100
    ensures e / 0x800 == k && e / 0x100 % 8 == h && e % 0x100 == l
  {
    assert e / 0x100 == 8 * k + h;
  }

  /** The fields the decoder cuts out of an entry. */
  lemma TableFields(c: byte, trailer: nat)
    ensures Entry(c) / 0x800 == TrailerSize(c)
    ensures c % 4 != 0 ==>
      CopyOf(c, trailer) == Copy(Entry(c) / 0x100 % 8 * 0x100 + trailer, Entry(c) % 0x100)
  {
    TableIsFormat(c);
    if c % 4 == 0 {
      SplitEntry(Entry(c), TrailerSize(c), 0, if c / 4 < 60 then c / 4 + 1 else 1);
    } else if c % 4 == 1 {
      SplitEntry(Entry(c), 1, c / 32, 4 + c / 4 % 8);
    } else {
      SplitEntry(Entry(c), TrailerSize(c), 0, 1 + c / 4);
    }
  }
}
