/** The decompressor's look-up table, and that every entry of it agrees with the format. */
module SnappyTable {
  import opened Bytes
  import opened SnappyFormat

  /** Row r of char_table, eight entries a row as the source sets it out. */
  function CharTableRow(r: nat): (row: seq<nat>)
    requires r < 32
    ensures |row| == 8
  {
    if r < 8 then RowsFrom0(r) else if r < 16 then RowsFrom8(r) else if r < 24 then RowsFrom16(r) else RowsFrom24(r)
  }

  function RowsFrom0(r: nat): (row: seq<nat>)
    requires 0 <= r < 8
    ensures |row| == 8
  {
    match r
    case 0 => [0x0001, 0x0804, 0x1001, 0x2001, 0x0002, 0x0805, 0x1002, 0x2002]
    case 1 => [0x0003, 0x0806, 0x1003, 0x2003, 0x0004, 0x0807, 0x1004, 0x2004]
    case 2 => [0x0005, 0x0808, 0x1005, 0x2005, 0x0006, 0x0809, 0x1006, 0x2006]
    case 3 => [0x0007, 0x080a, 0x1007, 0x2007, 0x0008, 0x080b, 0x1008, 0x2008]
    case 4 => [0x0009, 0x0904, 0x1009, 0x2009, 0x000a, 0x0905, 0x100a, 0x200a]
    case 5 => [0x000b, 0x0906, 0x100b, 0x200b, 0x000c, 0x0907, 0x100c, 0x200c]
    case 6 => [0x000d, 0x0908, 0x100d, 0x200d, 0x000e, 0x0909, 0x100e, 0x200e]
    case _ => [0x000f, 0x090a, 0x100f, 0x200f, 0x0010, 0x090b, 0x1010, 0x2010]
  }

  function RowsFrom8(r: nat): (row: seq<nat>)
    requires 8 <= r < 16
    ensures |row| == 8
  {
    match r
    case 8 => [0x0011, 0x0a04, 0x1011, 0x2011, 0x0012, 0x0a05, 0x1012, 0x2012]
    case 9 => [0x0013, 0x0a06, 0x1013, 0x2013, 0x0014, 0x0a07, 0x1014, 0x2014]
    case 10 => [0x0015, 0x0a08, 0x1015, 0x2015, 0x0016, 0x0a09, 0x1016, 0x2016]
    case 11 => [0x0017, 0x0a0a, 0x1017, 0x2017, 0x0018, 0x0a0b, 0x1018, 0x2018]
    case 12 => [0x0019, 0x0b04, 0x1019, 0x2019, 0x001a, 0x0b05, 0x101a, 0x201a]
    case 13 => [0x001b, 0x0b06, 0x101b, 0x201b, 0x001c, 0x0b07, 0x101c, 0x201c]
    case 14 => [0x001d, 0x0b08, 0x101d, 0x201d, 0x001e, 0x0b09, 0x101e, 0x201e]
    case _ => [0x001f, 0x0b0a, 0x101f, 0x201f, 0x0020, 0x0b0b, 0x1020, 0x2020]
  }

  function RowsFrom16(r: nat): (row: seq<nat>)
    requires 16 <= r < 24
    ensures |row| == 8
  {
    match r
    case 16 => [0x0021, 0x0c04, 0x1021, 0x2021, 0x0022, 0x0c05, 0x1022, 0x2022]
    case 17 => [0x0023, 0x0c06, 0x1023, 0x2023, 0x0024, 0x0c07, 0x1024, 0x2024]
    case 18 => [0x0025, 0x0c08, 0x1025, 0x2025, 0x0026, 0x0c09, 0x1026, 0x2026]
    case 19 => [0x0027, 0x0c0a, 0x1027, 0x2027, 0x0028, 0x0c0b, 0x1028, 0x2028]
    case 20 => [0x0029, 0x0d04, 0x1029, 0x2029, 0x002a, 0x0d05, 0x102a, 0x202a]
    case 21 => [0x002b, 0x0d06, 0x102b, 0x202b, 0x002c, 0x0d07, 0x102c, 0x202c]
    case 22 => [0x002d, 0x0d08, 0x102d, 0x202d, 0x002e, 0x0d09, 0x102e, 0x202e]
    case _ => [0x002f, 0x0d0a, 0x102f, 0x202f, 0x0030, 0x0d0b, 0x1030, 0x2030]
  }

  function RowsFrom24(r: nat): (row: seq<nat>)
    requires 24 <= r < 32
    ensures |row| == 8
  {
    match r
    case 24 => [0x0031, 0x0e04, 0x1031, 0x2031, 0x0032, 0x0e05, 0x1032, 0x2032]
    case 25 => [0x0033, 0x0e06, 0x1033, 0x2033, 0x0034, 0x0e07, 0x1034, 0x2034]
    case 26 => [0x0035, 0x0e08, 0x1035, 0x2035, 0x0036, 0x0e09, 0x1036, 0x2036]
    case 27 => [0x0037, 0x0e0a, 0x1037, 0x2037, 0x0038, 0x0e0b, 0x1038, 0x2038]
    case 28 => [0x0039, 0x0f04, 0x1039, 0x2039, 0x003a, 0x0f05, 0x103a, 0x203a]
    case 29 => [0x003b, 0x0f06, 0x103b, 0x203b, 0x003c, 0x0f07, 0x103c, 0x203c]
    case 30 => [0x0801, 0x0f08, 0x103d, 0x203d, 0x1001, 0x0f09, 0x103e, 0x203e]
    case _ => [0x1801, 0x0f0a, 0x103f, 0x203f, 0x2001, 0x0f0b, 0x1040, 0x2040]
  }

  function CharTable(c: Byte): nat {
    CharTableRow(c / 8)[c % 8]
  }

  /** MakeEntry: extra bytes in bits 11 to 13, offset / 256 in bits 8 to 10, length below. */
  function MakeEntry(extra: nat, len: nat, copyOffset: nat): (e: nat)
    requires extra <= 4 && len <= 64 && copyOffset <= 7
  {
    len + copyOffset * 256 + extra * 2048
  }

  /** The entry ComputeTable works out for a tag byte. */
  function ComputedEntry(c: Byte): nat {
    match c % 4
    case 0 => if c / 4 < 60 then MakeEntry(0, c / 4 + 1, 0) else MakeEntry(c / 4 - 59, 1, 0)
    case 1 => MakeEntry(1, c / 4 % 8 + 4, c / 32)
    case 2 => MakeEntry(2, c / 4 + 1, 0)
    case _ => MakeEntry(4, c / 4 + 1, 0)
  }

  /** The recorded table is the computed one. */
  lemma TableIsComputed(c: Byte)
    ensures CharTable(c) == ComputedEntry(c)
  {
    RowIsComputed(c / 8, c % 8);
    assert 8 * (c / 8) + c % 8 == c;
  }

  /** The computed entry at place i of row r. */
  function RowEntry(r: nat, i: nat): nat
    requires r < 32 && i < 8
  {
    var k := 2 * r + i / 4;
    match i % 4
    case 0 => if k < 60 then k + 1 else 1 + (k - 59) * 2048
    case 1 => k % 8 + 4 + r / 4 * 256 + 2048
    case 2 => k + 1 + 2 * 2048
    case _ => k + 1 + 4 * 2048
  }

  lemma RowEntryIsComputed(r: nat, i: nat)
    requires r < 32 && i < 8
    ensures RowEntry(r, i) == ComputedEntry(8 * r + i)
  {
    var c := 8 * r + i;
    assert c % 4 == i % 4 && c / 4 == 2 * r + i / 4 && c / 32 == r / 4;
  }

  lemma RowIsComputed(r: nat, i: nat)
    requires r < 32 && i < 8
    ensures CharTableRow(r)[i] == ComputedEntry(8 * r + i)
  {
    RowEntryIsComputed(r, i);
    if r < 8 { From0(r, i); } else if r < 16 { From8(r, i); } else if r < 24 { From16(r, i); } else { From24(r, i); }
  }

  lemma From0(r: nat, i: nat)
    requires 0 <= r < 8 && i < 8
    ensures RowsFrom0(r)[i] == RowEntry(r, i)
  {
    assert i == 0 || i == 1 || i == 2 || i == 3 || i == 4 || i == 5 || i == 6 || i == 7;
  }

  lemma From8(r: nat, i: nat)
    requires 8 <= r < 16 && i < 8
    ensures RowsFrom8(r)[i] == RowEntry(r, i)
  {
    assert i == 0 || i == 1 || i == 2 || i == 3 || i == 4 || i == 5 || i == 6 || i == 7;
  }

  lemma From16(r: nat, i: nat)
    requires 16 <= r < 24 && i < 8
    ensures RowsFrom16(r)[i] == RowEntry(r, i)
  {
    assert i == 0 || i == 1 || i == 2 || i == 3 || i == 4 || i == 5 || i == 6 || i == 7;
  }

  lemma From24(r: nat, i: nat)
    requires 24 <= r < 32 && i < 8
    ensures RowsFrom24(r)[i] == RowEntry(r, i)
  {
    assert i == 0 || i == 1 || i == 2 || i == 3 || i == 4 || i == 5 || i == 6 || i == 7;
  }

  /** The three fields of an entry, as the decompressor takes them out. */
  lemma EntryFields(c: Byte)
    ensures CharTable(c) / 2048 == TagSize(c) - 1
    ensures c % 4 != 0 ==> 1 <= CharTable(c) % 256 == (if c % 4 == 1 then c / 4 % 8 + 4 else c / 4 + 1)
    ensures c % 4 != 0 ==> CharTable(c) / 256 % 8 * 256 == (if c % 4 == 1 then c / 32 * 256 else 0)
  {
    TableIsComputed(c);
    match c % 4
    case 0 => if c / 4 < 60 { FieldsOf(0, c / 4 + 1, 0); } else { FieldsOf(c / 4 - 59, 1, 0); }
    case 1 => FieldsOf(1, c / 4 % 8 + 4, c / 32);
    case 2 => FieldsOf(2, c / 4 + 1, 0);
    case _ => FieldsOf(4, c / 4 + 1, 0);
  }

  lemma FieldsOf(extra: nat, len: nat, copyOffset: nat)
    requires extra <= 4 && len <= 64 && copyOffset <= 7
    ensures var e := MakeEntry(extra, len, copyOffset);
            e / 2048 == extra && e % 256 == len && e / 256 % 8 == copyOffset
  {
    ModUnique(MakeEntry(extra, len, copyOffset), 256, copyOffset + 8 * extra, len);
    ModUnique(MakeEntry(extra, len, copyOffset), 2048, extra, len + 256 * copyOffset);
    ModUnique(copyOffset + 8 * extra, 8, extra, copyOffset);
  }
}
