/** The bytes of the two records as they lie in memory and on disk (x86_64 layout of
    src/knoten.h, little-endian, with the compiler's padding). */
module Codec {
  import opened Types
  import opened Layout

  // ---- Numbers ----

  /** The low `width` bytes of v in two's complement, least significant first. */
  function LittleEndian(width: nat, v: int): (bytes: seq<byte>)
    ensures |bytes| == width
  {
    if width == 0 then [] else [(v % 256) as byte] + LittleEndian(width - 1, v / 256)
  }

  function Half(width: nat): int
    requires width > 0
  {
    if width == 1 then 128 else 256 * Half(width - 1)
  }

  function Signed(bytes: seq<byte>): (v: int)
    requires bytes != []
    ensures -Half(|bytes|) <= v < Half(|bytes|)
  {
    if |bytes| == 1 then (if bytes[0] < 128 then bytes[0] as int else bytes[0] as int - 256)
    else bytes[0] as int + 256 * Signed(bytes[1..])
  }

  lemma {:induction false} SignedInverts(width: nat, v: int)
    requires width > 0 && -Half(width) <= v < Half(width)
    ensures Signed(LittleEndian(width, v)) == v
  {
    var bytes := LittleEndian(width, v);
    if width == 1 {
      assert bytes == [(v % 256) as byte];
    } else {
      SignedInverts(width - 1, v / 256);
      assert bytes[1..] == LittleEndian(width - 1, v / 256);
    }
  }

  /** Decoding loses nothing: the bytes of the number read are the bytes it was read from. */
  lemma {:induction false} UnsignedInverts(bytes: seq<byte>)
    requires bytes != []
    ensures LittleEndian(|bytes|, Signed(bytes)) == bytes
  {
    if |bytes| == 1 {
      assert LittleEndian(1, Signed(bytes)) == [(Signed(bytes) % 256) as byte] + LittleEndian(0, Signed(bytes) / 256);
    } else {
      var rest := Signed(bytes[1..]);
      UnsignedInverts(bytes[1..]);
      ByteOnTop(bytes[0] as int, rest);
      assert Signed(bytes) == bytes[0] as int + 256 * rest;
      assert bytes == [bytes[0]] + bytes[1..];
    }
  }

  lemma ByteOnTop(b: int, rest: int)
    requires 0 <= b < 256
    ensures (b + 256 * rest) % 256 == b && (b + 256 * rest) / 256 == rest
  {}

  function Power256(k: nat): (p: int)
    ensures p >= 1
  {
    if k == 0 then 1 else 256 * Power256(k - 1)
  }

  /** Byte k is digit k in base 256, of a negative number in two's complement. */
  lemma {:induction false} LittleEndianDigits(width: nat, v: int, k: nat)
    requires k < width
    ensures LittleEndian(width, v)[k] as int == v / Power256(k) % 256
  {
    if k > 0 {
      LittleEndianDigits(width - 1, v / 256, k - 1);
      DivideTwice(v, Power256(k - 1));
    }
  }

  lemma DivideTwice(v: int, b: int)
    requires b > 0
    ensures v / 256 / b == v / (256 * b)
  {
    var q := v / 256;
    assert q == q / b * b + q % b;
    Regroup(q / b, b);
    QuotientOf(v, 256 * b, q / b, q % b * 256 + v % 256);
  }

  lemma Regroup(q: int, b: int)
    ensures q * (256 * b) == 256 * (q * b)
  {}

  lemma Halves()
    ensures Half(2) == 0x8000 && Half(4) == 0x8000_0000 && Half(8) == 0x8000_0000_0000_0000
  {
    assert Half(3) == 0x80_0000;
    assert Half(5) == 0x80_0000_0000 && Half(6) == 0x8000_0000_0000 && Half(7) == 0x80_0000_0000_0000;
  }

  function ShortOf(bytes: seq<byte>): short
    requires |bytes| == 2
  {
    Halves(); Signed(bytes)
  }

  function CintOf(bytes: seq<byte>): cint
    requires |bytes| == 4
  {
    Halves(); Signed(bytes)
  }

  function LongOf(bytes: seq<byte>): long
    requires |bytes| == 8
  {
    Halves(); Signed(bytes)
  }

  lemma ShortInverts(v: short)
    ensures ShortOf(LittleEndian(2, v)) == v
  {
    Halves();
    SignedInverts(2, v);
  }

  lemma CintInverts(v: cint)
    ensures CintOf(LittleEndian(4, v)) == v
  {
    Halves();
    SignedInverts(4, v);
  }

  lemma LongInverts(v: long)
    ensures LongOf(LittleEndian(8, v)) == v
  {
    Halves();
    SignedInverts(8, v);
  }

  // ---- Names ----

  function NameBytes(s: Name): (bytes: seq<byte>)
    ensures |bytes| == NAME_SIZE
  {
    seq(NAME_SIZE, i requires 0 <= i => if i < |s| then s[i] as int as byte else 0)
  }

  function TextOf(bytes: seq<byte>): (s: string)
    ensures |s| <= |bytes| && IsCString(s)
  {
    if bytes == [] || bytes[0] == 0 then "" else [bytes[0] as char] + TextOf(bytes[1..])
  }

  /** A name field holds the characters and then zeros. */
  lemma NameLayout(s: Name)
    ensures forall i :: 0 <= i < NAME_SIZE ==> NameBytes(s)[i] as int == if i < |s| then s[i] as int else 0
  {}

  /** Text ends at the first NUL. */
  predicate IsTextOf(s: string, bytes: seq<byte>) {
    |s| <= |bytes| && (|s| < |bytes| ==> bytes[|s|] == 0) &&
    forall i :: 0 <= i < |s| ==> bytes[i] != 0 && s[i] as int == bytes[i] as int
  }

  lemma {:induction false} TextIsText(bytes: seq<byte>)
    ensures IsTextOf(TextOf(bytes), bytes)
  {
    if bytes != [] && bytes[0] != 0 {
      TextIsText(bytes[1..]);
      var s := TextOf(bytes);
      forall i | 0 <= i < |s| ensures bytes[i] != 0 && s[i] as int == bytes[i] as int {
        if i > 0 {
          assert s[i] == TextOf(bytes[1..])[i - 1] && bytes[i] == bytes[1..][i - 1];
        }
      }
    }
  }

  /** The last byte of a name field is its terminator. */
  function NameOf(bytes: seq<byte>): Name
    requires |bytes| == NAME_SIZE
  {
    TextOf(bytes[..NAME_SIZE - 1])
  }

  lemma {:induction false} TextInverts(s: string, bytes: seq<byte>)
    requires IsCString(s) && |s| <= |bytes| && (|s| < |bytes| ==> bytes[|s|] == 0)
    requires forall i :: 0 <= i < |s| ==> bytes[i] as int == s[i] as int
    ensures TextOf(bytes) == s
  {
    if s != "" {
      TextInverts(s[1..], bytes[1..]);
    }
  }

  lemma NameInverts(s: Name)
    ensures NameOf(NameBytes(s)) == s
  {
    TextInverts(s, NameBytes(s)[..NAME_SIZE - 1]);
  }

  // ---- Directory entries ----

  /** An address at which the whole table fits below 2^63. */
  type Address = x: int | 0 < x <= 0x8000_0000_0000_0000 - TABLE_SIZE * FCB_SIZE witness 1

  /** Where `inodes` lies: some address, the same in every process. */
  const TABLE_ADDRESS: Address

  /** Pointers are written as they are in memory: 0 for NULL, and the address of a record. */
  function PtrBytes(p: Ptr): (bytes: seq<byte>)
    ensures |bytes| == 8
  {
    LittleEndian(8, if p == Null then 0 else TABLE_ADDRESS + p.index * FCB_SIZE)
  }

  /** An address at which no record lies is read as an index outside the table. */
  function PtrOf(bytes: seq<byte>): Ptr
    requires |bytes| == 8
  {
    var v := Signed(bytes);
    if v == 0 then Null
    else if v >= TABLE_ADDRESS && (v - TABLE_ADDRESS) % FCB_SIZE == 0 then At((v - TABLE_ADDRESS) / FCB_SIZE)
    else At(TABLE_SIZE)
  }

  lemma PtrInverts(p: Ptr)
    requires p.At? ==> p.index < TABLE_SIZE
    ensures PtrOf(PtrBytes(p)) == p
  {
    Halves();
    SignedInverts(8, if p == Null then 0 else TABLE_ADDRESS + p.index * FCB_SIZE);
  }

  /** What the eight bytes of a directory slot mean. */
  lemma PtrLayout(bytes: seq<byte>)
    requires |bytes| == 8
    ensures PtrOf(bytes) == Null <==> bytes == [0, 0, 0, 0, 0, 0, 0, 0]
    ensures forall k: nat :: k < TABLE_SIZE ==>
              (PtrOf(bytes) == At(k) <==> bytes == LittleEndian(8, TABLE_ADDRESS + k * FCB_SIZE))
  {
    UnsignedInverts(bytes);
    ZeroPointer();
    forall k: nat | k < TABLE_SIZE
      ensures PtrOf(bytes) == At(k) <==> bytes == LittleEndian(8, TABLE_ADDRESS + k * FCB_SIZE)
    {
      Halves();
      SignedInverts(8, TABLE_ADDRESS + k * FCB_SIZE);
    }
  }

  lemma ZeroPointer()
    ensures LittleEndian(8, 0) == [0, 0, 0, 0, 0, 0, 0, 0] && Signed([0, 0, 0, 0, 0, 0, 0, 0]) == 0
  {
    Halves();
    SignedInverts(8, 0);
    forall k: nat | k < 8 ensures LittleEndian(8, 0)[k] == 0 {
      LittleEndianDigits(8, 0, k);
    }
  }

  function SlotsBytes(dc: seq<Ptr>): (bytes: seq<byte>)
    ensures |bytes| == 8 * |dc|
  {
    if dc == [] then [] else PtrBytes(dc[0]) + SlotsBytes(dc[1..])
  }

  function SlotsOf(bytes: seq<byte>): (dc: seq<Ptr>)
    requires |bytes| % 8 == 0
    ensures 8 * |dc| == |bytes|
  {
    if bytes == [] then [] else [PtrOf(bytes[..8])] + SlotsOf(bytes[8..])
  }

  /** Entries that are inode numbers of the table. */
  predicate InTable(dc: seq<Ptr>) {
    forall j :: 0 <= j < |dc| && dc[j] != Null ==> dc[j].index < TABLE_SIZE
  }

  lemma {:induction false} SlotsInvert(dc: seq<Ptr>)
    requires InTable(dc)
    ensures SlotsOf(SlotsBytes(dc)) == dc
  {
    if dc != [] {
      PtrInverts(dc[0]);
      SlotsInvert(dc[1..]);
      Split(PtrBytes(dc[0]), SlotsBytes(dc[1..]));
      assert dc == [dc[0]] + dc[1..];
    }
  }

  lemma SliceOfSlice(bytes: seq<byte>, lo: nat, hi: nat, a: nat, b: nat)
    requires lo <= hi <= |bytes| && a <= b <= hi - lo
    ensures bytes[lo..hi][a..b] == bytes[lo + a..lo + b]
  {
    var inner, outer := bytes[lo..hi][a..b], bytes[lo + a..lo + b];
    forall k | 0 <= k < b - a ensures inner[k] == outer[k] {
      assert inner[k] == bytes[lo..hi][a + k] == bytes[lo + (a + k)];
      assert outer[k] == bytes[lo + a + k];
    }
  }

  /** The slots lie one after the other, eight bytes each. */
  lemma {:induction false} SlotsLayout(dc: seq<Ptr>, j: nat)
    requires j < |dc|
    ensures SlotsBytes(dc)[8 * j..8 * j + 8] == PtrBytes(dc[j])
  {
    hide PtrBytes;
    var rest := SlotsBytes(dc[1..]);
    assert SlotsBytes(dc) == PtrBytes(dc[0]) + rest;
    if j > 0 {
      SlotsLayout(dc[1..], j - 1);
      Split(PtrBytes(dc[0]), rest);
      SliceOfSlice(SlotsBytes(dc), 8, |SlotsBytes(dc)|, 8 * (j - 1), 8 * (j - 1) + 8);
    } else {
      Split(PtrBytes(dc[0]), rest);
      assert SlotsBytes(dc)[8 * j..8 * j + 8] == SlotsBytes(dc)[..8];
    }
  }

  lemma {:induction false} SlotsOfLayout(bytes: seq<byte>, j: nat)
    requires |bytes| % 8 == 0 && 8 * j < |bytes|
    ensures SlotsOf(bytes)[j] == PtrOf(bytes[8 * j..8 * j + 8])
  {
    hide PtrOf;
    var rest := SlotsOf(bytes[8..]);
    assert SlotsOf(bytes) == [PtrOf(bytes[..8])] + rest;
    if j > 0 {
      SlotsOfLayout(bytes[8..], j - 1);
      SliceOfSlice(bytes, 8, |bytes|, 8 * (j - 1), 8 * (j - 1) + 8);
      assert bytes[8..|bytes|] == bytes[8..];
      assert SlotsOf(bytes)[j] == rest[j - 1];
    } else {
      assert bytes[8 * j..8 * j + 8] == bytes[..8];
    }
  }

  // ---- Records ----

  lemma Split(a: seq<byte>, rest: seq<byte>)
    ensures (a + rest)[..|a|] == a && (a + rest)[|a|..] == rest
  {}

  /** The head of a record: everything before `mode`. */
  function HeadBytes(f: Fcb): (bytes: seq<byte>)
    ensures |bytes| == 526
  {
    NameBytes(f.fileName) + (LittleEndian(8, f.fileSize) + (LittleEndian(2, f.numBlocks) +
    (LittleEndian(2, f.inumber) + (LittleEndian(2, f.parentInumber) + NameBytes(f.parentDir)))))
  }

  function TailBytes(f: Fcb): (bytes: seq<byte>)
    ensures |bytes| == 314
  {
    LittleEndian(2, f.mode) + (LittleEndian(2, f.uid) + (f.blocks + ([0, 0] +
    (LittleEndian(8, f.time) + SlotsBytes(f.dirContents)))))
  }

  function FcbBytes(f: Fcb): (bytes: seq<byte>)
    ensures |bytes| == FCB_SIZE
  {
    HeadBytes(f) + TailBytes(f)
  }

  function FcbOf(bytes: seq<byte>): Fcb
    requires |bytes| == FCB_SIZE
  {
    Fcb(NameOf(bytes[..256]),
        LongOf(bytes[256..264]),
        ShortOf(bytes[264..266]),
        ShortOf(bytes[266..268]),
        ShortOf(bytes[268..270]),
        NameOf(bytes[270..526]),
        ShortOf(bytes[526..528]),
        ShortOf(bytes[528..530]),
        bytes[530..590],
        LongOf(bytes[592..600]),
        SlotsOf(bytes[600..840]))
  }

  lemma HeadFields(f: Fcb, rest: seq<byte>)
    ensures var bytes := HeadBytes(f) + rest;
            && bytes[..256] == NameBytes(f.fileName)
            && bytes[256..264] == LittleEndian(8, f.fileSize)
            && bytes[264..266] == LittleEndian(2, f.numBlocks)
            && bytes[266..268] == LittleEndian(2, f.inumber)
            && bytes[268..270] == LittleEndian(2, f.parentInumber)
            && bytes[270..526] == NameBytes(f.parentDir)
  {}

  lemma TailFields(f: Fcb, head: seq<byte>)
    requires |head| == 526
    ensures var bytes := head + TailBytes(f);
            && bytes[526..528] == LittleEndian(2, f.mode)
            && bytes[528..530] == LittleEndian(2, f.uid)
            && bytes[530..590] == f.blocks && bytes[590..592] == [0, 0]
            && bytes[592..600] == LittleEndian(8, f.time)
            && bytes[600..840] == SlotsBytes(f.dirContents)
  {
    var bytes := head + TailBytes(f);
    assert bytes[590..592][0] == 0 && bytes[590..592][1] == 0;
  }

  /** Where each field of a record lies in its bytes. */
  lemma FcbLayout(f: Fcb)
    ensures var bytes := FcbBytes(f);
            && bytes[..256] == NameBytes(f.fileName)
            && bytes[256..264] == LittleEndian(8, f.fileSize)
            && bytes[264..266] == LittleEndian(2, f.numBlocks)
            && bytes[266..268] == LittleEndian(2, f.inumber)
            && bytes[268..270] == LittleEndian(2, f.parentInumber)
            && bytes[270..526] == NameBytes(f.parentDir)
            && bytes[526..528] == LittleEndian(2, f.mode)
            && bytes[528..530] == LittleEndian(2, f.uid)
            && bytes[530..590] == f.blocks && bytes[590..592] == [0, 0]
            && bytes[592..600] == LittleEndian(8, f.time)
            && bytes[600..840] == SlotsBytes(f.dirContents)
  {
    HeadFields(f, TailBytes(f));
    TailFields(f, HeadBytes(f));
    hide HeadBytes, TailBytes;
  }

  /** Slot j of a record: NULL or the address of a record. */
  lemma FcbSlotLayout(f: Fcb, j: nat)
    requires j < MAX_FILES_IN_DIR
    ensures FcbBytes(f)[600 + 8 * j..608 + 8 * j]
            == LittleEndian(8, if f.dirContents[j] == Null then 0 else TABLE_ADDRESS + f.dirContents[j].index * 840)
  {
    FcbLayout(f);
    SlotsLayout(f.dirContents, j);
    SliceOfSlice(FcbBytes(f), 600, 840, 8 * j, 8 * j + 8);
    hide FcbBytes;
  }

  /** What a load makes of any 840 bytes, field by field. */
  lemma FcbOfLayout(bytes: seq<byte>)
    requires |bytes| == 840
    ensures var f := FcbOf(bytes);
            && IsTextOf(f.fileName, bytes[..255]) && IsTextOf(f.parentDir, bytes[270..525])
            && LittleEndian(8, f.fileSize) == bytes[256..264]
            && LittleEndian(2, f.numBlocks) == bytes[264..266]
            && LittleEndian(2, f.inumber) == bytes[266..268]
            && LittleEndian(2, f.parentInumber) == bytes[268..270]
            && LittleEndian(2, f.mode) == bytes[526..528]
            && LittleEndian(2, f.uid) == bytes[528..530]
            && f.blocks == bytes[530..590]
            && LittleEndian(8, f.time) == bytes[592..600]
  {
    hide Signed, LittleEndian, IsTextOf, SlotsOf;
    TextIsText(bytes[..256][..255]);
    TextIsText(bytes[270..526][..255]);
    SliceOfSlice(bytes, 0, 256, 0, 255);
    SliceOfSlice(bytes, 270, 526, 0, 255);
    UnsignedInverts(bytes[256..264]);
    UnsignedInverts(bytes[264..266]);
    UnsignedInverts(bytes[266..268]);
    UnsignedInverts(bytes[268..270]);
    UnsignedInverts(bytes[526..528]);
    UnsignedInverts(bytes[528..530]);
    UnsignedInverts(bytes[592..600]);
  }

  lemma FcbOfSlotLayout(bytes: seq<byte>, j: nat)
    requires |bytes| == 840 && j < MAX_FILES_IN_DIR
    ensures FcbOf(bytes).dirContents[j] == PtrOf(bytes[600 + 8 * j..608 + 8 * j])
  {
    SlotsOfLayout(bytes[600..840], j);
    SliceOfSlice(bytes, 600, 840, 8 * j, 8 * j + 8);
    hide SlotsOf, PtrOf, Signed;
  }

  /** Reading back a written inode record gives the record. */
  lemma FcbInverts(f: Fcb)
    requires InTable(f.dirContents)
    ensures FcbOf(FcbBytes(f)) == f
  {
    HeadFields(f, TailBytes(f));
    TailFields(f, HeadBytes(f));
    NameInverts(f.fileName);
    LongInverts(f.fileSize);
    ShortInverts(f.numBlocks);
    ShortInverts(f.inumber);
    ShortInverts(f.parentInumber);
    NameInverts(f.parentDir);
    ShortInverts(f.mode);
    ShortInverts(f.uid);
    LongInverts(f.time);
    SlotsInvert(f.dirContents);
  }

  function SuperblockBytes(sb: Superblock): (bytes: seq<byte>)
    ensures |bytes| == SUPERBLOCK_SIZE
  {
    LittleEndian(4, sb.magicNum) + (LittleEndian(4, sb.numInodes) + (LittleEndian(4, sb.numDataBlocks) +
    (LittleEndian(4, sb.inodeStartIndex) + (LittleEndian(4, sb.datablockStartIndex) +
    (LittleEndian(4, sb.numInodesPerBlock) + (sb.ibmap + (sb.dbmap + [0, 0])))))))
  }

  function SuperblockOf(bytes: seq<byte>): Superblock
    requires |bytes| == SUPERBLOCK_SIZE
  {
    Superblock(CintOf(bytes[..4]), CintOf(bytes[4..8]), CintOf(bytes[8..12]), CintOf(bytes[12..16]),
               CintOf(bytes[16..20]), CintOf(bytes[20..24]), bytes[24..5883], bytes[5883..11742])
  }

  /** Where each field of the superblock lies in its bytes. */
  lemma SuperblockFields(sb: Superblock)
    ensures var bytes := SuperblockBytes(sb);
            && bytes[..4] == LittleEndian(4, sb.magicNum)
            && bytes[4..8] == LittleEndian(4, sb.numInodes)
            && bytes[8..12] == LittleEndian(4, sb.numDataBlocks)
            && bytes[12..16] == LittleEndian(4, sb.inodeStartIndex)
            && bytes[16..20] == LittleEndian(4, sb.datablockStartIndex)
            && bytes[20..24] == LittleEndian(4, sb.numInodesPerBlock)
            && bytes[24..5883] == sb.ibmap
            && bytes[5883..11742] == sb.dbmap && bytes[11742..11744] == [0, 0]
  {}

  /** What a load makes of any 11744 bytes: all but the two bytes of padding are kept. */
  lemma SuperblockOfLayout(bytes: seq<byte>)
    requires |bytes| == 11744
    ensures var sb := SuperblockOf(bytes);
            && LittleEndian(4, sb.magicNum) == bytes[..4]
            && LittleEndian(4, sb.numInodes) == bytes[4..8]
            && LittleEndian(4, sb.numDataBlocks) == bytes[8..12]
            && LittleEndian(4, sb.inodeStartIndex) == bytes[12..16]
            && LittleEndian(4, sb.datablockStartIndex) == bytes[16..20]
            && LittleEndian(4, sb.numInodesPerBlock) == bytes[20..24]
            && sb.ibmap == bytes[24..5883] && sb.dbmap == bytes[5883..11742]
  {
    UnsignedInverts(bytes[..4]);
    UnsignedInverts(bytes[4..8]);
    UnsignedInverts(bytes[8..12]);
    UnsignedInverts(bytes[12..16]);
    UnsignedInverts(bytes[16..20]);
    UnsignedInverts(bytes[20..24]);
  }

  /** Reading back a written superblock gives the superblock. */
  lemma SuperblockInverts(sb: Superblock)
    ensures SuperblockOf(SuperblockBytes(sb)) == sb
  {
    SuperblockFields(sb);
    CintInverts(sb.magicNum);
    CintInverts(sb.numInodes);
    CintInverts(sb.numDataBlocks);
    CintInverts(sb.inodeStartIndex);
    CintInverts(sb.datablockStartIndex);
    CintInverts(sb.numInodesPerBlock);
  }
}
