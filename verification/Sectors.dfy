/** Disk sectors and what is stored in them (src/devices/block.h, the on-disk inode of
    src/filesys/inode.c): 512 bytes, read either as raw data or as 128 little-endian
    32-bit words. */
module Sectors {
  import opened MachineIntegers

  const SECTOR_SIZE: nat := 512
  const PTRS_PER_SECTOR: nat := 128
  const DIRECT_BLOCKS: nat := 123

  type Sector = s: seq<byte> | |s| == SECTOR_SIZE witness seq(SECTOR_SIZE, _ => 0)
  type Words = ws: seq<u32> | |ws| == PTRS_PER_SECTOR witness seq(PTRS_PER_SECTOR, _ => 0)

  function Zeros(): (s: Sector)
    ensures forall i :: 0 <= i < SECTOR_SIZE ==> s[i] == 0
  {
    seq(SECTOR_SIZE, _ => 0)
  }

  // ----- words -----------------------------------------------------------------

  function WordOf(b0: byte, b1: byte, b2: byte, b3: byte): u32 {
    b0 + 0x100 * (b1 + 0x100 * (b2 + 0x100 * b3))
  }

  function ByteOf(w: u32, j: nat): byte
    requires j < 4
  {
    if j == 0 then w % 0x100
    else if j == 1 then w / 0x100 % 0x100
    else if j == 2 then w / 0x100 / 0x100 % 0x100
    else w / 0x100 / 0x100 / 0x100
  }

  function Unpack(s: Sector): Words {
    seq(PTRS_PER_SECTOR, k requires 0 <= k < PTRS_PER_SECTOR =>
      WordOf(s[4 * k], s[4 * k + 1], s[4 * k + 2], s[4 * k + 3]))
  }

  function Pack(ws: Words): Sector {
    seq(SECTOR_SIZE, i requires 0 <= i < SECTOR_SIZE => ByteOf(ws[i / 4], i % 4))
  }

  lemma WordRoundTrip(w: u32)
    ensures WordOf(ByteOf(w, 0), ByteOf(w, 1), ByteOf(w, 2), ByteOf(w, 3)) == w
  {
  }

  /** Words written to a sector are the words read back. */
  lemma PackedWords(ws: Words)
    ensures Unpack(Pack(ws)) == ws
  {
    forall k | 0 <= k < PTRS_PER_SECTOR
      ensures Unpack(Pack(ws))[k] == ws[k]
    {
      WordRoundTrip(ws[k]);
      assert (4 * k) / 4 == (4 * k + 1) / 4 == (4 * k + 2) / 4 == (4 * k + 3) / 4 == k;
    }
  }

  // ----- inodes ----------------------------------------------------------------

  datatype InodeData = InodeData(length: u32, magic: u32, direct: seq<u32>,
                                 indirect: u32, doublyIndirect: u32, isDir: u32)

  const INODE_MAGIC: u32 := 0x494e_4f44
  const NO_POINTERS: seq<u32> := seq(DIRECT_BLOCKS, _ => 0)

  type InodeDisk = d: InodeData | |d.direct| == DIRECT_BLOCKS
    witness InodeData(0, INODE_MAGIC, NO_POINTERS, 0, 0, 0)

  function InodeWords(d: InodeDisk): Words {
    [d.length, d.magic] + d.direct + [d.indirect, d.doublyIndirect, d.isDir]
  }

  function EncodeInode(d: InodeDisk): Sector {
    Pack(InodeWords(d))
  }

  function InodeOfWords(ws: Words): InodeDisk {
    InodeData(ws[0], ws[1], ws[2..125], ws[125], ws[126], ws[127])
  }

  function DecodeInode(s: Sector): InodeDisk {
    InodeOfWords(Unpack(s))
  }

  lemma InodeWordsRoundTrip(d: InodeDisk)
    ensures InodeOfWords(InodeWords(d)) == d
  {
    assert InodeWords(d)[2..125] == d.direct;
  }

  /** An inode written to its sector is the inode read back. */
  lemma InodeRoundTrip(d: InodeDisk)
    ensures DecodeInode(EncodeInode(d)) == d
  {
    PackedWords(InodeWords(d));
    InodeWordsRoundTrip(d);
  }
}
