/** Disk blocks as bytes, with little-endian words in them. */
module Blocks {
  import opened Words

  const BLOCK_SIZE: int := 1024
  const WORDS_PER_BLOCK: int := 512

  type Block = b: seq<u8> | |b| == 1024 witness seq(1024, _ => 0)

  function ZeroBlock(): Block {
    seq(1024, _ => 0)
  }

  function LittleEndian(low: u8, high: u8): u16 {
    low as int + 256 * high as int
  }

  /** The i-th 16-bit word of a block. */
  function Word(b: Block, i: nat): u16
    requires i < WORDS_PER_BLOCK
  {
    LittleEndian(b[2 * i], b[2 * i + 1])
  }

  function SetWord(b: Block, i: nat, w: u16): Block
    requires i < WORDS_PER_BLOCK
  {
    b[2 * i := w % 256][2 * i + 1 := w / 256]
  }

  /** A word write changes that word and no other. */
  lemma SetWordWord(b: Block, i: nat, w: u16, j: nat)
    requires i < WORDS_PER_BLOCK && j < WORDS_PER_BLOCK
    ensures Word(SetWord(b, i, w), j) == if j == i then w else Word(b, j)
  {
  }

  /** Little-endian encodings of 16 and 32 bits. */
  function Bytes2(w: u16): (r: seq<u8>)
    ensures |r| == 2
  {
    [w % 256, w / 256]
  }

  function Bytes4(d: u32): (r: seq<u8>)
    ensures |r| == 4
  {
    Bytes2(d % 0x1_0000) + Bytes2(d / 0x1_0000)
  }

  function FromBytes2(s: seq<u8>, at: nat): u16
    requires at + 2 <= |s|
  {
    LittleEndian(s[at], s[at + 1])
  }

  function FromBytes4(s: seq<u8>, at: nat): u32
    requires at + 4 <= |s|
  {
    FromBytes2(s, at) as int + 0x1_0000 * FromBytes2(s, at + 2) as int
  }

  /** The bytes of s with the ones from at on replaced. */
  function Overwrite(s: seq<u8>, at: nat, bytes: seq<u8>): (r: seq<u8>)
    requires at + |bytes| <= |s|
    ensures |r| == |s|
    ensures forall i | 0 <= i < |s| :: r[i] == if at <= i < at + |bytes| then bytes[i - at] else s[i]
  {
    s[..at] + bytes + s[at + |bytes|..]
  }
}
