/** The tree hash written out: equations between bytes, with the compression primitive and plain
    numbers only, that leave no choice in what Blake3Spec computes (BLAKE3 paper, sections 2.1 to
    2.6). */
module Blake3Equations {
  import opened Bits
  import opened Bytes
  import opened Blake3Spec
  import opened Blake3Forest

  // ---------- Words and bytes ----------

  /** A word is stored least significant byte first. */
  lemma {:induction false} StoredByte(ws: seq<word>, i: nat)
    requires i < |ws|
    ensures StoreWords(ws)[4 * i..4 * i + 4]
         == [ws[i] % 256, ws[i] / 0x100 % 256, ws[i] / 0x1_0000 % 256, ws[i] / 0x100_0000]
    decreases i
  {
    hide *;
    assert ws == [ws[0]] + ws[1..];
    StoreCons(ws[0], ws[1..]);
    if i > 0 {
      StoredByte(ws[1..], i - 1);
      var head := [ws[0] % 256, ws[0] / 0x100 % 256, ws[0] / 0x1_0000 % 256, ws[0] / 0x100_0000];
      assert (head + StoreWords(ws[1..]))[4 * i..4 * i + 4] == StoreWords(ws[1..])[4 * (i - 1)..4 * (i - 1) + 4];
    }
  }

  /** And loaded the same way. */
  lemma {:induction false} LoadedWord(bytes: seq<byte>, i: nat)
    requires |bytes| % 4 == 0 && 4 * i < |bytes|
    ensures LoadWords(bytes)[i] as int
         == bytes[4 * i] as int + 0x100 * bytes[4 * i + 1] as int
            + 0x1_0000 * bytes[4 * i + 2] as int + 0x100_0000 * bytes[4 * i + 3] as int
    decreases i
  {
    if i > 0 {
      LoadedWord(bytes[4..], i - 1);
    }
  }

  // ---------- Inside the tree ----------

  /** The compression of a chunk's blocks, one after the other: each takes the chunk's number,
      the first the start flag, and none of these the end flag. */
  lemma ChunkBlocks(m: Mode, blocks: seq<byte>, block: Block, counter: nat)
    requires |blocks| % 64 == 0
    ensures BlocksCv(m, m.flags, CHUNK_START, [], counter) == m.key
    ensures BlocksCv(m, m.flags, CHUNK_START, blocks + block, counter)
         == m.compress(BlocksCv(m, m.flags, CHUNK_START, blocks, counter), block, 64, counter,
                       m.flags | (if blocks == [] then 1 else 0))[..8]
  {
  }

  /** The last block of a chunk, padded with zeros, counted by its length, with the end flag. */
  lemma ChunkCv(m: Mode, blocks: seq<byte>, last: seq<byte>, at: nat)
    requires |blocks| % 64 == 0 && |blocks| + |last| <= 1024
    requires |last| <= 64 && (last == [] ==> blocks == [])
    ensures SubtreeCv(m, blocks + last, at) == StoreWords(
      m.compress(BlocksCv(m, m.flags, CHUNK_START, blocks, at / 1024), last + seq(64 - |last|, _ => 0), |last|, at / 1024,
                 m.flags | (if blocks == [] then 1 else 0) | 2)[..8])
  {
    hide BlocksCv, StoreWords;
    ChunkNodeParts(m, blocks, last, at);
  }

  lemma ChunkNodeParts(m: Mode, blocks: seq<byte>, last: seq<byte>, at: nat)
    requires |blocks| % 64 == 0 && |blocks| + |last| <= 1024
    requires |last| <= 64 && (last == [] ==> blocks == [])
    ensures NodeOutput(m, blocks + last, at)
         == Output(BlocksCv(m, m.flags, CHUNK_START, blocks, at / 1024), last + seq(64 - |last|, _ => 0), |last|,
                   at / 1024, m.flags | (if blocks == [] then 1 else 0) | 2)
  {
    hide BlocksCv, NodeOutput;
    var chunk := blocks + last;
    ChunkNode(m, chunk, at);
    assert BeforeLastBlock(|chunk|) == |blocks|;
    assert chunk[..|blocks|] == blocks && chunk[|blocks|..] == last;
  }

  /** A parent: the left chaining value and then the right one, under the key words, as 64 bytes,
      number zero, with the parent flag. The left part is a power of two of chunks, the right one
      not empty and no longer. */
  lemma ParentNode(m: Mode, left: seq<byte>, right: seq<byte>, at: nat)
    requires IsPow2(|left|) && 1024 <= |left| && 0 < |right| <= |left|
    ensures SubtreeCv(m, left + right, at) == StoreWords(
      m.compress(m.key, SubtreeCv(m, left, at) + SubtreeCv(m, right, at + |left|), 64, 0, m.flags | 4)[..8])
  {
    hide SubtreeCv, StoreWords;
    ParentNodeParts(m, left, right, at);
    CvOfNode(m, left + right, at);
  }

  lemma ParentNodeParts(m: Mode, left: seq<byte>, right: seq<byte>, at: nat)
    requires IsPow2(|left|) && 1024 <= |left| && 0 < |right| <= |left|
    ensures NodeOutput(m, left + right, at)
         == Output(m.key, SubtreeCv(m, left, at) + SubtreeCv(m, right, at + |left|), 64, 0, m.flags | 4)
  {
    hide SubtreeCv, NodeOutput;
    Pow2FloorUnique(|left + right| - 1, |left|);
    NodeUnfold(m, left + right, left, right, at);
  }

  /** Every message of more than a chunk is split that way, and only one way. */
  lemma Split(n: nat) returns (l: nat)
    requires n > 1024
    ensures IsPow2(l) && 1024 <= l < n <= 2 * l
    ensures forall k: nat :: IsPow2(k) && k < n <= 2 * k ==> k == l
  {
    l := Pow2Floor(n - 1);
    assert IsPow2(1024);
    hide *;
    if l < 1024 {
      Pow2Doubles(l, 1024);
    }
    forall k: nat | IsPow2(k) && k < n <= 2 * k
      ensures k == l
    {
      Pow2FloorUnique(n - 1, k);
    }
  }

  // ---------- The root ----------

  lemma StreamByte(m: Mode, o: Output, j: nat)
    ensures RootByte(m, o, j) == StoreWords(m.compress(o.inputCv, o.block, o.blockLen, j / 64, o.flags | 8))[j % 64]
  {
    hide StoreWords;
  }

  lemma HashByte(m: Mode, s: seq<byte>, seek: nat, len: nat, i: nat)
    requires i < len
    ensures |Hash(m, s, seek, len)| == len && Hash(m, s, seek, len)[i] == RootByte(m, NodeOutput(m, s, 0), seek + i)
  {
    hide NodeOutput, RootByte;
  }

  lemma RootStream(m: Mode, s: seq<byte>, seek: nat, len: nat, i: nat)
    requires i < len
    ensures var o := NodeOutput(m, s, 0);
      |Hash(m, s, seek, len)| == len
      && Hash(m, s, seek, len)[i]
      == StoreWords(m.compress(o.inputCv, o.block, o.blockLen, (seek + i) / 64, o.flags | 8))[(seek + i) % 64]
  {
    hide *;
    HashByte(m, s, seek, len, i);
    StreamByte(m, NodeOutput(m, s, 0), seek + i);
  }

  /** The output for more than a chunk, byte by byte: both halves' chaining values, left before
      right, under the parent and root flags, numbered by the block of output. */
  lemma RootOfTree(m: Mode, left: seq<byte>, right: seq<byte>, seek: nat, len: nat, i: nat)
    requires IsPow2(|left|) && 1024 <= |left| && 0 < |right| <= |left| && i < len
    ensures |Hash(m, left + right, seek, len)| == len
    ensures Hash(m, left + right, seek, len)[i] == StoreWords(
      m.compress(m.key, SubtreeCv(m, left, 0) + SubtreeCv(m, right, |left|), 64, (seek + i) / 64, m.flags | 4 | 8))[(seek + i) % 64]
  {
    hide SubtreeCv, StoreWords, NodeOutput, Hash;
    RootStream(m, left + right, seek, len, i);
    ParentNodeParts(m, left, right, 0);
  }

  /** The output for a single chunk. */
  lemma RootOfChunk(m: Mode, blocks: seq<byte>, last: seq<byte>, seek: nat, len: nat, i: nat)
    requires |blocks| % 64 == 0 && |blocks| + |last| <= 1024
    requires |last| <= 64 && (last == [] ==> blocks == []) && i < len
    ensures |Hash(m, blocks + last, seek, len)| == len
    ensures Hash(m, blocks + last, seek, len)[i] == StoreWords(
      m.compress(BlocksCv(m, m.flags, CHUNK_START, blocks, 0), last + seq(64 - |last|, _ => 0), |last|, (seek + i) / 64,
                 m.flags | (if blocks == [] then 1 else 0) | 2 | 8))[(seek + i) % 64]
  {
    hide BlocksCv, StoreWords, NodeOutput, Hash;
    RootStream(m, blocks + last, seek, len, i);
    ChunkNodeParts(m, blocks, last, 0);
  }

  lemma RootOfTreeByte(m: Mode, left: seq<byte>, right: seq<byte>, i: nat)
    requires IsPow2(|left|) && 1024 <= |left| && 0 < |right| <= |left| && i < 32
    ensures |Hash(m, left + right, 0, 32)| == 32
    ensures Hash(m, left + right, 0, 32)[i] == StoreWords(
      m.compress(m.key, SubtreeCv(m, left, 0) + SubtreeCv(m, right, |left|), 64, 0, m.flags | 4 | 8))[i]
  {
    hide *;
    RootOfTree(m, left, right, 0, 32, i);
    assert (0 + i) / 64 == 0 && (0 + i) % 64 == i;
  }

  /** The usual 32 bytes of a message of more than a chunk: one compression of two chaining
      values. */
  lemma ThirtyTwoBytes(m: Mode, left: seq<byte>, right: seq<byte>)
    requires IsPow2(|left|) && 1024 <= |left| && 0 < |right| <= |left|
    ensures Hash(m, left + right, 0, 32) == StoreWords(
      m.compress(m.key, SubtreeCv(m, left, 0) + SubtreeCv(m, right, |left|), 64, 0, m.flags | 4 | 8))[..32]
  {
    var block := SubtreeCv(m, left, 0) + SubtreeCv(m, right, |left|);
    var w := StoreWords(m.compress(m.key, block, 64, 0, m.flags | 4 | 8));
    hide *;
    var h := Hash(m, left + right, 0, 32);
    RootOfTreeByte(m, left, right, 0);
    forall i | 0 <= i < 32
      ensures h[i] == w[i]
    {
      RootOfTreeByte(m, left, right, i);
    }
  }

  lemma OneBlockByte(m: Mode, s: seq<byte>, len: nat, i: nat)
    requires 0 < |s| <= 64 && i < 32 <= len
    ensures |Hash(m, s, 0, len)| == len
    ensures Hash(m, s, 0, len)[i]
         == StoreWords(m.compress(m.key, s + seq(64 - |s|, _ => 0), |s|, 0, m.flags | 1 | 2 | 8))[i]
  {
    hide Hash, StoreWords, BlocksCv;
    assert [] + s == s;
    RootOfChunk(m, [], s, 0, len, i);
    NoBlocks(m);
  }

  lemma NoBlocks(m: Mode)
    ensures BlocksCv(m, m.flags, CHUNK_START, [], 0) == m.key
  {
  }

  /** A message of one block: one compression under the key words. */
  lemma OneBlock(m: Mode, s: seq<byte>, len: nat)
    requires 0 < |s| <= 64 && len >= 32
    ensures |Hash(m, s, 0, len)| == len
    ensures Hash(m, s, 0, len)[..32]
         == StoreWords(m.compress(m.key, s + seq(64 - |s|, _ => 0), |s|, 0, m.flags | 1 | 2 | 8))[..32]
  {
    var w := StoreWords(m.compress(m.key, s + seq(64 - |s|, _ => 0), |s|, 0, m.flags | 1 | 2 | 8));
    hide *;
    var h := Hash(m, s, 0, len);
    OneBlockByte(m, s, len, 0);
    forall i | 0 <= i < 32
      ensures h[i] == w[i]
    {
      OneBlockByte(m, s, len, i);
    }
  }
}
