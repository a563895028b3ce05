/** The BLAKE3 tree hash as a short recursive function (BLAKE3 paper, sections 2.1, 2.4,
    2.5 and 2.6), over an arbitrary compression function. */
module Blake3Spec {
  import opened Bits
  import opened Bytes

  type word = x: int | 0 <= x < 0x1_0000_0000

  const OUT_LEN: nat := 32

  /** Lengths fit the machine's 64-bit size type. */
  const SIZE_LIMIT: nat := 0x1_0000_0000_0000_0000

  const IV: Words := [0x6A09E667, 0xBB67AE85, 0x3C6EF372, 0xA54FF53A, 0x510E527F, 0x9B05688C, 0x1F83D9AB, 0x5BE0CD19]

  const CHUNK_START: bv8 := 1
  const CHUNK_END: bv8 := 2
  const PARENT: bv8 := 4
  const ROOT: bv8 := 8
  const KEYED_HASH: bv8 := 16
  const DERIVE_KEY_CONTEXT: bv8 := 32
  const DERIVE_KEY_MATERIAL: bv8 := 64

  type Words = s: seq<word> | |s| == 8 witness seq(8, _ => 0)
  type State = s: seq<word> | |s| == 16 witness seq(16, _ => 0)
  type Block = s: seq<byte> | |s| == 64 witness seq(64, _ => 0)
  type CV = s: seq<byte> | |s| == 32 witness seq(32, _ => 0)

  type Primitive = (Words, Block, nat, nat, bv8) -> State

  /** What a hashing session fixes: the compression primitive, the key words and the mode
      flags (none for plain hashing; KEYED_HASH or one of the derive-key flags otherwise). The
      primitive is ghost: code gets at it only through a Compressor, which keeps a log. */
  datatype Mode = Mode(ghost compress: Primitive, key: Words, flags: bv8)

  /** store32 on every word: four little-endian bytes each. */
  function StoreWords(ws: seq<word>): (r: seq<byte>)
    ensures |r| == 4 * |ws|
  {
    if ws == [] then []
    else
      var w := ws[0];
      [w % 256, w / 0x100 % 256, w / 0x1_0000 % 256, w / 0x100_0000] + StoreWords(ws[1..])
  }

  /** load32 on every four bytes. */
  function LoadWords(bytes: seq<byte>): (r: seq<word>)
    requires |bytes| % 4 == 0
    ensures |r| == |bytes| / 4
  {
    if bytes == [] then []
    else
      [bytes[0] as int + 0x100 * bytes[1] as int + 0x1_0000 * bytes[2] as int + 0x100_0000 * bytes[3] as int]
      + LoadWords(bytes[4..])
  }

  lemma {:induction false} LoadStored(ws: seq<word>)
    ensures LoadWords(StoreWords(ws)) == ws
  {
    if ws != [] {
      var bytes := StoreWords(ws);
      LoadStored(ws[1..]);
      assert bytes[4..] == StoreWords(ws[1..]);
      var w := ws[0];
      FourBytes(w, w % 256, w / 0x100 % 256, w / 0x1_0000 % 256, w / 0x100_0000);
    }
  }

  lemma {:induction false} StoreLoaded(bytes: seq<byte>)
    requires |bytes| % 4 == 0
    ensures StoreWords(LoadWords(bytes)) == bytes
  {
    hide *;
    if bytes == [] {
      NoWords();
    } else {
      var word0 := bytes[0] as int + 0x100 * bytes[1] as int + 0x1_0000 * bytes[2] as int + 0x100_0000 * bytes[3] as int;
      StoreLoaded(bytes[4..]);
      LoadUnfold(bytes, word0);
      StoreUnfold(word0, LoadWords(bytes[4..]), bytes[0], bytes[1], bytes[2], bytes[3]);
      FourAndRest(bytes);
    }
  }

  lemma NoWords()
    ensures StoreWords(LoadWords([])) == []
  {
  }

  lemma LoadUnfold(bytes: seq<byte>, w: word)
    requires |bytes| % 4 == 0 && bytes != []
    requires w == bytes[0] as int + 0x100 * bytes[1] as int + 0x1_0000 * bytes[2] as int + 0x100_0000 * bytes[3] as int
    ensures LoadWords(bytes) == [w] + LoadWords(bytes[4..])
  {
  }

  lemma StoreUnfold(w: word, more: seq<word>, b0: byte, b1: byte, b2: byte, b3: byte)
    requires w == b0 as int + 0x100 * b1 as int + 0x1_0000 * b2 as int + 0x100_0000 * b3 as int
    ensures StoreWords([w] + more) == [b0, b1, b2, b3] + StoreWords(more)
  {
    hide *;
    FourDigits(w, b0, b1, b2, b3);
    StoreCons(w, more);
  }

  lemma FourAndRest(bytes: seq<byte>)
    requires |bytes| >= 4
    ensures [bytes[0], bytes[1], bytes[2], bytes[3]] + bytes[4..] == bytes
  {
  }

  lemma StoreCons(w: word, more: seq<word>)
    ensures StoreWords([w] + more) == [w % 256, w / 0x100 % 256, w / 0x1_0000 % 256, w / 0x100_0000] + StoreWords(more)
  {
    assert ([w] + more)[1..] == more;
  }

  lemma {:induction false} StorePrefix(ws: seq<word>, k: nat)
    requires k <= |ws|
    ensures StoreWords(ws)[..4 * k] == StoreWords(ws[..k])
  {
    if k != 0 {
      StorePrefix(ws[1..], k - 1);
      assert ws[..k][1..] == ws[1..][..k - 1];
      assert StoreWords(ws)[..4 * k] == StoreWords(ws)[..4] + StoreWords(ws[1..])[..4 * (k - 1)];
    }
  }

  /** blake3_compress_in_place: the new chaining value words. */
  ghost function CompressInPlace(m: Mode, cv: Words, block: Block, blockLen: nat, counter: nat, flags: bv8): Words {
    m.compress(cv, block, blockLen, counter, flags)[..8]
  }

  /** blake3_compress_xof: all 64 output bytes. */
  ghost function CompressXof(m: Mode, cv: Words, block: Block, blockLen: nat, counter: nat, flags: bv8): Block {
    StoreWords(m.compress(cv, block, blockLen, counter, flags))
  }

  /** A node ready to be compressed, either to a chaining value or to root bytes. */
  datatype Output = Output(inputCv: Words, block: Block, blockLen: nat, counter: nat, flags: bv8)

  ghost function ChainingValue(m: Mode, o: Output): CV {
    StoreWords(CompressInPlace(m, o.inputCv, o.block, o.blockLen, o.counter, o.flags))
  }

  function ParentBlock(left: CV, right: CV): Block {
    left + right
  }

  function ParentOutput(m: Mode, left: CV, right: CV): Output {
    Output(m.key, ParentBlock(left, right), 64, 0, m.flags | PARENT)
  }

  ghost function ParentCv(m: Mode, left: CV, right: CV): CV {
    ChainingValue(m, ParentOutput(m, left, right))
  }

  // ---------- Chunks ----------

  function Zeros(n: nat): (r: seq<byte>)
    ensures |r| == n
  {
    seq(n, _ => 0)
  }

  function Pad(bytes: seq<byte>): Block
    requires |bytes| <= 64
  {
    bytes + Zeros(64 - |bytes|)
  }

  function FlagIf(on: bool, flag: bv8): bv8 {
    if on then flag else 0
  }

  /** Chaining value after a run of full blocks, none of them the last; the first one
      carries the start flag. */
  ghost function BlocksCv(m: Mode, flags: bv8, start: bv8, blocks: seq<byte>, counter: nat): Words
    requires |blocks| % 64 == 0
    decreases |blocks|
  {
    if blocks == [] then m.key
    else
      var n := |blocks| - 64;
      CompressInPlace(m, BlocksCv(m, flags, start, blocks[..n], counter), blocks[n..], 64, counter,
                      flags | FlagIf(n == 0, start))
  }

  /** Number of bytes of a chunk that come before its last block. */
  function BeforeLastBlock(len: nat): (r: nat)
    ensures r % 64 == 0 && r <= len <= r + 64
    ensures 0 < len ==> r < len
  {
    if len == 0 then 0 else (len - 1) / 64 * 64
  }

  ghost function ChunkOutput(m: Mode, chunk: seq<byte>, counter: nat): Output {
    var n := BeforeLastBlock(|chunk|);
    Output(BlocksCv(m, m.flags, CHUNK_START, chunk[..n], counter), Pad(chunk[n..]), |chunk| - n, counter,
           m.flags | FlagIf(n == 0, CHUNK_START) | CHUNK_END)
  }

  // ---------- The tree ----------

  /** Bytes of the left subtree: the largest power of two that leaves at least one byte for
      the right subtree. Above one chunk this is a power-of-two number of whole chunks. */
  ghost function LeftLen(len: nat): (r: nat)
    requires len > 1024
    ensures 0 < r < len
  {
    Pow2Floor(len - 1)
  }

  /** The node over an input that starts at byte offset at of the whole message. */
  ghost function NodeOutput(m: Mode, input: seq<byte>, at: nat): Output
    decreases |input|, 0
  {
    if |input| <= 1024 then ChunkOutput(m, input, at / 1024)
    else
      var l := LeftLen(|input|);
      ParentOutput(m, SubtreeCv(m, input[..l], at), SubtreeCv(m, input[l..], at + l))
  }

  ghost function SubtreeCv(m: Mode, input: seq<byte>, at: nat): CV
    decreases |input|, 1
  {
    ChainingValue(m, NodeOutput(m, input, at))
  }

  lemma ChunkNode(m: Mode, chunk: seq<byte>, at: nat)
    requires |chunk| <= 1024
    ensures NodeOutput(m, chunk, at) == ChunkOutput(m, chunk, at / 1024)
  {
  }

  // ---------- Extendable output ----------

  /** Byte i of the unbounded output stream of a root node. */
  ghost function RootByte(m: Mode, o: Output, i: nat): byte {
    CompressXof(m, o.inputCv, o.block, o.blockLen, i / 64, o.flags | ROOT)[i % 64]
  }

  ghost function RootBytes(m: Mode, o: Output, seek: nat, len: nat): seq<byte> {
    seq<byte>(len, i requires 0 <= i => RootByte(m, o, seek + i))
  }

  /** The hash: bytes seek .. seek + len of the root's output stream. */
  ghost function Hash(m: Mode, input: seq<byte>, seek: nat, len: nat): seq<byte> {
    RootBytes(m, NodeOutput(m, input, 0), seek, len)
  }
}
