/** The chunk state, fed block by block with the last block always held back, and the second
    way of hashing whole chunks and parent blocks (hash_one and hash_many). */
module Blake3Chunk {
  import opened Bytes
  import opened Blake3Spec
  import opened Blake3Compressor

  /** The concrete fields represent the bytes fed so far: all blocks but the last have been
      compressed into cv, the last one sits zero-padded in the buffer. */
  ghost predicate Represents(m: Mode, fed: seq<byte>, counter: nat,
                             cv: Words, blocks: nat, buf: seq<byte>, bufLen: nat)
  {
    && |buf| == 64 && bufLen <= 64 && |fed| == 64 * blocks + bufLen
    && (fed != [] ==> bufLen > 0)
    && cv == BlocksCv(m, m.flags, CHUNK_START, fed[..64 * blocks], counter)
    && buf == Pad(fed[64 * blocks..])
  }

  lemma RepresentsOutput(m: Mode, fed: seq<byte>, counter: nat,
                         cv: Words, blocks: nat, buf: seq<byte>, bufLen: nat)
    requires Represents(m, fed, counter, cv, blocks, buf, bufLen)
    ensures ChunkOutput(m, fed, counter)
         == Output(cv, buf, bufLen, counter, m.flags | FlagIf(blocks == 0, CHUNK_START) | CHUNK_END)
    ensures |fed| <= 1024 ==> blocks <= 15
  {
    hide BlocksCv, Pad, BeforeLastBlock;
    LastBlockStart(|fed|, blocks, bufLen);
  }

  lemma LastBlockStart(len: nat, blocks: nat, bufLen: nat)
    requires len == 64 * blocks + bufLen && bufLen <= 64 && (len > 0 ==> bufLen > 0)
    ensures BeforeLastBlock(len) == 64 * blocks
  {
    if len > 0 {
      assert (len - 1) / 64 == blocks;
    }
  }

  lemma BlocksCvAppend(m: Mode, flags: bv8, start: bv8, blocks: seq<byte>, block: Block, counter: nat)
    requires |blocks| % 64 == 0
    ensures BlocksCv(m, flags, start, blocks + block, counter)
         == CompressInPlace(m, BlocksCv(m, flags, start, blocks, counter), block, 64, counter,
                            flags | FlagIf(blocks == [], start))
  {
  }

  /** In the middle of an update: of all the bytes, whole blocks are compressed, held is in
      the buffer and rest is still to come. The last block is never compressed. */
  ghost predicate Feeding(m: Mode, all: seq<byte>, held: seq<byte>, rest: seq<byte>, counter: nat,
                          cv: Words, blocks: nat, buf: seq<byte>, bufLen: nat)
  {
    && |held| == bufLen <= 64 && buf == Pad(held)
    && |all| == 64 * blocks + |held + rest|
    && all[64 * blocks..] == held + rest
    && cv == BlocksCv(m, m.flags, CHUNK_START, all[..64 * blocks], counter)
    && (all != [] ==> held + rest != [])
  }

  lemma FeedingStart(m: Mode, fed: seq<byte>, input: seq<byte>, counter: nat,
                     cv: Words, blocks: nat, buf: seq<byte>, bufLen: nat)
    requires Represents(m, fed, counter, cv, blocks, buf, bufLen)
    ensures |fed| >= 64 * blocks && |buf| == 64
    ensures Feeding(m, fed + input, fed[64 * blocks..], input, counter, cv, blocks, buf, bufLen)
    ensures bufLen == 0 ==> fed[64 * blocks..] == []
  {
    hide BlocksCv, Pad;
    assert (fed + input)[..64 * blocks] == fed[..64 * blocks];
    assert (fed + input)[64 * blocks..] == fed[64 * blocks..] + input;
  }

  lemma FeedingSizes(m: Mode, all: seq<byte>, held: seq<byte>, rest: seq<byte>, counter: nat,
                     cv: Words, blocks: nat, buf: seq<byte>, bufLen: nat)
    requires Feeding(m, all, held, rest, counter, cv, blocks, buf, bufLen)
    ensures |held| == bufLen <= 64 && |buf| == 64 && buf == Pad(held)
  {
  }

  lemma FeedingFill(m: Mode, all: seq<byte>, held: seq<byte>, rest: seq<byte>, take: nat, counter: nat,
                    cv: Words, blocks: nat, buf: seq<byte>, buf': seq<byte>, bufLen: nat)
    requires Feeding(m, all, held, rest, counter, cv, blocks, buf, bufLen)
    requires take <= |rest| && bufLen + take <= 64 && buf' == Pad(held + rest[..take])
    ensures Feeding(m, all, held + rest[..take], rest[take..], counter, cv, blocks, buf', bufLen + take)
  {
  }

  lemma FeedingCompressBuf(m: Mode, all: seq<byte>, held: seq<byte>, rest: seq<byte>, counter: nat,
                           cv: Words, blocks: nat, buf: seq<byte>, bufLen: nat)
    requires Feeding(m, all, held, rest, counter, cv, blocks, buf, bufLen) && bufLen == 64 && rest != []
    ensures Feeding(m, all, [], rest, counter,
                    CompressInPlace(m, cv, buf, 64, counter, m.flags | FlagIf(blocks == 0, CHUNK_START)),
                    blocks + 1, Pad([]), 0)
  {
    assert buf == held;
    FeedingCompress(m, all, held, rest, counter, cv, blocks);
  }

  lemma FeedingCompressInput(m: Mode, all: seq<byte>, rest: seq<byte>, counter: nat,
                             cv: Words, blocks: nat, buf: seq<byte>, bufLen: nat)
    requires Feeding(m, all, [], rest, counter, cv, blocks, buf, bufLen) && |rest| > 64
    ensures Feeding(m, all, [], rest[64..], counter,
                    CompressInPlace(m, cv, rest[..64], 64, counter, m.flags | FlagIf(blocks == 0, CHUNK_START)),
                    blocks + 1, buf, bufLen)
  {
    assert [] + rest == rest[..64] + rest[64..];
    FeedingCompress(m, all, rest[..64], rest[64..], counter, cv, blocks);
  }

  lemma FeedingCompress(m: Mode, all: seq<byte>, block: Block, rest: seq<byte>, counter: nat,
                        cv: Words, blocks: nat)
    requires |all| >= 64 * blocks && all[64 * blocks..] == block + rest && rest != []
    requires cv == BlocksCv(m, m.flags, CHUNK_START, all[..64 * blocks], counter)
    ensures Feeding(m, all, [], rest, counter,
                    CompressInPlace(m, cv, block, 64, counter, m.flags | FlagIf(blocks == 0, CHUNK_START)),
                    blocks + 1, Pad([]), 0)
  {
    hide CompressInPlace, Pad, BlocksCv;
    FeedingSlices(all, block, rest, 64 * blocks);
    BlocksCvAppend(m, m.flags, CHUNK_START, all[..64 * blocks], block, counter);
  }

  lemma FeedingSlices(all: seq<byte>, block: Block, rest: seq<byte>, n: nat)
    requires |all| >= n && all[n..] == block + rest
    ensures |all| == n + 64 + |rest|
    ensures all[..n + 64] == all[..n] + block && all[n + 64..] == [] + rest
  {
  }

  lemma FeedingEnd(m: Mode, all: seq<byte>, held: seq<byte>, counter: nat,
                   cv: Words, blocks: nat, buf: seq<byte>, bufLen: nat)
    requires Feeding(m, all, held, [], counter, cv, blocks, buf, bufLen)
    ensures Represents(m, all, counter, cv, blocks, buf, bufLen)
  {
  }

  class ChunkState {
    const m: Mode
    const comp: Compressor
    const buf: array<byte>
    var cv: Words
    var counter: nat
    var bufLen: nat
    var blocksCompressed: nat
    ghost var fed: seq<byte>

    ghost predicate Valid()
      reads this, buf
    {
      Represents(m, fed, counter, cv, blocksCompressed, buf[..], bufLen)
    }

    constructor (m: Mode, comp: Compressor)
      ensures Valid() && fresh(buf)
      ensures this.m == m && this.comp == comp && fed == [] && counter == 0
    {
      this.m, this.comp := m, comp;
      buf := new byte[64](_ => 0);
      cv := m.key;
      counter, bufLen, blocksCompressed := 0, 0, 0;
      fed := [];
      new;
      assert buf[..] == Pad([]);
    }

    method Reset(newCounter: nat)
      requires Valid()
      modifies this, buf
      ensures Valid() && fed == [] && counter == newCounter
    {
      cv, counter, bufLen, blocksCompressed := m.key, newCounter, 0, 0;
      fed := [];
      ClearBuf();
    }

    /** chunk_counter += n, on an empty chunk. */
    method Advance(n: nat)
      requires Valid() && fed == []
      modifies `counter
      ensures Valid() && counter == old(counter) + n
    {
      counter := counter + n;
    }

    method ClearBuf()
      requires buf.Length == 64
      modifies buf
      ensures buf[..] == Pad([])
    {
      forall i | 0 <= i < 64 { buf[i] := 0; }
      assert buf[..] == Pad([]);
    }

    function Len(): (n: nat)
      requires Valid()
      reads this, buf
      ensures n == |fed|
    {
      64 * blocksCompressed + bufLen
    }

    /** chunk_state_fill_buf: copy as much as fits behind the buffered bytes. */
    method FillBuf(input: seq<byte>, ghost held: seq<byte>) returns (take: nat)
      requires buf.Length == 64 && |held| == bufLen <= 64 && buf[..] == Pad(held)
      modifies buf, `bufLen
      ensures take == if 64 - old(bufLen) > |input| then |input| else 64 - old(bufLen)
      ensures bufLen == old(bufLen) + take <= 64 && buf[..] == Pad(held + input[..take])
    {
      take := 64 - bufLen;
      if take > |input| {
        take := |input|;
      }
      forall i | 0 <= i < take { buf[bufLen + i] := input[i]; }
      bufLen := bufLen + take;
      assert buf[..] == Pad(held + input[..take]);
    }

    method CompressBlock(block: Block)
      requires comp.For(m)
      modifies `cv, `blocksCompressed, comp
      ensures cv == CompressInPlace(m, old(cv), block, 64, counter,
                                    m.flags | FlagIf(old(blocksCompressed) == 0, CHUNK_START))
      ensures blocksCompressed == old(blocksCompressed) + 1
      ensures Added(old(comp.log), comp.log, [], 0, 0)
    {
      var blockFlags := m.flags | FlagIf(blocksCompressed == 0, CHUNK_START);
      cv := comp.CompressBlock(m, cv, block, counter, blockFlags, Inner);
      blocksCompressed := blocksCompressed + 1;
    }

    /** In the middle of an update, see Feeding. */
    ghost predicate Takes(held: seq<byte>, rest: seq<byte>)
      reads this, buf
    {
      Feeding(m, fed, held, rest, counter, cv, blocksCompressed, buf[..], bufLen)
    }

    /** Fill up the buffered block; if more input follows, compress it. */
    method FeedBuf(input: seq<byte>, ghost held: seq<byte>) returns (rest: seq<byte>, ghost held': seq<byte>)
      requires Takes(held, input) && comp.For(m)
      modifies `cv, `bufLen, `blocksCompressed, buf, comp
      ensures Takes(held', rest) && (rest == [] || held' == [])
      ensures Added(old(comp.log), comp.log, [], 0, 0)
    {
      hide *;
      UseTakes(held, input);
      AddedNone(comp.log, [], 0, 0);
      var take := FillBuf(input, held);
      FeedingFill(m, fed, held, input, take, counter, cv, blocksCompressed, old(buf[..]), buf[..], old(bufLen));
      held', rest := held + input[..take], input[take..];
      if rest != [] {
        FeedingCompressBuf(m, fed, held', rest, counter, cv, blocksCompressed, buf[..], bufLen);
        CompressBlock(buf[..]);
        held' := [];
        bufLen := 0;
        ClearBuf();
      }
      IntoTakes(held', rest);
    }

    /** Compress whole blocks straight from the input, all but the last. */
    method FeedBlocks(input: seq<byte>, ghost held: seq<byte>) returns (rest: seq<byte>)
      requires Takes(held, input) && (input == [] || held == []) && comp.For(m)
      modifies `cv, `blocksCompressed, comp
      ensures Takes(held, rest) && |rest| <= 64 && (rest == [] || held == [])
      ensures Added(old(comp.log), comp.log, [], 0, 0)
    {
      hide *;
      AddedNone(comp.log, [], 0, 0);
      rest := input;
      while |rest| > 64
        invariant Takes(held, rest) && (rest == [] || held == [])
        invariant Added(old(comp.log), comp.log, [], 0, 0)
      {
        ghost var log := comp.log;
        UseTakes(held, rest);
        FeedingCompressInput(m, fed, rest, counter, cv, blocksCompressed, buf[..], bufLen);
        CompressBlock(rest[..64]);
        AddedThen(old(comp.log), log, comp.log, [], 0, 0);
        rest := rest[64..];
        IntoTakes(held, rest);
      }
    }

    /** What is left fits the buffer. */
    method FeedLast(rest: seq<byte>, ghost held: seq<byte>)
      requires Takes(held, rest) && |rest| <= 64 && (rest == [] || held == [])
      modifies `bufLen, buf
      ensures Valid()
    {
      hide *;
      UseTakes(held, rest);
      var take := FillBuf(rest, held);
      FeedingFill(m, fed, held, rest, take, counter, cv, blocksCompressed, old(buf[..]), buf[..], old(bufLen));
      assert rest[take..] == [];
      FeedingEnd(m, fed, held + rest[..take], counter, cv, blocksCompressed, buf[..], bufLen);
      IntoValid();
    }

    lemma UseTakes(held: seq<byte>, rest: seq<byte>)
      requires Takes(held, rest)
      ensures Feeding(m, fed, held, rest, counter, cv, blocksCompressed, buf[..], bufLen)
      ensures |held| == bufLen <= 64 && buf.Length == 64 && buf[..] == Pad(held)
    {
      hide Feeding, Pad;
      FeedingSizes(m, fed, held, rest, counter, cv, blocksCompressed, buf[..], bufLen);
      assert |buf[..]| == 64;
    }

    lemma IntoTakes(held: seq<byte>, rest: seq<byte>)
      requires Feeding(m, fed, held, rest, counter, cv, blocksCompressed, buf[..], bufLen)
      ensures Takes(held, rest)
    {
      hide Feeding;
    }

    lemma IntoValid()
      requires Represents(m, fed, counter, cv, blocksCompressed, buf[..], bufLen)
      ensures Valid()
    {
      hide Represents;
    }

    lemma UseValid()
      requires Valid()
      ensures Represents(m, fed, counter, cv, blocksCompressed, buf[..], bufLen)
    {
      hide Represents;
    }

    /** chunk_state_update: the bytes fed grow by the input, however it is cut up. Only inner
        blocks are compressed. */
    method Update(input: seq<byte>)
      requires Valid() && comp.For(m)
      modifies this, buf, comp
      ensures Valid() && fed == old(fed) + input && counter == old(counter)
      ensures Added(old(comp.log), comp.log, [], 0, 0)
    {
      hide *;
      UseValid();
      AddedNone(comp.log, [], 0, 0);
      FeedingStart(m, fed, input, counter, cv, blocksCompressed, buf[..], bufLen);
      var rest := input;
      ghost var held := fed[64 * blocksCompressed..];
      fed := fed + input;
      IntoTakes(held, rest);
      UseTakes(held, rest);
      if bufLen > 0 {
        rest, held := FeedBuf(rest, held);
      }
      ghost var log := comp.log;
      rest := FeedBlocks(rest, held);
      AddedThen(old(comp.log), log, comp.log, [], 0, 0);
      FeedLast(rest, held);
    }

    /** chunk_state_output: the node of everything fed so far. */
    method Finish() returns (o: Output)
      requires Valid()
      ensures o == ChunkOutput(m, fed, counter)
      ensures |fed| <= 1024 ==> blocksCompressed <= 15
    {
      RepresentsOutput(m, fed, counter, cv, blocksCompressed, buf[..], bufLen);
      o := Output(cv, buf[..], bufLen, counter, m.flags | FlagIf(blocksCompressed == 0, CHUNK_START) | CHUNK_END);
    }
  }

  // ---------- Hashing whole blocks without a chunk state ----------

  /** The last compression of hash_one on a run of full blocks. */
  ghost function HashOneOutput(m: Mode, input: seq<byte>, counter: nat, flags: bv8, start: bv8, end: bv8): Output
    requires |input| % 64 == 0 && input != []
  {
    var n := |input| - 64;
    Output(BlocksCv(m, flags, start, input[..n], counter), input[n..], 64, counter,
           flags | FlagIf(n == 0, start) | end)
  }

  /** What hash_one computes. */
  ghost function HashOne(m: Mode, input: seq<byte>, counter: nat, flags: bv8, start: bv8, end: bv8): CV
    requires |input| % 64 == 0 && input != []
  {
    ChainingValue(m, HashOneOutput(m, input, counter, flags, start, end))
  }

  /** hash_one on a whole chunk ends with the node of a chunk state fed the same bytes. */
  lemma HashOneIsChunk(m: Mode, chunk: seq<byte>, counter: nat)
    requires |chunk| == 1024
    ensures HashOneOutput(m, chunk, counter, m.flags, CHUNK_START, CHUNK_END) == ChunkOutput(m, chunk, counter)
    ensures HashOne(m, chunk, counter, m.flags, CHUNK_START, CHUNK_END)
         == ChainingValue(m, ChunkOutput(m, chunk, counter))
  {
    assert BeforeLastBlock(1024) == 960;
    assert Pad(chunk[960..]) == chunk[960..];
  }

  /** hash_one on one block without start and end flags is a parent node. */
  lemma HashOneIsParent(m: Mode, left: CV, right: CV)
    ensures HashOneOutput(m, ParentBlock(left, right), 0, m.flags | PARENT, 0, 0) == ParentOutput(m, left, right)
    ensures HashOne(m, ParentBlock(left, right), 0, m.flags | PARENT, 0, 0) == ParentCv(m, left, right)
  {
  }

  /** Half way through hash_one: before is compressed, rest is still to come. */
  ghost predicate Hashing(m: Mode, input: seq<byte>, before: seq<byte>, rest: seq<byte>, left: nat,
                          cv: Words, blockFlags: bv8, counter: nat, flags: bv8, start: bv8, end: bv8)
  {
    && |rest| == 64 * left && input == before + rest && |before| % 64 == 0 && input != []
    && (left > 0 ==> cv == BlocksCv(m, flags, start, before, counter)
                     && blockFlags == flags | FlagIf(before == [], start))
    && (left == 0 ==> StoreWords(cv) == HashOne(m, input, counter, flags, start, end))
  }

  lemma UseHashing(m: Mode, input: seq<byte>, before: seq<byte>, rest: seq<byte>, left: nat,
                   cv: Words, blockFlags: bv8, counter: nat, flags: bv8, start: bv8, end: bv8)
    requires Hashing(m, input, before, rest, left, cv, blockFlags, counter, flags, start, end) && left > 0
    ensures |rest| == 64 * left && input == before + rest && |before| % 64 == 0 && input != []
    ensures cv == BlocksCv(m, flags, start, before, counter) && blockFlags == flags | FlagIf(before == [], start)
  {
    hide BlocksCv, HashOne, StoreWords;
  }

  lemma IntoHashing(m: Mode, input: seq<byte>, before: seq<byte>, rest: seq<byte>, left: nat,
                    cv: Words, counter: nat, flags: bv8, start: bv8, end: bv8)
    requires |rest| == 64 * left && input == before + rest && |before| % 64 == 0 && before != [] && left > 0
    requires cv == BlocksCv(m, flags, start, before, counter)
    ensures Hashing(m, input, before, rest, left, cv, flags, counter, flags, start, end)
  {
    hide BlocksCv, HashOne, StoreWords;
    assert flags | 0 == flags;
  }

  lemma HashingStep(m: Mode, input: seq<byte>, before: seq<byte>, rest: seq<byte>, left: nat,
                    cv: Words, blockFlags: bv8, counter: nat, flags: bv8, start: bv8, end: bv8)
    requires Hashing(m, input, before, rest, left, cv, blockFlags, counter, flags, start, end) && left > 1
    ensures |rest| >= 64
    ensures Hashing(m, input, before + rest[..64], rest[64..], left - 1,
                    CompressInPlace(m, cv, rest[..64], 64, counter, blockFlags), flags,
                    counter, flags, start, end)
  {
    hide *;
    UseHashing(m, input, before, rest, left, cv, blockFlags, counter, flags, start, end);
    BlocksCvAppend(m, flags, start, before, rest[..64], counter);
    assert before + rest == (before + rest[..64]) + rest[64..];
    IntoHashing(m, input, before + rest[..64], rest[64..], left - 1,
                CompressInPlace(m, cv, rest[..64], 64, counter, blockFlags), counter, flags, start, end);
  }

  lemma HashOneUnfold(m: Mode, before: seq<byte>, last: Block, counter: nat,
                      flags: bv8, start: bv8, end: bv8)
    requires |before| % 64 == 0
    ensures HashOneOutput(m, before + last, counter, flags, start, end)
         == Output(BlocksCv(m, flags, start, before, counter), last, 64, counter, flags | FlagIf(before == [], start) | end)
    ensures HashOne(m, before + last, counter, flags, start, end)
         == StoreWords(CompressInPlace(m, BlocksCv(m, flags, start, before, counter), last, 64, counter,
                                       flags | FlagIf(before == [], start) | end))
  {
    hide BlocksCv, CompressInPlace, StoreWords;
    assert (before + last)[..|before|] == before && (before + last)[|before|..] == last;
  }

  lemma HashingLast(m: Mode, input: seq<byte>, before: seq<byte>, rest: seq<byte>,
                    cv: Words, blockFlags: bv8, counter: nat, flags: bv8, start: bv8, end: bv8)
    requires Hashing(m, input, before, rest, 1, cv, blockFlags, counter, flags, start, end)
    ensures |rest| == 64 && |input| % 64 == 0 && input != []
    ensures Output(cv, rest[..64], 64, counter, blockFlags | end) == HashOneOutput(m, input, counter, flags, start, end)
    ensures Hashing(m, input, before + rest[..64], rest[64..], 0,
                    CompressInPlace(m, cv, rest[..64], 64, counter, blockFlags | end), flags,
                    counter, flags, start, end)
  {
    hide *;
    UseHashing(m, input, before, rest, 1, cv, blockFlags, counter, flags, start, end);
    assert rest[..64] == rest && rest[64..] == [] && before + rest[..64] == input;
    HashOneUnfold(m, before, rest, counter, flags, start, end);
    IntoHashed(m, input, CompressInPlace(m, cv, rest[..64], 64, counter, blockFlags | end), flags, counter, flags, start, end);
  }

  lemma IntoHashed(m: Mode, input: seq<byte>, cv: Words, blockFlags: bv8, counter: nat, flags: bv8, start: bv8, end: bv8)
    requires input != [] && |input| % 64 == 0 && StoreWords(cv) == HashOne(m, input, counter, flags, start, end)
    ensures Hashing(m, input, input, [], 0, cv, blockFlags, counter, flags, start, end)
  {
    hide BlocksCv, HashOne, StoreWords;
  }

  /** What the log needs to know of a call of hash_one: the node it ends with, and that only a
      chunk has blocks before its last. */
  ghost predicate HashesNode(m: Mode, input: seq<byte>, counter: nat, flags: bv8, start: bv8, end: bv8,
                             piece: seq<byte>, at: nat)
  {
    && |input| % 64 == 0 && input != []
    && HashOneOutput(m, input, counter, flags, start, end) == NodeOutput(m, piece, at)
    && (|input| > 64 ==> flags == m.flags && start == CHUNK_START)
  }

  lemma HashingHonest(m: Mode, input: seq<byte>, before: seq<byte>, rest: seq<byte>, left: nat, cv: Words,
                      blockFlags: bv8, counter: nat, flags: bv8, start: bv8, end: bv8, piece: seq<byte>, at: nat)
    requires HashesNode(m, input, counter, flags, start, end, piece, at)
    requires Hashing(m, input, before, rest, left, cv, blockFlags, counter, flags, start, end) && left > 0
    ensures |rest| >= 64
    ensures left > 1 ==> Honest(m, Inner, Output(cv, rest[..64], 64, counter, blockFlags))
    ensures left == 1 ==> Honest(m, Node(at, piece), Output(cv, rest[..64], 64, counter, blockFlags | end))
  {
    hide BlocksCv, HashOne, HashOneOutput, NodeOutput, Hashing;
    UseHashing(m, input, before, rest, left, cv, blockFlags, counter, flags, start, end);
    if left == 1 {
      HashingLast(m, input, before, rest, cv, blockFlags, counter, flags, start, end);
    }
  }

  /** One block of hash_one: an inner block, or at last the node over the piece. */
  method HashBlock(m: Mode, comp: Compressor, rest: seq<byte>, left: nat, cv: Words, blockFlags: bv8, counter: nat,
                   end: bv8, ghost input: seq<byte>, ghost before: seq<byte>, ghost flags: bv8, ghost start: bv8,
                   ghost piece: seq<byte>, ghost at: nat) returns (cv': Words)
    requires comp.For(m) && HashesNode(m, input, counter, flags, start, end, piece, at)
    requires Hashing(m, input, before, rest, left, cv, blockFlags, counter, flags, start, end) && left > 0
    modifies comp
    ensures |rest| >= 64
    ensures Hashing(m, input, before + rest[..64], rest[64..], left - 1, cv', flags, counter, flags, start, end)
    ensures Added(old(comp.log), comp.log, piece, at, |piece| + 1)
  {
    hide *;
    HashingHonest(m, input, before, rest, left, cv, blockFlags, counter, flags, start, end, piece, at);
    if left == 1 {
      HashingLast(m, input, before, rest, cv, blockFlags, counter, flags, start, end);
      NodeEntered(comp.log, piece, at);
      cv' := comp.CompressBlock(m, cv, rest[..64], counter, blockFlags | end, Node(at, piece));
    } else {
      HashingStep(m, input, before, rest, left, cv, blockFlags, counter, flags, start, end);
      InnerEntered(comp.log, piece, at, |piece| + 1);
      cv' := comp.CompressBlock(m, cv, rest[..64], counter, blockFlags, Inner);
    }
  }

  lemma HashingStart(m: Mode, input: seq<byte>, blocks: nat, counter: nat, flags: bv8, start: bv8, end: bv8)
    requires blocks > 0 && |input| == 64 * blocks
    ensures Hashing(m, input, [], input, blocks, m.key, flags | start, counter, flags, start, end)
  {
    hide StoreWords, HashOne;
  }

  lemma HashingEnd(m: Mode, input: seq<byte>, before: seq<byte>, rest: seq<byte>, cv: Words,
                   blockFlags: bv8, counter: nat, flags: bv8, start: bv8, end: bv8)
    requires Hashing(m, input, before, rest, 0, cv, blockFlags, counter, flags, start, end)
    ensures |input| % 64 == 0 && input != [] && StoreWords(cv) == HashOne(m, input, counter, flags, start, end)
  {
    hide StoreWords, HashOne;
  }

  /** hash_one_portable: inner blocks, and then the node over the piece. */
  method HashOnePortable(m: Mode, comp: Compressor, input: seq<byte>, blocks: nat, counter: nat,
                         flags: bv8, start: bv8, end: bv8, ghost piece: seq<byte>, ghost at: nat) returns (out: CV)
    requires blocks > 0 && |input| == 64 * blocks
    requires comp.For(m) && HashesNode(m, input, counter, flags, start, end, piece, at)
    modifies comp
    ensures out == HashOne(m, input, counter, flags, start, end)
    ensures Added(old(comp.log), comp.log, piece, at, |piece| + 1)
  {
    hide *;
    var cv := m.key;
    var blockFlags := flags | start;
    var rest, left := input, blocks;
    ghost var before: seq<byte> := [];
    HashingStart(m, input, blocks, counter, flags, start, end);
    AddedNone(comp.log, piece, at, |piece| + 1);
    while left > 0
      invariant Hashing(m, input, before, rest, left, cv, blockFlags, counter, flags, start, end)
      invariant Added(old(comp.log), comp.log, piece, at, |piece| + 1)
    {
      ghost var log := comp.log;
      cv := HashBlock(m, comp, rest, left, cv, blockFlags, counter, end, input, before, flags, start, piece, at);
      AddedThen(old(comp.log), log, comp.log, piece, at, |piece| + 1);
      before, rest := before + rest[..64], rest[64..];
      left := left - 1;
      blockFlags := flags;
    }
    HashingEnd(m, input, before, rest, cv, blockFlags, counter, flags, start, end);
    out := StoreWords(cv);
  }
}
