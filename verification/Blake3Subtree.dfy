/** Hashing a subtree with a given SIMD degree: batches of chunks and parents, the recursive
    wide compressor and its condensation to the two children of the subtree's root. */
module Blake3Subtree {
  import opened Bits
  import opened Bytes
  import opened Blake3Spec
  import opened Blake3Compressor
  import opened Blake3Chunk
  import opened Blake3Wide

  /** The degree the wide compressor really uses above the chunk level: at least two. */
  function AtLeastTwo(degree: nat): nat {
    if degree < 2 then 2 else degree
  }

  /** Everything outside a window of an output array. */
  twostate predicate UnchangedOutside(out: array<CV>, off: nat, n: nat)
    reads out
  {
    forall i :: 0 <= i < out.Length && (i < off || off + n <= i) ==> out[i] == old(out[i])
  }

  /** Inside the tree over n bytes every node is shorter than this: than the whole, unless it is
      a single chunk. */
  function TreeBound(n: nat): nat {
    if n > 1024 then n else n + 1
  }

  /** The counter of the i-th input of hash_many. */
  function CounterAt(counter: nat, increment: bool, i: nat): nat {
    if increment then counter + i else counter
  }

  /** The i-th output of hash_many. */
  ghost function HashManyAt(m: Mode, input: seq<byte>, counter: nat, increment: bool, i: nat,
                            flags: bv8, start: bv8, end: bv8): CV
    requires |input| % 64 == 0 && input != []
  {
    HashOne(m, input, CounterAt(counter, increment, i), flags, start, end)
  }

  /** An input of hash_many ends with the node over a piece of the bytes that start at base. */
  ghost predicate HashesPiece(m: Mode, input: seq<byte>, counter: nat, increment: bool, i: nat, flags: bv8,
                              start: bv8, end: bv8, p: Piece, all: seq<byte>, base: nat, bound: nat)
  {
    && HashesNode(m, input, CounterAt(counter, increment, i), flags, start, end, p.bytes, p.at)
    && PartOf(p.bytes, p.at, all, base) && |p.bytes| < bound
  }

  /** blake3_hash_many_portable: hash each input, writing the results side by side. */
  method HashMany(m: Mode, comp: Compressor, inputs: seq<seq<byte>>, blocks: nat, counter: nat, increment: bool,
                  flags: bv8, start: bv8, end: bv8, out: array<CV>, off: nat,
                  ghost pieces: seq<Piece>, ghost all: seq<byte>, ghost base: nat, ghost bound: nat)
    requires blocks > 0
    requires forall i :: 0 <= i < |inputs| ==> |inputs[i]| == 64 * blocks && |inputs[i]| % 64 == 0 && inputs[i] != []
    requires off + |inputs| <= out.Length && |pieces| == |inputs| && comp.For(m)
    requires forall i :: 0 <= i < |inputs| ==>
      HashesPiece(m, inputs[i], counter, increment, i, flags, start, end, pieces[i], all, base, bound)
    modifies out, comp
    ensures forall i :: 0 <= i < |inputs| ==>
      out[off + i] == HashManyAt(m, inputs[i], counter, increment, i, flags, start, end)
    ensures UnchangedOutside(out, off, |inputs|)
    ensures Added(old(comp.log), comp.log, all, base, bound)
  {
    hide HashManyAt, HashOne, HashesPiece, Added, CounterAt, Compressor.For;
    var k := 0;
    var c := counter;
    CounterZero(counter, increment);
    AddedNone(comp.log, all, base, bound);
    while k < |inputs|
      invariant k <= |inputs| && c == CounterAt(counter, increment, k)
      invariant forall i :: 0 <= i < k ==> out[off + i] == HashManyAt(m, inputs[i], counter, increment, i, flags, start, end)
      invariant UnchangedOutside(out, off, k)
      invariant Added(old(comp.log), comp.log, all, base, bound)
    {
      ghost var log := comp.log;
      out[off + k] := HashOneAt(m, comp, inputs[k], blocks, counter, increment, k, c, flags, start, end,
                                pieces[k], all, base, bound);
      AddedThen(old(comp.log), log, comp.log, all, base, bound);
      CounterNext(counter, increment, k);
      if increment {
        c := c + 1;
      }
      k := k + 1;
    }
  }

  lemma CounterZero(counter: nat, increment: bool)
    ensures CounterAt(counter, increment, 0) == counter
  {
  }

  lemma CounterNext(counter: nat, increment: bool, i: nat)
    ensures CounterAt(counter, increment, i + 1) == CounterAt(counter, increment, i) + if increment then 1 else 0
  {
  }

  method HashOneAt(m: Mode, comp: Compressor, input: seq<byte>, blocks: nat, ghost counter: nat, ghost increment: bool,
                   ghost i: nat, c: nat, flags: bv8, start: bv8, end: bv8,
                   ghost p: Piece, ghost all: seq<byte>, ghost base: nat, ghost bound: nat) returns (cv: CV)
    requires blocks > 0 && |input| == 64 * blocks && c == CounterAt(counter, increment, i) && comp.For(m)
    requires HashesPiece(m, input, counter, increment, i, flags, start, end, p, all, base, bound)
    modifies comp
    ensures cv == HashManyAt(m, input, counter, increment, i, flags, start, end)
    ensures Added(old(comp.log), comp.log, all, base, bound)
  {
    hide HashOne, Added, PartOf, HashesNode, CounterAt, Compressor.For;
    cv := HashOnePortable(m, comp, input, blocks, c, flags, start, end, p.bytes, p.at);
    AddedWithin(old(comp.log), comp.log, p.bytes, p.at, |p.bytes| + 1, all, base, bound);
  }

  // ---------- One batch of chunks ----------

  /** The pieces under the first n chunks. */
  ghost function ChunkPieces(input: seq<byte>, at: nat, n: nat): (r: seq<Piece>)
    requires 1024 * n <= |input|
    ensures |r| == n && forall i :: 0 <= i < n ==> r[i] == Piece(at + 1024 * i, ChunkOf(input, i))
  {
    seq(n, i requires 0 <= i < n => Piece(at + 1024 * i, ChunkOf(input, i)))
  }

  lemma ChunkHashesPiece(m: Mode, input: seq<byte>, at: nat, i: nat)
    requires at % 1024 == 0 && 1024 * (i + 1) <= |input|
    ensures HashesPiece(m, ChunkOf(input, i), at / 1024, true, i, m.flags, CHUNK_START, CHUNK_END,
                        Piece(at + 1024 * i, ChunkOf(input, i)), input, at, TreeBound(|input|))
  {
    hide HashOneOutput, ChunkOutput, NodeOutput;
    HashOneIsChunk(m, ChunkOf(input, i), at / 1024 + i);
    assert (at + 1024 * i) / 1024 == at / 1024 + i;
    ChunkNode(m, ChunkOf(input, i), at + 1024 * i);
  }

  lemma ChunkHashed(m: Mode, input: seq<byte>, at: nat, i: nat)
    requires at % 1024 == 0 && 1024 * (i + 1) <= |input|
    ensures HashManyAt(m, ChunkOf(input, i), at / 1024, true, i, m.flags, CHUNK_START, CHUNK_END)
         == SubtreeCv(m, ChunkOf(input, i), at + 1024 * i)
  {
    HashOneIsChunk(m, ChunkOf(input, i), at / 1024 + i);
    assert (at + 1024 * i) / 1024 == at / 1024 + i;
  }

  lemma LastChunkHashed(m: Mode, input: seq<byte>, at: nat, i: nat)
    requires at % 1024 == 0 && 1024 * i < |input| < 1024 * (i + 1)
    ensures ChainingValue(m, ChunkOutput(m, input[1024 * i..], at / 1024 + i))
         == SubtreeCv(m, ChunkOf(input, i), at + 1024 * i)
  {
    hide ChainingValue, ChunkOutput;
    assert (at + 1024 * i) / 1024 == at / 1024 + i;
  }

  lemma BatchIsChunkCvs(m: Mode, input: seq<byte>, at: nat, cvs: seq<CV>)
    requires input != [] && at % 1024 == 0 && |cvs| == (|input| - 1) / 1024 + 1
    requires forall i :: 0 <= i < |input| / 1024 ==>
      cvs[i] == HashManyAt(m, ChunkOf(input, i), at / 1024, true, i, m.flags, CHUNK_START, CHUNK_END)
    requires forall i :: i == |input| / 1024 < |cvs| ==>
      cvs[i] == ChainingValue(m, ChunkOutput(m, input[1024 * i..], at / 1024 + i))
    ensures cvs == ChunkCvs(m, input, at)
  {
    hide *;
    ChunkCvsLength(m, input, at);
    forall i | 0 <= i < |cvs|
      ensures cvs[i] == ChunkCvs(m, input, at)[i]
    {
      ChunkCvsAt(m, input, at, i);
      if i < |input| / 1024 {
        ChunkHashed(m, input, at, i);
      } else {
        LastChunkHashed(m, input, at, i);
      }
    }
  }

  /** One chunk through a chunk state of its own. */
  method HashChunk(m: Mode, comp: Compressor, chunk: seq<byte>, counter: nat, ghost at: nat) returns (cv: CV)
    requires |chunk| <= 1024 && counter == at / 1024 && comp.For(m)
    modifies comp
    ensures cv == ChainingValue(m, ChunkOutput(m, chunk, counter)) == SubtreeCv(m, chunk, at)
    ensures Added(old(comp.log), comp.log, chunk, at, |chunk| + 1)
  {
    hide ChainingValue, ChunkOutput, NodeOutput, SubtreeCv, Added, Compressor.For;
    var state := new ChunkState(m, comp);
    state.counter := counter;
    state.Update(chunk);
    ghost var log := comp.log;
    AddedInner(old(comp.log), log, chunk, at, |chunk| + 1);
    assert state.fed == chunk;
    var o := state.Finish();
    ChunkNode(m, chunk, at);
    cv := comp.OutputCv(m, o, chunk, at);
    AddedThen(old(comp.log), log, comp.log, chunk, at, |chunk| + 1);
  }

  /** The whole chunks of an input. */
  method HashChunks(m: Mode, comp: Compressor, chunks: seq<seq<byte>>, counter: nat, out: array<CV>, off: nat,
                    ghost input: seq<byte>, ghost at: nat)
    requires at % 1024 == 0 && counter == at / 1024 && comp.For(m)
    requires 1024 * |chunks| <= |input| && forall i :: 0 <= i < |chunks| ==> chunks[i] == ChunkOf(input, i)
    requires off + |chunks| <= out.Length
    modifies out, comp
    ensures forall i :: 0 <= i < |chunks| ==>
      out[off + i] == HashManyAt(m, ChunkOf(input, i), counter, true, i, m.flags, CHUNK_START, CHUNK_END)
    ensures UnchangedOutside(out, off, |chunks|)
    ensures Added(old(comp.log), comp.log, input, at, TreeBound(|input|))
  {
    hide HashManyAt, Added, HashesPiece, Compressor.For;
    forall i | 0 <= i < |chunks|
      ensures HashesPiece(m, chunks[i], counter, true, i, m.flags, CHUNK_START, CHUNK_END,
                          Piece(at + 1024 * i, ChunkOf(input, i)), input, at, TreeBound(|input|))
    {
      ChunkHashesPiece(m, input, at, i);
    }
    HashMany(m, comp, chunks, 16, counter, true, m.flags, CHUNK_START, CHUNK_END, out, off,
             ChunkPieces(input, at, |chunks|), input, at, TreeBound(|input|));
  }

  /** The partial chunk at the end of an input. */
  method HashLastChunk(m: Mode, comp: Compressor, chunk: seq<byte>, counter: nat,
                       ghost input: seq<byte>, ghost at: nat, ghost pos: nat) returns (cv: CV)
    requires pos <= |input| && chunk == input[pos..] && |chunk| <= 1024 && pos % 1024 == 0 && at % 1024 == 0
    requires counter == at / 1024 + pos / 1024 && comp.For(m)
    modifies comp
    ensures cv == ChainingValue(m, ChunkOutput(m, chunk, counter))
    ensures Added(old(comp.log), comp.log, input, at, TreeBound(|input|))
  {
    hide ChainingValue, ChunkOutput, Added, PartOf, SubtreeCv, Compressor.For;
    cv := HashChunk(m, comp, chunk, counter, at + pos);
    PartsOf(input, pos, at);
    AddedWithin(old(comp.log), comp.log, chunk, at + pos, |chunk| + 1, input, at, TreeBound(|input|));
  }

  /** Its first loop: the whole chunks, and where they end. */
  method WholeChunks(input: seq<byte>) returns (chunks: seq<seq<byte>>, pos: nat)
    ensures pos == 1024 * |chunks| <= |input| < pos + 1024
    ensures forall i :: 0 <= i < |chunks| ==> chunks[i] == ChunkOf(input, i)
  {
    chunks, pos := [], 0;
    while |input| - pos >= 1024
      invariant pos == 1024 * |chunks| <= |input|
      invariant forall i :: 0 <= i < |chunks| ==> chunks[i] == ChunkOf(input, i)
    {
      chunks := chunks + [input[pos..pos + 1024]];
      pos := pos + 1024;
    }
  }

  /** compress_chunks_parallel: the CVs of all chunks of the input, the last possibly partial. */
  method CompressChunksParallel(m: Mode, comp: Compressor, input: seq<byte>, counter: nat, ghost at: nat,
                                out: array<CV>, off: nat) returns (n: nat)
    requires input != [] && at % 1024 == 0 && counter == at / 1024 && comp.For(m)
    requires off + (|input| - 1) / 1024 + 1 <= out.Length
    modifies out, comp
    ensures n == (|input| - 1) / 1024 + 1
    ensures out[off..off + n] == ChunkCvs(m, input, at)
    ensures UnchangedOutside(out, off, n)
    ensures Added(old(comp.log), comp.log, input, at, TreeBound(|input|))
  {
    hide SubtreeCv, HashManyAt, ChainingValue, ChunkOutput, ChunkCvs, Added, HashesPiece, TreeBound, ChunkOf, Compressor.For;
    var chunks, pos := WholeChunks(input);
    n := |chunks|;
    HashChunks(m, comp, chunks, counter, out, off, input, at);
    if |input| > pos {
      ghost var log := comp.log;
      out[off + n] := HashLastChunk(m, comp, input[pos..], counter + n, input, at, pos);
      AddedThen(old(comp.log), log, comp.log, input, at, TreeBound(|input|));
      n := n + 1;
    }
    BatchIsChunkCvs(m, input, at, out[off..off + n]);
  }

  // ---------- One batch of parents ----------

  lemma BatchIsPairUp(m: Mode, cvs: seq<CV>, outs: seq<CV>)
    requires |outs| == (|cvs| + 1) / 2
    requires forall i :: 0 <= i < |cvs| / 2 ==>
      outs[i] == HashManyAt(m, ParentBlock(cvs[2 * i], cvs[2 * i + 1]), 0, false, i, m.flags | PARENT, 0, 0)
    requires forall i :: i == |cvs| / 2 < |outs| ==> outs[i] == cvs[2 * i]
    ensures outs == PairUp(m, cvs)
  {
    hide PairUp, ParentCv, HashOne;
    forall i | 0 <= i < |outs|
      ensures outs[i] == PairUp(m, cvs)[i]
    {
      PairUpAt(m, cvs, i);
      if i < |cvs| / 2 {
        HashOneIsParent(m, cvs[2 * i], cvs[2 * i + 1]);
      }
    }
  }

  lemma ParentHashesPiece(m: Mode, cvs: seq<CV>, i: nat, input: seq<byte>, at: nat)
    requires Cut(m, input, at, cvs) && 2 * i + 1 < |cvs|
    ensures HashesPiece(m, ParentBlock(cvs[2 * i], cvs[2 * i + 1]), 0, false, i, m.flags | PARENT, 0, 0,
                        PairPiece(input, at, |cvs|, i), input, at, if |cvs| > 2 then |input| else |input| + 1)
  {
    hide HashOneOutput, ParentOutput, NodeOutput, Cut, PartOf, PairPiece;
    PairIsNode(m, input, at, cvs, i);
    HashOneIsParent(m, cvs[2 * i], cvs[2 * i + 1]);
    var p := PairPiece(input, at, |cvs|, i);
    PartIsShorter(p.bytes, p.at, input, at);
  }

  /** The pieces under the first n pairs of a cut. */
  ghost function PairPieces(input: seq<byte>, at: nat, num: nat, n: nat): (r: seq<Piece>)
    ensures |r| == n && forall i :: 0 <= i < n ==> r[i] == PairPiece(input, at, num, i)
  {
    seq(n, i requires 0 <= i => PairPiece(input, at, num, i))
  }

  /** Its first loop: the blocks of the pairs of children. */
  method WholePairs(child: array<CV>, num: nat) returns (parents: seq<seq<byte>>)
    requires num <= child.Length
    ensures |parents| == num / 2
    ensures forall i :: 0 <= i < |parents| ==> parents[i] == ParentBlock(child[..num][2 * i], child[..num][2 * i + 1])
  {
    parents := [];
    ghost var cvs := child[..num];
    while num - 2 * |parents| >= 2
      invariant 2 * |parents| <= num
      invariant forall i :: 0 <= i < |parents| ==> parents[i] == ParentBlock(cvs[2 * i], cvs[2 * i + 1])
    {
      parents := parents + [ParentBlock(child[2 * |parents|], child[2 * |parents| + 1])];
    }
  }

  /** compress_parents_parallel: one layer of parents over child CVs that cut the tree over an
      input. */
  method CompressParentsParallel(m: Mode, comp: Compressor, child: array<CV>, num: nat, out: array<CV>, off: nat,
                                 ghost input: seq<byte>, ghost at: nat) returns (n: nat)
    requires 2 <= num <= child.Length && child != out && off + (num + 1) / 2 <= out.Length
    requires Cut(m, input, at, child[..num]) && comp.For(m)
    modifies out, comp
    ensures n == (num + 1) / 2
    ensures out[off..off + n] == PairUp(m, child[..num])
    ensures UnchangedOutside(out, off, n)
    ensures Added(old(comp.log), comp.log, input, at, if num > 2 then |input| else |input| + 1)
  {
    hide PairUp, HashManyAt, HashesPiece, Added, Cut, PairPiece, Compressor.For;
    var parents := WholePairs(child, num);
    ghost var cvs := child[..num];
    n := |parents|;
    HashParents(m, comp, parents, out, off, cvs, input, at);
    if num > 2 * n {
      out[off + n] := child[2 * n];
      n := n + 1;
    }
    BatchIsPairUp(m, cvs, out[off..off + n]);
  }

  method HashParents(m: Mode, comp: Compressor, parents: seq<seq<byte>>, out: array<CV>, off: nat,
                     ghost cvs: seq<CV>, ghost input: seq<byte>, ghost at: nat)
    requires 2 * |parents| <= |cvs| && Cut(m, input, at, cvs) && comp.For(m)
    requires forall i :: 0 <= i < |parents| ==> parents[i] == ParentBlock(cvs[2 * i], cvs[2 * i + 1])
    requires off + |parents| <= out.Length
    modifies out, comp
    ensures forall i :: 0 <= i < |parents| ==>
      out[off + i] == HashManyAt(m, ParentBlock(cvs[2 * i], cvs[2 * i + 1]), 0, false, i, m.flags | PARENT, 0, 0)
    ensures UnchangedOutside(out, off, |parents|)
    ensures Added(old(comp.log), comp.log, input, at, if |cvs| > 2 then |input| else |input| + 1)
  {
    hide HashManyAt, Added, HashesPiece, Cut, PairPiece, Compressor.For;
    ghost var bound := if |cvs| > 2 then |input| else |input| + 1;
    forall i | 0 <= i < |parents|
      ensures HashesPiece(m, parents[i], 0, false, i, m.flags | PARENT, 0, 0,
                          PairPiece(input, at, |cvs|, i), input, at, bound)
    {
      ParentHashesPiece(m, cvs, i, input, at);
    }
    HashMany(m, comp, parents, 1, 0, false, m.flags | PARENT, 0, 0, out, off,
             PairPieces(input, at, |cvs|, |parents|), input, at, bound);
  }

  // ---------- The recursive wide compressor ----------

  /** What the CVs of a subtree promise: they cut its tree, a chunk's being its own CV and those
      of more than a chunk at least two. */
  ghost predicate Folds(m: Mode, input: seq<byte>, at: nat, cvs: seq<CV>) {
    && Cut(m, input, at, cvs)
    && (|input| <= 1024 ==> |cvs| == 1)
    && (|input| > 1024 ==> |cvs| >= 2)
  }

  /** Folded as a tree they give the subtree's CV, and those of more than a chunk its node. */
  lemma FoldsToSubtree(m: Mode, input: seq<byte>, at: nat, cvs: seq<CV>)
    requires Folds(m, input, at, cvs)
    ensures cvs != [] && FoldTree(m, cvs) == SubtreeCv(m, input, at)
    ensures |input| > 1024 ==> |cvs| >= 2 && FoldOutput(m, cvs) == NodeOutput(m, input, at)
  {
    hide *;
    CutOfFolds(m, input, at, cvs);
    CutFolds(m, input, at, cvs);
  }

  lemma CutOfFolds(m: Mode, input: seq<byte>, at: nat, cvs: seq<CV>)
    requires Folds(m, input, at, cvs)
    ensures Cut(m, input, at, cvs)
    ensures |input| <= 1024 ==> |cvs| == 1
    ensures |input| > 1024 ==> |cvs| >= 2
  {
    hide Cut;
  }

  /** A whole power of two of chunks, at least one per lane, gives exactly one CV per lane. */
  ghost predicate FillsLanes(len: nat, degree: nat, n: nat) {
    IsPow2(len) && len >= 1024 * degree && len > 1024 ==> n == AtLeastTwo(degree)
  }

  lemma ChunksFold(m: Mode, input: seq<byte>, at: nat, degree: nat)
    requires input != [] && |input| <= 1024 * degree
    ensures var cvs := ChunkCvs(m, input, at);
      Folds(m, input, at, cvs) && |cvs| <= degree && FillsLanes(|input|, degree, |cvs|)
  {
    hide Cut, ChunkCvs, IsPow2;
    ChunkCvsCut(m, input, at);
    ChunkCvsLength(m, input, at);
  }

  /** left_len: rounding the whole chunks before the last byte down to a power of two. */
  method LeftLenOf(len: nat) returns (l: nat)
    requires 1024 < len < SIZE_LIMIT
    ensures l == LeftLen(len)
  {
    assert IsPow2(1024);
    Pow2FloorShift(len - 1, 1024);
    var fullChunks := (len - 1) / 1024;
    var p := RoundDownToPowerOf2(fullChunks);
    l := p * 1024;
  }

  /** With more than one chunk per lane, the left subtree has at least one chunk per lane; and
      if the whole is a power of two, both halves are. */
  lemma LeftFillsLanes(len: nat, degree: nat)
    requires IsPow2(degree) && len > 1024 * degree
    ensures 1 <= degree && len > 1024
    ensures IsPow2(LeftLen(len)) && LeftLen(len) >= 1024 * degree
    ensures IsPow2(len) ==> len - LeftLen(len) == LeftLen(len)
  {
    var l := LeftLen(len);
    Times1024IsPow2(degree);
    if l < 1024 * degree {
      Pow2Doubles(l, 1024 * degree);
    }
    if IsPow2(len) {
      Pow2FloorUnique(len - 1, len / 2);
    }
  }

  lemma Times1024IsPow2(p: nat)
    requires IsPow2(p)
    ensures IsPow2(1024 * p) && 1 <= p
  {
    hide IsPow2;
    Pow2Positive(p);
    Times32IsPow2(p);
    Times32IsPow2(32 * p);
  }

  lemma Times32IsPow2(p: nat)
    requires IsPow2(p)
    ensures IsPow2(32 * p)
  {
    hide IsPow2;
    Pow2Positive(p);
    Pow2Positive(2 * p);
    Pow2Positive(4 * p);
    Pow2Positive(8 * p);
    Pow2Positive(16 * p);
  }

  /** Left and right CVs side by side fold to the whole; so does the next layer of parents. */
  lemma JoinFolds(m: Mode, input: seq<byte>, at: nat, left: seq<CV>, right: seq<CV>)
    requires |input| > 1024
    requires var l := LeftLen(|input|);
      Folds(m, input[..l], at, left) && Folds(m, input[l..], at + l, right)
    requires IsPow2(|left|) && |right| <= |left|
    ensures Folds(m, input, at, left + right)
    ensures |left| > 1 ==> Folds(m, input, at, PairUp(m, left + right))
  {
    hide Cut, PairUp, IsPow2, LeftLen;
    Pow2Positive(|left|);
    CutUnfold(m, input[LeftLen(|input|)..], at + LeftLen(|input|), right);
    CutJoin(m, input, at, left, right);
    PairUpCut(m, input, at, left + right);
  }

  /** The lanes used by the left half: one CV per lane, or a single chunk's CV. */
  lemma LeftIsPow2(leftLen: nat, degree: nat, leftN: nat)
    requires IsPow2(degree) && IsPow2(leftLen) && leftLen >= 1024 * degree && leftLen >= 1024
    requires leftLen <= 1024 ==> leftN == 1
    requires FillsLanes(leftLen, degree, leftN)
    ensures leftN == if leftLen > 1024 then AtLeastTwo(degree) else degree
    ensures IsPow2(leftN)
  {
  }

  /** A layer of parents over full lanes on both sides gives full lanes again. */
  lemma LanesStayFull(len: nat, degree: nat, leftN: nat, rightN: nat)
    requires IsPow2(degree) && len > 1024 * degree
    requires FillsLanes(LeftLen(len), degree, leftN) && FillsLanes(len - LeftLen(len), degree, rightN)
    requires leftN <= AtLeastTwo(degree) && rightN <= AtLeastTwo(degree)
    ensures leftN > 1 && LeftLen(len) > 1024 ==> FillsLanes(len, degree, (leftN + rightN + 1) / 2)
    ensures LeftLen(len) <= 1024 ==> FillsLanes(len, degree, 2)
  {
    hide IsPow2, LeftLen;
    LeftFillsLanes(len, degree);
    Pow2Positive(degree);
  }

  /** blake3_compress_subtree_wide: at most one CV per lane (but at least two above one
      chunk) that fold to the subtree, whatever power of two the degree is. */
  method CompressSubtreeWide(m: Mode, comp: Compressor, degree: nat, maxDegree: nat, input: seq<byte>, counter: nat,
                             ghost at: nat, out: array<CV>, off: nat) returns (n: nat)
    requires IsPow2(degree) && degree <= maxDegree
    requires 0 < |input| < SIZE_LIMIT && at % 1024 == 0 && counter == at / 1024 && comp.For(m)
    requires off + AtLeastTwo(degree) <= out.Length
    modifies out, comp
    ensures 1 <= n <= AtLeastTwo(degree)
    ensures Folds(m, input, at, out[off..off + n]) && FillsLanes(|input|, degree, n)
    ensures UnchangedOutside(out, off, n)
    ensures Added(old(comp.log), comp.log, input, at, TreeBound(|input|))
    decreases |input|, 1
  {
    hide Folds, FillsLanes, IsPow2, LeftLen, AtLeastTwo, ChunkCvs, Added, Compressor.For;
    Pow2Positive(degree);
    TwoAndDegree(degree, maxDegree);
    if |input| <= degree * 1024 {
      ChunksFold(m, input, at, degree);
      ChunkCvsLength(m, input, at);
      n := CompressChunksParallel(m, comp, input, counter, at, out, off);
      return;
    }
    LeftFillsLanes(|input|, degree);
    LeftLenSizes(|input|);
    var cvArray := new CV[2 * AtLeastTwo(maxDegree)];
    var leftN, rightN := CompressHalves(m, comp, degree, maxDegree, input, counter, at, cvArray);
    ghost var log := comp.log;
    n := CombineHalves(m, comp, degree, input, at, cvArray, leftN, rightN, out, off);
    AddedThen(old(comp.log), log, comp.log, input, at, |input|);
  }

  /** The two recursive calls: the right CVs start where the left ones end. */
  method CompressHalves(m: Mode, comp: Compressor, degree: nat, maxDegree: nat, input: seq<byte>, counter: nat,
                        ghost at: nat, cvArray: array<CV>) returns (leftN: nat, rightN: nat)
    requires IsPow2(degree) && degree <= maxDegree && cvArray.Length == 2 * AtLeastTwo(maxDegree)
    requires 1024 * degree < |input| < SIZE_LIMIT && 1024 < |input|
    requires at % 1024 == 0 && counter == at / 1024 && comp.For(m)
    modifies cvArray, comp
    ensures 1 <= rightN <= leftN <= AtLeastTwo(degree) && IsPow2(leftN)
    ensures leftN == if LeftLen(|input|) > 1024 then AtLeastTwo(degree) else degree
    ensures Folds(m, input[..LeftLen(|input|)], at, cvArray[..leftN])
    ensures Folds(m, input[LeftLen(|input|)..], at + LeftLen(|input|), cvArray[leftN..leftN + rightN])
    ensures FillsLanes(|input| - LeftLen(|input|), degree, rightN) && FillsLanes(LeftLen(|input|), degree, leftN)
    ensures Added(old(comp.log), comp.log, input, at, |input|)
    decreases |input|, 0
  {
    hide Folds, FillsLanes, IsPow2, LeftLen, AtLeastTwo, Added, Compressor.For;
    LeftFillsLanes(|input|, degree);
    LeftLenSizes(|input|);
    var leftLen := LeftLenOf(|input|);
    var left, right := input[..leftLen], input[leftLen..];
    var rightCounter := counter + leftLen / 1024;
    TwoAndDegree(degree, maxDegree);
    var adjusted := if leftLen > 1024 && degree == 1 then 2 else degree;
    leftN := CompressSubtreeWide(m, comp, degree, maxDegree, left, counter, at, cvArray, 0);
    ghost var log := comp.log;
    FoldsSizes(m, left, at, cvArray[0..leftN]);
    LeftIsPow2(leftLen, degree, leftN);
    ghost var leftCvs := cvArray[..leftN];
    rightN := CompressSubtreeWide(m, comp, degree, maxDegree, right, rightCounter, at + leftLen, cvArray, adjusted);
    FoldsSizes(m, right, at + leftLen, cvArray[adjusted..adjusted + rightN]);
    assert cvArray[..leftN] == leftCvs;
    HalvesAdded(old(comp.log), log, comp.log, input, leftLen, at);
  }

  lemma HalvesAdded(a: seq<Entry>, b: seq<Entry>, c: seq<Entry>, input: seq<byte>, l: nat, at: nat)
    requires 0 < l < |input|
    requires Added(a, b, input[..l], at, TreeBound(l)) && Added(b, c, input[l..], at + l, TreeBound(|input| - l))
    ensures Added(a, c, input, at, |input|)
  {
    hide Added, PartOf;
    PartsOf(input, l, at);
    AddedWithin(a, b, input[..l], at, TreeBound(l), input, at, |input|);
    AddedWithin(b, c, input[l..], at + l, TreeBound(|input| - l), input, at, |input|);
    AddedThen(a, b, c, input, at, |input|);
  }

  lemma TwoAndDegree(degree: nat, maxDegree: nat)
    requires 1 <= degree <= maxDegree
    ensures 2 <= AtLeastTwo(degree) <= AtLeastTwo(maxDegree) && degree <= AtLeastTwo(degree)
    ensures degree == 1 ==> AtLeastTwo(degree) == 2
    ensures degree > 1 ==> AtLeastTwo(degree) == degree
  {
  }

  lemma EvenCapacity(maxDegree: nat)
    requires IsPow2(maxDegree)
    ensures AtLeastTwo(maxDegree) % 2 == 0
  {
  }

  lemma FoldsSizes(m: Mode, input: seq<byte>, at: nat, cvs: seq<CV>)
    requires Folds(m, input, at, cvs)
    ensures |input| <= 1024 ==> |cvs| == 1
    ensures |input| > 1024 ==> |cvs| >= 2
  {
  }

  method CopyTwo(left: CV, right: CV, out: array<CV>, off: nat)
    requires off + 2 <= out.Length
    modifies out
    ensures out[off..off + 2] == [left, right] && UnchangedOutside(out, off, 2)
  {
    out[off], out[off + 1] := left, right;
  }

  /** One CV on each side is passed on as it is; otherwise one layer of parents is formed. */
  method CombineHalves(m: Mode, comp: Compressor, degree: nat, ghost input: seq<byte>, ghost at: nat, cvArray: array<CV>,
                       leftN: nat, rightN: nat, out: array<CV>, off: nat) returns (n: nat)
    requires 1024 * degree < |input| && 1024 < |input| && IsPow2(degree) && comp.For(m)
    requires cvArray != out && leftN + rightN <= cvArray.Length && off + AtLeastTwo(degree) <= out.Length
    requires 1 <= rightN <= leftN <= AtLeastTwo(degree) && IsPow2(leftN)
    requires leftN == if LeftLen(|input|) > 1024 then AtLeastTwo(degree) else degree
    requires Folds(m, input[..LeftLen(|input|)], at, cvArray[..leftN])
    requires Folds(m, input[LeftLen(|input|)..], at + LeftLen(|input|), cvArray[leftN..leftN + rightN])
    requires FillsLanes(|input| - LeftLen(|input|), degree, rightN) && FillsLanes(LeftLen(|input|), degree, leftN)
    modifies out, comp
    ensures 1 <= n <= AtLeastTwo(degree)
    ensures Folds(m, input, at, out[off..off + n]) && FillsLanes(|input|, degree, n)
    ensures UnchangedOutside(out, off, n)
    ensures Added(old(comp.log), comp.log, input, at, |input|)
  {
    hide *;
    Pow2Positive(degree);
    TwoAndDegree(degree, degree);
    LeftFillsLanes(|input|, degree);
    LeftLenSizes(|input|);
    ghost var leftCvs, rightCvs := cvArray[..leftN], cvArray[leftN..leftN + rightN];
    FoldsSizes(m, input[..LeftLen(|input|)], at, leftCvs);
    JoinFolds(m, input, at, leftCvs, rightCvs);
    LanesStayFull(|input|, degree, leftN, rightN);
    assert cvArray[..leftN + rightN] == leftCvs + rightCvs;
    if leftN == 1 {
      CopyTwo(cvArray[0], cvArray[1], out, off);
      n := 2;
      assert cvArray[..2] == [cvArray[0], cvArray[1]];
      AddedNone(comp.log, input, at, |input|);
    } else {
      CutOfFolds(m, input, at, leftCvs + rightCvs);
      n := CompressParentsParallel(m, comp, cvArray, leftN + rightN, out, off, input, at);
    }
  }

  /** compress_subtree_to_parent_node: condense until two CVs are left. They are the children
      of the subtree's root, which itself is not compressed. */
  method CompressSubtreeToParentNode(m: Mode, comp: Compressor, degree: nat, maxDegree: nat, input: seq<byte>, counter: nat,
                                     ghost at: nat) returns (left: CV, right: CV)
    requires IsPow2(degree) && IsPow2(maxDegree) && degree <= maxDegree
    requires 1024 < |input| < SIZE_LIMIT && at % 1024 == 0 && counter == at / 1024 && comp.For(m)
    modifies comp
    ensures left == SubtreeCv(m, input[..LeftLen(|input|)], at)
    ensures right == SubtreeCv(m, input[LeftLen(|input|)..], at + LeftLen(|input|))
    ensures Added(old(comp.log), comp.log, input, at, |input|)
  {
    hide Folds, IsPow2, LeftLen, AtLeastTwo, FillsLanes, SubtreeCv, PairUp, Added, Cut, Compressor.For;
    Pow2Positive(degree);
    TwoAndDegree(degree, maxDegree);
    EvenCapacity(maxDegree);
    var cvArray := new CV[AtLeastTwo(maxDegree)];
    var outArray := new CV[AtLeastTwo(maxDegree) / 2];
    var num := CompressSubtreeWide(m, comp, degree, maxDegree, input, counter, at, cvArray, 0);
    FoldsSizes(m, input, at, cvArray[0..num]);
    assert cvArray[0..num] == cvArray[..num];
    while num > 2
      invariant 2 <= num <= cvArray.Length && Folds(m, input, at, cvArray[..num])
      invariant Added(old(comp.log), comp.log, input, at, |input|)
    {
      ghost var cvs, log := cvArray[..num], comp.log;
      PairUpKeepsFolds(m, input, at, cvs);
      CutOfFolds(m, input, at, cvs);
      num := CompressParentsParallel(m, comp, cvArray, num, outArray, 0, input, at);
      AddedThen(old(comp.log), log, comp.log, input, at, |input|);
      assert outArray[0..num] == PairUp(m, cvs);
      forall i | 0 <= i < num { cvArray[i] := outArray[i]; }
      assert cvArray[..num] == PairUp(m, cvs);
    }
    TwoFolds(m, input, at, cvArray[..num]);
    left, right := cvArray[0], cvArray[1];
  }

  lemma PairUpKeepsFolds(m: Mode, input: seq<byte>, at: nat, cvs: seq<CV>)
    requires Folds(m, input, at, cvs) && |cvs| > 2
    ensures Folds(m, input, at, PairUp(m, cvs))
  {
    hide Cut, PairUp;
    PairUpCut(m, input, at, cvs);
  }

  lemma TwoFolds(m: Mode, input: seq<byte>, at: nat, cvs: seq<CV>)
    requires |input| > 1024 && Folds(m, input, at, cvs) && |cvs| == 2
    ensures cvs[0] == SubtreeCv(m, input[..LeftLen(|input|)], at)
    ensures cvs[1] == SubtreeCv(m, input[LeftLen(|input|)..], at + LeftLen(|input|))
  {
    hide *;
    CutOfFolds(m, input, at, cvs);
    CutTwo(m, input, at, cvs);
  }
}
