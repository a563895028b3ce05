/** The incremental hasher: any sequence of updates refines the recursive tree hash. */
module Blake3Hasher {
  import opened Bits
  import opened Bytes
  import opened Blake3Spec
  import opened Blake3Compressor
  import opened Blake3Forest
  import opened Blake3Chunk
  import opened Blake3Subtree
  import opened Blake3Stack
  import opened Blake3Output

  /** A hasher with room for depth + 1 chaining values can absorb fewer bytes than this,
      however they are cut up. */
  ghost function Capacity(depth: nat): nat {
    1024 * Pow2(depth + 1)
  }

  /** The top two CVs are the unmerged halves of one subtree of 2 * half bytes. */
  ghost predicate TwoHalves(m: Mode, s: seq<byte>, half: nat, cvs: seq<CV>) {
    Pending(m, s, half, cvs) && !Aligned(|s| - half, 2 * half)
  }

  /** The stack between two updates. With bytes in the chunk state it is the merged forest of
      the finished chunks; with none (and some chunks) two halves are left unmerged. */
  ghost predicate Settled(m: Mode, finished: seq<byte>, fed: seq<byte>, half: nat, cvs: seq<CV>) {
    if fed != [] then cvs == Forest(m, finished, 0)
    else if finished == [] then cvs == []
    else TwoHalves(m, finished, half, cvs)
  }

  /** p is an admissible subtree size: a power of two that fits and divides the bytes so far. */
  ghost predicate Admissible(p: nat, inputLen: nat, countSoFar: nat) {
    IsPow2(p) && p <= inputLen && Aligned(countSoFar, p)
  }

  /** The subtree splitter picks the largest admissible size, never less than a chunk. */
  method PickSubtree(inputLen: nat, countSoFar: nat) returns (subtreeLen: nat)
    requires 1024 < inputLen < SIZE_LIMIT && countSoFar % 1024 == 0
    ensures Admissible(subtreeLen, inputLen, countSoFar) && 1024 <= subtreeLen
    ensures forall p: nat :: Admissible(p, inputLen, countSoFar) ==> p <= subtreeLen
  {
    hide IsPow2, Aligned, Admissible;
    subtreeLen := RoundDownToPowerOf2(inputLen);
    FloorIsLargest(inputLen, countSoFar);
    MaskTest(subtreeLen, inputLen, countSoFar);
    while BitAnd(subtreeLen - 1, countSoFar) != 0
      invariant IsPow2(subtreeLen) && 1024 <= subtreeLen <= inputLen
      invariant forall p: nat :: Admissible(p, inputLen, countSoFar) ==> p <= subtreeLen
      invariant BitAnd(subtreeLen - 1, countSoFar) == 0 <==> Admissible(subtreeLen, inputLen, countSoFar)
      decreases subtreeLen
    {
      HalvingKeepsLargest(subtreeLen, inputLen, countSoFar);
      subtreeLen := subtreeLen / 2;
      MaskTest(subtreeLen, inputLen, countSoFar);
    }
  }

  /** The splitter's choice, and the sizes that go with it. */
  method PickAt(inputLen: nat, countSoFar: nat) returns (p: nat)
    requires 1024 < inputLen < SIZE_LIMIT && countSoFar % 1024 == 0
    ensures Admissible(p, p, countSoFar) && 1024 <= p <= inputLen && (countSoFar + p) % 1024 == 0
    ensures (countSoFar + p) / 1024 == countSoFar / 1024 + p / 1024
    ensures inputLen == 2048 && countSoFar % 2048 == 0 ==> p == 2048
  {
    hide *;
    p := PickSubtree(inputLen, countSoFar);
    PicksTwoChunks(inputLen, countSoFar, p);
    SubtreeSizes(p, inputLen, countSoFar);
    AdmissibleAnywhere(p, inputLen, countSoFar);
  }

  lemma FloorIsLargest(n: nat, countSoFar: nat)
    requires n > 1024
    ensures Pow2Floor(n) >= 1024
    ensures forall p: nat :: Admissible(p, n, countSoFar) ==> p <= Pow2Floor(n)
  {
    hide Pow2Floor, IsPow2, Aligned;
    ChunkAligned(0);
    if Pow2Floor(n) < 1024 {
      Pow2Doubles(Pow2Floor(n), 1024);
    }
    forall p: nat | Admissible(p, n, countSoFar)
      ensures p <= Pow2Floor(n)
    {
      if p > Pow2Floor(n) {
        Pow2Doubles(Pow2Floor(n), p);
      }
    }
  }

  /** The bit mask test is the divisibility test. */
  lemma MaskTest(p: nat, inputLen: nat, countSoFar: nat)
    requires IsPow2(p) && p <= inputLen
    ensures 1 <= p && (BitAnd(p - 1, countSoFar) == 0 <==> Admissible(p, inputLen, countSoFar))
  {
    hide BitAnd, Aligned;
    MaskIsMod(p, countSoFar);
    AlignedIsMod(countSoFar, p);
  }

  lemma HalvingKeepsLargest(p: nat, inputLen: nat, countSoFar: nat)
    requires IsPow2(p) && 1024 <= p <= inputLen && countSoFar % 1024 == 0 && !Admissible(p, inputLen, countSoFar)
    ensures IsPow2(p / 2) && p / 2 >= 1024
    ensures forall q: nat :: Admissible(q, inputLen, countSoFar) && q <= p ==> q <= p / 2
  {
    hide Aligned;
    ChunkAligned(countSoFar);
    Pow2Doubles(1024, p);
    hide IsPow2;
    forall q: nat | Admissible(q, inputLen, countSoFar) && q <= p
      ensures q <= p / 2
    {
      Pow2Doubles(q, p);
    }
  }

  lemma LazyLength(m: Mode, s: seq<byte>, b: nat, cvs: seq<CV>)
    requires |s| % 1024 == 0 && Lazy(m, s, b, cvs)
    ensures PopCount(|s|) == PopCount(|s| / 1024)
    ensures b == 0 ==> |cvs| == PopCount(|s|) && cvs == Forest(m, s, 0)
    ensures b != 0 ==> Pending(m, s, b, cvs)
  {
    hide Forest, SubtreeCv, Pending, PopCount;
    PopCountChunks(|s| / 1024);
    ForestLength(m, s, 0);
  }

  class Hasher {
    const m: Mode
    const degree: nat
    const maxDegree: nat
    const maxDepth: nat
    const comp: Compressor
    const chunk: ChunkState
    const cvStack: array<CV>
    var cvStackLen: nat
    ghost var absorbed: seq<byte>
    ghost var finished: nat
    ghost var half: nat

    ghost predicate Shape()
      reads this, chunk, chunk.buf
    {
      && comp.For(m) && chunk.m == m && chunk.comp == comp && chunk.Valid()
      && IsPow2(degree) && IsPow2(maxDegree) && degree <= maxDegree
      && cvStack.Length == maxDepth + 1 && cvStackLen <= maxDepth + 1
    }

    /** The bytes absorbed so far are the finished chunks followed by the chunk state. */
    ghost predicate Accounted()
      reads this, chunk
    {
      && |absorbed| < Capacity(maxDepth) && finished <= |absorbed| && finished % 1024 == 0
      && chunk.fed == absorbed[finished..] && |chunk.fed| <= 1024 && chunk.counter == finished / 1024
    }

    /** The root of what is absorbed has not been compressed except for output. */
    ghost predicate Valid()
      reads this, chunk, chunk.buf, cvStack, comp
    {
      && Shape() && Accounted() && Settled(m, absorbed[..finished], chunk.fed, half, cvStack[..cvStackLen])
      && Sealed(comp.log, absorbed)
    }

    /** hasher_init_base */
    constructor (m: Mode, primitive: Primitive, degree: nat, maxDegree: nat, maxDepth: nat)
      requires primitive == m.compress
      requires IsPow2(degree) && IsPow2(maxDegree) && degree <= maxDegree
      ensures Valid() && absorbed == [] && comp.log == []
      ensures fresh(chunk) && fresh(chunk.buf) && fresh(cvStack) && fresh(comp)
      ensures this.m == m && this.degree == degree && this.maxDegree == maxDegree && this.maxDepth == maxDepth
    {
      this.m, this.degree, this.maxDegree, this.maxDepth := m, degree, maxDegree, maxDepth;
      var c := new Compressor(m, primitive);
      comp := c;
      chunk := new ChunkState(m, c);
      cvStack := new CV[maxDepth + 1];
      cvStackLen := 0;
      absorbed, finished, half := [], 0, 0;
    }

    /** hasher_merge_cv_stack: merge the top two while there are more CVs than one bits. Only
        nodes of the first n bytes are merged, of which more are known, so none is the root. */
    method MergeCvStack(totalChunks: nat, ghost all: seq<byte>, ghost n: nat, ghost b: nat)
      requires n < |all| && comp.For(m)
      requires cvStackLen <= cvStack.Length
      requires n % 1024 == 0 && totalChunks == n / 1024
      requires Lazy(m, all[..n], b, cvStack[..cvStackLen])
      modifies `cvStackLen, cvStack, comp
      ensures cvStackLen <= cvStack.Length && cvStackLen == PopCount(totalChunks)
      ensures cvStack[..cvStackLen] == Forest(m, all[..n], 0)
      ensures Added(old(comp.log), comp.log, all, 0, |all|)
    {
      hide *;
      ghost var s := all[..n];
      var postMergeStackLen := Popcnt(totalChunks);
      LazyLength(m, s, b, cvStack[..cvStackLen]);
      ForestLength(m, s, 0);
      AddedNone(comp.log, all, 0, |all|);
      ghost var last := b;
      while cvStackLen > postMergeStackLen
        invariant cvStackLen <= cvStack.Length
        invariant last == 0 ==> cvStackLen == PopCount(|s|) && cvStack[..cvStackLen] == Forest(m, s, 0)
        invariant last != 0 ==> Pending(m, s, last, cvStack[..cvStackLen])
        invariant Added(old(comp.log), comp.log, all, 0, |all|)
      {
        ghost var log := comp.log;
        MergeDone(m, s, last, cvStack[..cvStackLen]);
        MergeTop(all, n, last);
        AddedThen(old(comp.log), log, comp.log, all, 0, |all|);
        last := 2 * last;
      }
      if last != 0 {
        MergeDone(m, s, last, cvStack[..cvStackLen]);
      }
    }

    /** One merge: the parent takes the place of its two children. */
    method MergeTop(ghost all: seq<byte>, ghost n: nat, ghost b: nat)
      requires n < |all| && comp.For(m) && cvStackLen <= cvStack.Length
      requires Pending(m, all[..n], b, cvStack[..cvStackLen]) && !Aligned(n - b, 2 * b)
      modifies `cvStackLen, cvStack, comp
      ensures cvStackLen == old(cvStackLen) - 1 && cvStackLen <= cvStack.Length
      ensures Pending(m, all[..n], 2 * b, cvStack[..cvStackLen])
      ensures Added(old(comp.log), comp.log, all, 0, |all|)
    {
      hide *;
      ghost var s, cvs := all[..n], cvStack[..cvStackLen];
      MergeStep(m, s, b, cvs);
      var output := ParentOutput(m, cvStack[cvStackLen - 2], cvStack[cvStackLen - 1]);
      var parent := comp.OutputCv(m, output, s[n - 2 * b..], n - 2 * b);
      AddedInPrefix(old(comp.log), comp.log, all, n, n - 2 * b);
      cvStack[cvStackLen - 2] := parent;
      cvStackLen := cvStackLen - 1;
      assert cvStack[..cvStackLen] == cvs[..|cvs| - 2] + [parent];
    }

    /** hasher_push_cv: merge what the previous CV completed, then put the new CV on top
        unmerged. The stack has room for it. The new CV is that of k bytes from n on. */
    method PushCv(newCv: CV, chunkCounter: nat, ghost all: seq<byte>, ghost n: nat, ghost b: nat, ghost k: nat)
      requires cvStackLen <= cvStack.Length == maxDepth + 1 && comp.For(m)
      requires n + k <= |all| && n + k < Capacity(maxDepth) && n % 1024 == 0 && chunkCounter == n / 1024
      requires Lazy(m, all[..n], b, cvStack[..cvStackLen])
      requires IsPow2(k) && k >= 1024 && Aligned(n, k) && newCv == SubtreeCv(m, all[n..n + k], n)
      modifies `cvStackLen, cvStack, comp
      ensures cvStackLen <= cvStack.Length
      ensures Lazy(m, all[..n + k], k, cvStack[..cvStackLen])
      ensures Added(old(comp.log), comp.log, all, 0, |all|)
    {
      hide *;
      MergeCvStack(chunkCounter, all, n, b);
      RoomForOne(n, k, maxDepth);
      ghost var cvs := cvStack[..cvStackLen];
      cvStack[cvStackLen] := newCv;
      cvStackLen := cvStackLen + 1;
      assert cvStack[..cvStackLen] == cvs + [newCv];
      assert all[..n] + all[n..n + k] == all[..n + k];
      PushLazy(m, all[..n], all[n..n + k], cvs);
    }

    /** In the middle of an update: of all the bytes, finished ones are on the stack, the
        chunk state is clear and rest is still to come. */
    ghost predicate Advancing(all: seq<byte>, rest: seq<byte>)
      reads this, chunk, chunk.buf, cvStack
    {
      && Shape() && chunk.fed == [] && |all| < Capacity(maxDepth)
      && finished <= |all| && finished % 1024 == 0 && chunk.counter == finished / 1024
      && rest == all[finished..] && Lazy(m, all[..finished], half, cvStack[..cvStackLen])
    }

    /** The chunk state is full and more input follows, so its chunk is not the root. */
    method FinishChunk(ghost all: seq<byte>, ghost rest: seq<byte>)
      requires Shape() && |chunk.fed| == 1024 && |all| < Capacity(maxDepth)
      requires finished + 1024 < |all| && finished % 1024 == 0 && chunk.counter == finished / 1024
      requires chunk.fed == all[finished..finished + 1024] && rest == all[finished + 1024..]
      requires Lazy(m, all[..finished], half, cvStack[..cvStackLen])
      modifies this, chunk, chunk.buf, cvStack, comp
      ensures Advancing(all, rest) && absorbed == old(absorbed)
      ensures Added(old(comp.log), comp.log, all, 0, |all|)
    {
      hide *;
      UseShape();
      ghost var piece := chunk.fed;
      ChunkAligned(finished);
      ChunkNode(m, piece, finished);
      var o := chunk.Finish();
      var chunkCv := comp.OutputCv(m, o, piece, finished);
      ghost var log := comp.log;
      AddedInPlace(old(comp.log), log, all, finished, 1024, 1025);
      PushCv(chunkCv, chunk.counter, all, finished, half, 1024);
      AddedThen(old(comp.log), log, comp.log, all, 0, |all|);
      chunk.Reset(chunk.counter + 1);
      finished, half := finished + 1024, 1024;
      IntoAdvancing(all, rest);
    }

    /** Both children of a subtree's root are pushed, so the second one stays unmerged. */
    method PushHalves(left: CV, right: CV, subtreeChunks: nat, ghost all: seq<byte>, ghost n: nat, ghost p: nat)
      requires cvStackLen <= cvStack.Length == maxDepth + 1 && comp.For(m)
      requires n + p <= |all| && n + p < Capacity(maxDepth) && n % 1024 == 0
      requires chunk.counter == n / 1024 && subtreeChunks == p / 1024
      requires Lazy(m, all[..n], half, cvStack[..cvStackLen])
      requires Admissible(p, p, n) && 1024 < p
      requires left == SubtreeCv(m, all[n..n + p][..LeftLen(p)], n)
      requires right == SubtreeCv(m, all[n..n + p][LeftLen(p)..], n + LeftLen(p))
      modifies `cvStackLen, cvStack, comp
      ensures cvStackLen <= cvStack.Length
      ensures TwoHalves(m, all[..n + p], p / 2, cvStack[..cvStackLen])
      ensures Lazy(m, all[..n + p], p / 2, cvStack[..cvStackLen])
      ensures Added(old(comp.log), comp.log, all, 0, |all|)
    {
      hide *;
      SubtreeSizes(p, p, n);
      UseHalves(p, n);
      ghost var h := p / 2;
      assert all[n..n + p][..h] == all[n..n + h] && all[n..n + p][h..] == all[n + h..n + h + h];
      PushCv(left, chunk.counter, all, n, half, h);
      ghost var log := comp.log;
      PushCv(right, chunk.counter + subtreeChunks / 2, all, n + h, h, h);
      AddedThen(old(comp.log), log, comp.log, all, 0, |all|);
      LazyTwoHalves(m, all[..n + p], h, cvStack[..cvStackLen]);
    }

    /** One subtree of the update loop: the largest one the splitter allows. */
    method AbsorbSubtree(rest: seq<byte>, ghost all: seq<byte>) returns (rest': seq<byte>)
      requires Advancing(all, rest) && 1024 < |rest| < SIZE_LIMIT
      modifies this, chunk`counter, cvStack, comp
      ensures Advancing(all, rest') && |rest'| < |rest| && absorbed == old(absorbed)
      ensures rest' == [] ==>
        finished == |all| && cvStackLen <= cvStack.Length && TwoHalves(m, all, half, cvStack[..cvStackLen])
      ensures Added(old(comp.log), comp.log, all, 0, |all|)
      ensures |rest| == 2048 && old(finished) % 2048 == 0 ==> rest' == [] && half == 1024
    {
      hide *;
      UseAdvancing(all, rest);
      var countSoFar := chunk.counter * 1024;
      var subtreeLen := PickAt(|rest|, countSoFar);
      var subtreeChunks := subtreeLen / 1024;
      var piece := rest[..subtreeLen];
      assert piece == all[finished..finished + subtreeLen];
      if subtreeLen <= 1024 {
        PushChunk(piece, all);
        half := 1024;
      } else {
        PushSubtree(piece, subtreeChunks, all);
        half := subtreeLen / 2;
      }
      chunk.Advance(subtreeChunks);
      finished := finished + subtreeLen;
      rest' := rest[subtreeLen..];
      assert finished == |all| ==> all[..finished] == all;
      IntoAdvancing(all, rest');
    }

    lemma UseShape()
      requires Shape()
      ensures comp.For(m) && chunk.m == m && chunk.comp == comp && chunk.Valid()
      ensures IsPow2(degree) && IsPow2(maxDegree) && degree <= maxDegree
      ensures cvStackLen <= cvStack.Length == maxDepth + 1
    {
      hide IsPow2, Represents, Compressor.For;
    }

    lemma IntoShape()
      requires comp.For(m) && chunk.m == m && chunk.comp == comp && chunk.Valid()
      requires IsPow2(degree) && IsPow2(maxDegree) && degree <= maxDegree
      requires cvStackLen <= cvStack.Length == maxDepth + 1
      ensures Shape()
    {
      hide IsPow2, Represents, Compressor.For;
    }

    lemma UseAccounted()
      requires Accounted()
      ensures finished <= |absorbed| < Capacity(maxDepth) && finished % 1024 == 0
      ensures chunk.fed == absorbed[finished..] && |chunk.fed| <= 1024 && chunk.counter == finished / 1024
    {
      hide Capacity;
    }

    lemma IntoAccounted()
      requires finished <= |absorbed| < Capacity(maxDepth) && finished % 1024 == 0
      requires chunk.fed == absorbed[finished..] && |chunk.fed| <= 1024 && chunk.counter == finished / 1024
      ensures Accounted()
    {
      hide Capacity;
    }

    lemma IntoTaken(all: seq<byte>)
      requires comp.For(m) && chunk.m == m && chunk.comp == comp && chunk.Valid()
      requires IsPow2(degree) && IsPow2(maxDegree) && degree <= maxDegree
      requires cvStackLen <= cvStack.Length == maxDepth + 1
      requires finished <= |all| < Capacity(maxDepth) && finished % 1024 == 0
      requires chunk.fed == all[finished..] && |chunk.fed| <= 1024 && chunk.counter == finished / 1024
      requires Settled(m, all[..finished], chunk.fed, half, cvStack[..cvStackLen])
      ensures Taken(all)
    {
      hide Settled, IsPow2, Represents, Capacity, Compressor.For;
    }

    lemma UseAdvancing(all: seq<byte>, rest: seq<byte>)
      requires Advancing(all, rest)
      ensures comp.For(m) && chunk.m == m && chunk.comp == comp && chunk.Valid() && chunk.fed == []
      ensures IsPow2(degree) && IsPow2(maxDegree) && degree <= maxDegree
      ensures cvStackLen <= cvStack.Length == maxDepth + 1
      ensures finished <= |all| < Capacity(maxDepth) && finished % 1024 == 0 && chunk.counter == finished / 1024
      ensures rest == all[finished..] && Lazy(m, all[..finished], half, cvStack[..cvStackLen])
    {
      hide Lazy, IsPow2, Represents, Capacity, Compressor.For;
    }

    lemma IntoAdvancing(all: seq<byte>, rest: seq<byte>)
      requires comp.For(m) && chunk.m == m && chunk.comp == comp && chunk.Valid() && chunk.fed == []
      requires IsPow2(degree) && IsPow2(maxDegree) && degree <= maxDegree
      requires cvStackLen <= cvStack.Length == maxDepth + 1
      requires finished <= |all| < Capacity(maxDepth) && finished % 1024 == 0 && chunk.counter == finished / 1024
      requires rest == all[finished..] && Lazy(m, all[..finished], half, cvStack[..cvStackLen])
      ensures Advancing(all, rest)
    {
      hide Lazy, IsPow2, Represents, Capacity, Compressor.For;
    }

    /** A single chunk: through a chunk state of its own, and onto the stack. */
    method PushChunk(piece: seq<byte>, ghost all: seq<byte>)
      requires |piece| == 1024 && finished + 1024 < |all| < Capacity(maxDepth) && piece == all[finished..finished + 1024]
      requires cvStackLen <= cvStack.Length == maxDepth + 1 && comp.For(m)
      requires finished % 1024 == 0 && chunk.counter == finished / 1024
      requires Lazy(m, all[..finished], half, cvStack[..cvStackLen])
      modifies `cvStackLen, cvStack, comp
      ensures cvStackLen <= cvStack.Length && Lazy(m, all[..finished + 1024], 1024, cvStack[..cvStackLen])
      ensures Added(old(comp.log), comp.log, all, 0, |all|)
    {
      hide *;
      ChunkAligned(finished);
      var cv := HashChunk(m, comp, piece, chunk.counter, finished);
      ghost var log := comp.log;
      AddedInPlace(old(comp.log), log, all, finished, 1024, 1025);
      PushCv(cv, chunk.counter, all, finished, half, 1024);
      AddedThen(old(comp.log), log, comp.log, all, 0, |all|);
    }

    /** A larger subtree: both children of its root, which itself is not compressed. */
    method PushSubtree(piece: seq<byte>, subtreeChunks: nat, ghost all: seq<byte>)
      requires 1024 < |piece| < SIZE_LIMIT && finished + |piece| <= |all| < Capacity(maxDepth)
      requires piece == all[finished..finished + |piece|] && subtreeChunks == |piece| / 1024
      requires cvStackLen <= cvStack.Length == maxDepth + 1 && comp.For(m)
      requires IsPow2(degree) && IsPow2(maxDegree) && degree <= maxDegree
      requires finished % 1024 == 0 && chunk.counter == finished / 1024 && Admissible(|piece|, |piece|, finished)
      requires Lazy(m, all[..finished], half, cvStack[..cvStackLen])
      modifies `cvStackLen, cvStack, comp
      ensures cvStackLen <= cvStack.Length
      ensures TwoHalves(m, all[..finished + |piece|], |piece| / 2, cvStack[..cvStackLen])
      ensures Lazy(m, all[..finished + |piece|], |piece| / 2, cvStack[..cvStackLen])
      ensures Added(old(comp.log), comp.log, all, 0, |all|)
    {
      hide *;
      var left, right := CompressSubtreeToParentNode(m, comp, degree, maxDegree, piece, chunk.counter, finished);
      ghost var log := comp.log;
      AddedInPlace(old(comp.log), log, all, finished, |piece|, |piece|);
      PushHalves(left, right, subtreeChunks, all, finished, |piece|);
      AddedThen(old(comp.log), log, comp.log, all, 0, |all|);
    }

    /** blake3_hasher_update: whatever the state and the cut, the input is absorbed; and only
        nodes shorter than everything then absorbed are compressed. */
    method Update(input: seq<byte>)
      requires Valid() && |absorbed| + |input| < Capacity(maxDepth) && |input| < SIZE_LIMIT
      modifies this, chunk, chunk.buf, cvStack, comp
      ensures Valid() && absorbed == old(absorbed) + input
      ensures Added(old(comp.log), comp.log, absorbed, 0, |absorbed|)
      ensures old(chunk.fed) == [] && old(finished) % 2048 == 0 && |input| == 2048 ==> chunk.fed == [] && half == 1024
    {
      hide *;
      Unfolded();
      if input == [] {
        AddedNone(comp.log, absorbed, 0, |absorbed|);
        return;
      }
      ghost var all := absorbed + input;
      SettledIsLazy(m, absorbed[..finished], chunk.fed, half, cvStack[..cvStackLen]);
      Absorb(input, all);
      SealedGrows(old(comp.log), old(absorbed), all);
      SealedAdded(old(comp.log), comp.log, all);
      Folded();
    }

    /** The body of an update with input. */
    method Absorb(input: seq<byte>, ghost all: seq<byte>)
      requires Shape() && Accounted() && input != [] && |input| < SIZE_LIMIT
      requires all == absorbed + input && |all| < Capacity(maxDepth)
      requires Lazy(m, absorbed[..finished], if chunk.fed != [] || finished == 0 then 0 else half, cvStack[..cvStackLen])
      modifies this, chunk, chunk.buf, cvStack, comp
      ensures Taken(all) && absorbed == all
      ensures Added(old(comp.log), comp.log, all, 0, |all|)
      ensures old(chunk.fed) == [] && old(finished) % 2048 == 0 && |input| == 2048 ==> chunk.fed == [] && half == 1024
    {
      hide *;
      UseShape();
      UseAccounted();
      AddedNone(comp.log, all, 0, |all|);
      assert all[..finished] == absorbed[..finished];
      half := if chunk.fed != [] || finished == 0 then 0 else half;
      var rest := input;
      if chunk.Len() > 0 {
        IntoShape();
        IntoAccounted();
        rest := FillChunk(input, all);
        if rest == [] {
          MoreTaken(all);
          return;
        }
      }
      if chunk.fed == [] && old(chunk.fed) == [] {
        assert rest == all[finished..];
        IntoAdvancing(all, rest);
      }
      ghost var exact := old(chunk.fed) == [] && old(finished) % 2048 == 0 && |input| == 2048;
      while |rest| > 1024
        invariant Advancing(all, rest) && absorbed == old(absorbed) && |rest| < SIZE_LIMIT
        invariant rest == [] ==>
          finished == |all| && cvStackLen <= cvStack.Length && TwoHalves(m, all, half, cvStack[..cvStackLen])
        invariant Added(old(comp.log), comp.log, all, 0, |all|)
        invariant exact ==> (|rest| == 2048 && finished % 2048 == 0) || (rest == [] && half == 1024)
      {
        ghost var log := comp.log;
        rest := AbsorbSubtree(rest, all);
        AddedThen(old(comp.log), log, comp.log, all, 0, |all|);
      }
      ghost var log := comp.log;
      KeepRest(rest, all);
      AddedThen(old(comp.log), log, comp.log, all, 0, |all|);
      MoreTaken(all);
    }

    /** Account for the new bytes. */
    ghost method MoreTaken(all: seq<byte>)
      requires Taken(all)
      modifies `absorbed
      ensures Taken(all) && absorbed == all
    {
      hide Settled, IsPow2, Represents, Capacity, Compressor.For;
      absorbed := all;
    }

    /** All of the input is on the stack or in the chunk state. */
    ghost predicate Taken(all: seq<byte>)
      reads this, chunk, chunk.buf, cvStack
    {
      && Shape() && |all| < Capacity(maxDepth) && finished <= |all| && finished % 1024 == 0
      && chunk.fed == all[finished..] && |chunk.fed| <= 1024 && chunk.counter == finished / 1024
      && Settled(m, all[..finished], chunk.fed, half, cvStack[..cvStackLen])
    }

    lemma Folded()
      requires Taken(absorbed) && Sealed(comp.log, absorbed)
      ensures Valid()
    {
      hide Settled, IsPow2, Represents, Sealed, Capacity, Compressor.For;
    }

    /** What is left of the input goes to the chunk state; then no merge is pending. */
    method KeepRest(rest: seq<byte>, ghost all: seq<byte>)
      requires Advancing(all, rest) && |rest| <= 1024 && all != []
      requires rest == [] ==> TwoHalves(m, all, half, cvStack[..cvStackLen])
      modifies this, chunk, chunk.buf, cvStack, comp
      ensures Taken(all) && absorbed == old(absorbed)
      ensures Added(old(comp.log), comp.log, all, 0, |all|)
      ensures rest == [] ==> chunk.fed == [] && half == old(half)
    {
      hide *;
      UseAdvancing(all, rest);
      AddedNone(comp.log, all, 0, |all|);
      if rest != [] {
        assert [] + rest == rest;
        chunk.Update(rest);
        ghost var log := comp.log;
        AddedInner(old(comp.log), log, all, 0, |all|);
        MergeCvStack(chunk.counter, all, finished, half);
        AddedThen(old(comp.log), log, comp.log, all, 0, |all|);
      }
      SettledNow(m, all, finished, rest, half, cvStack[..cvStackLen]);
      IntoTaken(all);
    }

    /** Complete the partial chunk first; with input left over it is not the root. */
    method FillChunk(input: seq<byte>, ghost all: seq<byte>) returns (rest: seq<byte>)
      requires Shape() && Accounted() && half == 0 && Lazy(m, absorbed[..finished], 0, cvStack[..cvStackLen])
      requires chunk.fed != [] && input != [] && all == absorbed + input && |all| < Capacity(maxDepth)
      modifies this, chunk, chunk.buf, cvStack, comp
      ensures absorbed == old(absorbed) && |rest| <= |input|
      ensures rest != [] ==> Advancing(all, rest)
      ensures rest == [] ==> Taken(all)
      ensures Added(old(comp.log), comp.log, all, 0, |all|)
    {
      hide *;
      UseShape();
      UseAccounted();
      var take := 1024 - chunk.Len();
      if take > |input| {
        take := |input|;
      }
      chunk.Update(input[..take]);
      ghost var log := comp.log;
      AddedInner(old(comp.log), log, all, 0, |all|);
      rest := input[take..];
      FillSlices(absorbed, input, finished, take);
      if rest != [] {
        IntoShape();
        assert |absorbed| + take == finished + 1024;
        FinishChunk(all, rest);
        AddedThen(old(comp.log), log, comp.log, all, 0, |all|);
      } else {
        assert |absorbed| + take == |all| && all[finished..|all|] == all[finished..];
        LazyIsSettled(m, all[..finished], chunk.fed, half, cvStack[..cvStackLen]);
        IntoTaken(all);
      }
    }

    /** The node to start the roll-up from: the chunk state's, or the parent of the top two CVs. */
    method FirstOutput() returns (output: Output, cvsRemaining: nat, ghost lo: nat, ghost q: nat)
      requires Valid() && cvStackLen > 0
      ensures cvsRemaining <= cvStackLen <= cvStack.Length
      ensures Rolling(m, absorbed, lo, q, cvStack[..cvsRemaining], output)
    {
      hide *;
      Unfolded();
      ghost var cvs := cvStack[..cvStackLen];
      if chunk.Len() > 0 {
        SettledForest(m, absorbed[..finished], chunk.fed, half, cvs);
        RollFromChunk(m, absorbed, finished);
        cvsRemaining, lo, q := cvStackLen, finished, 1024;
        output := chunk.Finish();
      } else {
        assert absorbed[..finished] == absorbed;
        SettledHalves(m, absorbed, half, cvs);
        RollFromHalves(m, absorbed, half, cvs);
        cvsRemaining, lo, q := cvStackLen - 2, |absorbed| - 2 * half, 2 * half;
        output := ParentOutput(m, cvStack[cvsRemaining], cvStack[cvsRemaining + 1]);
        assert cvStack[..cvsRemaining] == cvs[..|cvs| - 2];
      }
    }

    /** The root node: the chunk state alone, or the stack rolled up from the right. Every node
        that is compressed on the way leaves something out on its left. */
    method RootOutput() returns (output: Output)
      requires Valid()
      modifies comp
      ensures output == NodeOutput(m, absorbed, 0)
      ensures Added(old(comp.log), comp.log, absorbed, 0, |absorbed|)
    {
      hide *;
      Unfolded();
      AddedNone(comp.log, absorbed, 0, |absorbed|);
      if cvStackLen == 0 {
        EmptyStack(m, absorbed[..finished], chunk.fed, half, cvStack[..cvStackLen]);
        ChunkNode(m, absorbed, 0);
        output := chunk.Finish();
        return;
      }
      var cvsRemaining: nat;
      ghost var lo: nat, q: nat;
      output, cvsRemaining, lo, q := FirstOutput();
      while cvsRemaining > 0
        invariant cvsRemaining <= cvStackLen <= cvStack.Length
        invariant Rolling(m, absorbed, lo, q, cvStack[..cvsRemaining], output)
        invariant Added(old(comp.log), comp.log, absorbed, 0, |absorbed|)
      {
        ghost var cvs, log := cvStack[..cvsRemaining], comp.log;
        cvsRemaining := cvsRemaining - 1;
        NotYetRoot(m, absorbed, lo, q, cvs, output);
        ghost var p := RollTop(m, absorbed, lo, q, cvs, output);
        var right := comp.OutputCv(m, output, absorbed[lo..], lo);
        AddedInRest(log, comp.log, absorbed, lo);
        AddedThen(old(comp.log), log, comp.log, absorbed, 0, |absorbed|);
        output := ParentOutput(m, cvStack[cvsRemaining], right);
        assert cvStack[..cvsRemaining] == cvs[..|cvs| - 1];
        lo, q := lo - p, 2 * p;
      }
      assert cvStack[..0] == [];
      RolledUp(m, absorbed, lo, q, output);
    }

    lemma Unfolded()
      requires Valid()
      ensures Shape() && Accounted() && finished <= |absorbed| && cvStackLen <= cvStack.Length == maxDepth + 1
      ensures Settled(m, absorbed[..finished], chunk.fed, half, cvStack[..cvStackLen])
      ensures absorbed == absorbed[..finished] + chunk.fed
      ensures comp.For(m) && chunk.m == m && chunk.Valid() && |chunk.fed| <= 1024 && chunk.fed == absorbed[finished..]
      ensures finished % 1024 == 0 && chunk.counter == finished / 1024
      ensures Sealed(comp.log, absorbed)
    {
      hide Settled, IsPow2, Represents, Sealed, Capacity, Compressor.For;
    }

    /** The stack's length: one CV per finished binary digit while the chunk state holds bytes;
        at least two when it is empty but chunks were absorbed; always within its slots. */
    lemma StackLength()
      requires Valid()
      ensures chunk.fed != [] ==> cvStackLen == PopCount(chunk.counter)
      ensures chunk.fed == [] && chunk.counter > 0 ==> cvStackLen >= 2
      ensures cvStackLen <= maxDepth + 1
    {
      hide *;
      Unfolded();
      SettledLength(m, absorbed[..finished], chunk.fed, half, cvStack[..cvStackLen]);
    }

    /** Lazy merging is safe, over every run: no node over all that is absorbed has been
        compressed to a chaining value, and root output was only made of messages that were all
        that was absorbed when it was asked for. */
    lemma RootNotCompressed(i: nat)
      requires Valid() && i < |comp.log|
      ensures match comp.log[i]
        case Inner => true
        case Node(at, piece) => |piece| < |absorbed| && PartOf(piece, at, absorbed, 0)
        case RootNode(piece) => piece <= absorbed
    {
      Unfolded();
    }

    /** blake3_hasher_finalize_seek: the hash of everything absorbed, whatever the updates were.
        The root of exactly these bytes is compressed, for output only, once for each block of
        output; besides it only shorter nodes are. */
    method FinalizeSeek(seek: nat, out: array<byte>, outLen: nat)
      requires Valid() && outLen <= out.Length && out != chunk.buf
      modifies out, comp
      ensures out[..outLen] == Hash(m, absorbed, seek, outLen)
      ensures out[outLen..] == old(out[outLen..])
      ensures Valid()
      ensures Finished(old(comp.log), comp.log, absorbed, BlocksTouched(seek, outLen))
    {
      hide *;
      Unfolded();
      if outLen == 0 {
        NoOutput(m, absorbed, seek, comp.log);
        return;
      }
      var output := RootOutput();
      ghost var log := comp.log;
      OutputRootBytes(m, comp, output, seek, out, outLen, absorbed);
      HashOfRoot(m, absorbed, seek, outLen);
      FinishedBy(old(comp.log), log, absorbed, BlocksTouched(seek, outLen));
      SealedFinished(old(comp.log), comp.log, absorbed, BlocksTouched(seek, outLen));
      TakenStays(absorbed);
      Folded();
    }

    twostate lemma TakenStays(all: seq<byte>)
      requires old(Valid()) && all == absorbed == old(absorbed)
      requires unchanged(this, chunk, chunk.buf, cvStack)
      ensures Taken(all)
    {
      hide Settled, IsPow2, Represents, Sealed, Capacity, Compressor.For;
    }
  }

  lemma NoOutput(m: Mode, all: seq<byte>, seek: nat, log: seq<Entry>)
    ensures Hash(m, all, seek, 0) == []
    ensures Finished(log, log, all, BlocksTouched(seek, 0))
  {
    hide NodeOutput;
    AddedNone(log, all, 0, |all|);
    assert log[..|log|] == log && Roots(all, 0) == [] == log[|log|..];
  }

  lemma HashOfRoot(m: Mode, all: seq<byte>, seek: nat, len: nat)
    ensures Hash(m, all, seek, len) == RootBytes(m, NodeOutput(m, all, 0), seek, len)
  {
  }

  lemma FinishedBy(a: seq<Entry>, b: seq<Entry>, all: seq<byte>, blocks: nat)
    requires Added(a, b, all, 0, |all|)
    ensures Finished(a, b + Roots(all, blocks), all, blocks)
  {
    hide Added, Roots;
    assert (b + Roots(all, blocks))[..|b|] == b;
    assert a <= b by { AddedKeeps(a, b, all, 0, |all|); }
  }

  lemma AddedKeeps(a: seq<Entry>, b: seq<Entry>, all: seq<byte>, base: nat, bound: nat)
    requires Added(a, b, all, base, bound)
    ensures a <= b
  {
  }

  /** The node over k bytes from n on, and those inside it, are shorter than everything if they
      are bounded so. */
  lemma AddedInPlace(a: seq<Entry>, b: seq<Entry>, all: seq<byte>, n: nat, k: nat, bound: nat)
    requires n + k <= |all| && bound <= |all| && Added(a, b, all[n..n + k], n, bound)
    ensures Added(a, b, all, 0, |all|)
  {
    hide Added;
    AddedWithin(a, b, all[n..n + k], n, bound, all, 0, |all|);
  }

  lemma AddedInRest(a: seq<Entry>, b: seq<Entry>, all: seq<byte>, lo: nat)
    requires 0 < lo <= |all| && Added(a, b, all[lo..], lo, |all[lo..]| + 1)
    ensures Added(a, b, all, 0, |all|)
  {
    assert all[lo..] == all[lo..|all|];
    AddedInPlace(a, b, all, lo, |all| - lo, |all| - lo + 1);
  }

  lemma AddedInPrefix(a: seq<Entry>, b: seq<Entry>, all: seq<byte>, n: nat, lo: nat)
    requires lo <= n < |all| && Added(a, b, all[..n][lo..], lo, |all[..n][lo..]| + 1)
    ensures Added(a, b, all, 0, |all|)
  {
    assert all[..n][lo..] == all[lo..n];
    AddedInPlace(a, b, all, lo, n - lo, n - lo + 1);
  }

  /** Two chunks at a multiple of two chunks are picked whole. */
  lemma PicksTwoChunks(inputLen: nat, countSoFar: nat, p: nat)
    requires Admissible(p, inputLen, countSoFar)
    requires forall q: nat :: Admissible(q, inputLen, countSoFar) ==> q <= p
    ensures inputLen == 2048 && countSoFar % 2048 == 0 ==> p == 2048
  {
    hide Aligned;
    if inputLen == 2048 && countSoFar % 2048 == 0 {
      AlignedIsMod(countSoFar, 2048);
      assert Admissible(2048, inputLen, countSoFar);
    }
  }

  lemma RoomForOne(n: nat, k: nat, depth: nat)
    requires n % 1024 == 0 && k >= 1024 && n + k < Capacity(depth)
    ensures PopCount(n / 1024) <= depth
  {
    hide PopCount, Pow2;
    StackRoom(n, depth);
  }

  lemma FillSlices(absorbed: seq<byte>, input: seq<byte>, finished: nat, take: nat)
    requires finished <= |absorbed| && take <= |input|
    ensures var all := absorbed + input;
      && all[..finished] == absorbed[..finished]
      && absorbed[finished..] + input[..take] == all[finished..|absorbed| + take]
      && input[take..] == all[|absorbed| + take..]
  {
  }

  lemma SettledIsLazy(m: Mode, finished: seq<byte>, fed: seq<byte>, half: nat, cvs: seq<CV>)
    requires Settled(m, finished, fed, half, cvs)
    ensures Lazy(m, finished, if fed != [] || |finished| == 0 then 0 else half, cvs)
  {
  }

  lemma LazyIsSettled(m: Mode, finished: seq<byte>, fed: seq<byte>, half: nat, cvs: seq<CV>)
    requires Lazy(m, finished, 0, cvs) && fed != []
    ensures Settled(m, finished, fed, half, cvs)
  {
  }

  lemma SettledNow(m: Mode, all: seq<byte>, finished: nat, fed: seq<byte>, half: nat, cvs: seq<CV>)
    requires finished <= |all| && all != [] && fed == all[finished..]
    requires fed != [] ==> cvs == Forest(m, all[..finished], 0)
    requires fed == [] ==> TwoHalves(m, all, half, cvs)
    ensures Settled(m, all[..finished], fed, half, cvs)
  {
    hide TwoHalves, Forest;
    if fed == [] {
      assert all[..finished] == all;
    }
  }

  lemma EmptyStack(m: Mode, s: seq<byte>, fed: seq<byte>, half: nat, cvs: seq<CV>)
    requires Settled(m, s, fed, half, cvs) && cvs == []
    ensures s == []
  {
  }

  lemma SettledForest(m: Mode, s: seq<byte>, fed: seq<byte>, half: nat, cvs: seq<CV>)
    requires Settled(m, s, fed, half, cvs) && fed != []
    ensures cvs == Forest(m, s, 0)
  {
  }

  lemma SettledHalves(m: Mode, s: seq<byte>, half: nat, cvs: seq<CV>)
    requires Settled(m, s, [], half, cvs) && cvs != []
    ensures Pending(m, s, half, cvs) && !Aligned(|s| - half, 2 * half)
  {
  }

  lemma AdmissibleAnywhere(p: nat, inputLen: nat, at: nat)
    requires Admissible(p, inputLen, at)
    ensures Admissible(p, p, at)
  {
  }

  lemma LazyTwoHalves(m: Mode, s: seq<byte>, b: nat, cvs: seq<CV>)
    requires Lazy(m, s, b, cvs) && IsPow2(b) && b <= |s| && !Aligned(|s| - b, 2 * b)
    ensures TwoHalves(m, s, b, cvs)
  {
  }

  /** The sizes that occur when a picked subtree is hashed at a chunk boundary. */
  lemma SubtreeSizes(p: nat, inputLen: nat, at: nat)
    requires Admissible(p, inputLen, at) && p >= 1024 && at % 1024 == 0
    ensures IsPow2(p) && p <= inputLen && Aligned(at, p) && p % 1024 == 0 && (at + p) % 1024 == 0
    ensures (at + p) / 1024 == at / 1024 + p / 1024
    ensures p > 1024 ==> HalvesFit(p, at)
  {
    hide IsPow2, Aligned, HalvesFit;
    ChunkAligned(p);
    Pow2Aligned(p, 1024);
    if p > 1024 {
      HalfSizes(p, at);
    }
  }

  /** Both halves of a subtree of p bytes at offset at are complete subtrees in place. */
  ghost predicate HalvesFit(p: nat, at: nat) {
    var h := p / 2;
    && IsPow2(h) && h >= 1024 && p == 2 * h && LeftLen(p) == h
    && Aligned(at, h) && Aligned(at + h, h) && IsPow2(p) && !Aligned(at + h, p)
    && (at + h) % 1024 == 0 && (at + h) / 1024 == at / 1024 + p / 1024 / 2
  }

  lemma UseHalves(p: nat, at: nat)
    requires HalvesFit(p, at)
    ensures var h := p / 2;
      && IsPow2(h) && h >= 1024 && p == 2 * h && LeftLen(p) == h && IsPow2(2 * h)
      && Aligned(at, h) && Aligned(at + h, h) && !Aligned(at + h, 2 * h)
      && (at + h) % 1024 == 0 && (at + h) / 1024 == at / 1024 + p / 1024 / 2
  {
  }

  lemma HalfSizes(p: nat, at: nat)
    requires IsPow2(p) && p > 1024 && Aligned(at, p) && at % 1024 == 0
    ensures HalvesFit(p, at)
  {
    var h := p / 2;
    assert IsPow2(h) && p == 2 * h;
    hide IsPow2, Aligned, Pow2Floor;
    ChunkAligned(h);
    Pow2Doubles(1024, p);
    Pow2FloorUnique(p - 1, h);
    HalfwayIsNotAligned(at, h);
    Pow2Aligned(h, 1024);
    var c, k := h / 1024, at / 1024;
    assert h == 1024 * c && at == 1024 * k && p == 1024 * (2 * c);
    assert (at + h) / 1024 == k + c;
  }

  lemma PushLazy(m: Mode, s: seq<byte>, piece: seq<byte>, cvs: seq<CV>)
    requires IsPow2(|piece|) && |piece| >= 1024 && Aligned(|s|, |piece|) && cvs == Forest(m, s, 0)
    ensures Lazy(m, s + piece, |piece|, cvs + [SubtreeCv(m, piece, |s|)])
  {
  }

  lemma SettledLength(m: Mode, s: seq<byte>, fed: seq<byte>, half: nat, cvs: seq<CV>)
    requires Settled(m, s, fed, half, cvs) && |s| % 1024 == 0
    ensures fed != [] ==> |cvs| == PopCount(|s| / 1024)
    ensures fed == [] && s != [] ==> |cvs| >= 2
  {
    hide Forest, PopCount, NodeOutput, ParentOutput, Pending, Aligned;
    if fed != [] {
      ForestLength(m, s, 0);
      PopCountChunks(|s| / 1024);
    } else if s != [] {
      TopPair(m, s, half, cvs);
    }
  }

  // ---------- Whole runs ----------

  function Concat(pieces: seq<seq<byte>>): seq<byte> {
    if pieces == [] then [] else pieces[0] + Concat(pieces[1..])
  }

  lemma {:induction false} ConcatAppend(pieces: seq<seq<byte>>, last: seq<byte>)
    ensures Concat(pieces + [last]) == Concat(pieces) + last
  {
    if pieces == [] {
      assert pieces + [last] == [last];
      assert Concat([last][1..]) == [];
    } else {
      assert (pieces + [last])[1..] == pieces[1..] + [last];
      ConcatAppend(pieces[1..], last);
    }
  }

  lemma {:induction false} ConcatPrefix(pieces: seq<seq<byte>>, k: nat)
    requires k <= |pieces|
    ensures |Concat(pieces[..k])| <= |Concat(pieces)|
  {
    if k != 0 {
      assert pieces[..k][1..] == pieces[1..][..k - 1];
      ConcatPrefix(pieces[1..], k - 1);
    }
  }

  /** Any sequence of updates, of any lengths, on any power-of-two degree: finalisation gives
      the tree hash of the concatenated input. Of all compressions of the run exactly the last
      ones, one for each block of output, are of the root, and every other node is shorter. */
  method HashPieces(m: Mode, primitive: Primitive, degree: nat, maxDegree: nat, maxDepth: nat, pieces: seq<seq<byte>>,
                    seek: nat, outLen: nat) returns (hash: seq<byte>, ghost log: seq<Entry>)
    requires primitive == m.compress && IsPow2(degree) && IsPow2(maxDegree) && degree <= maxDegree
    requires |Concat(pieces)| < Capacity(maxDepth) && |Concat(pieces)| < SIZE_LIMIT
    ensures hash == Hash(m, Concat(pieces), seek, outLen)
    ensures Finished([], log, Concat(pieces), BlocksTouched(seek, outLen))
  {
    hide *;
    var hasher := new Hasher(m, primitive, degree, maxDegree, maxDepth);
    ConcatNone(pieces);
    AddedNone([], hasher.absorbed, 0, |hasher.absorbed|);
    var k := 0;
    while k < |pieces|
      invariant k <= |pieces| && hasher.Valid() && hasher.absorbed == Concat(pieces[..k])
      invariant hasher.m == m && hasher.maxDepth == maxDepth
      invariant fresh({hasher, hasher.chunk, hasher.chunk.buf, hasher.cvStack, hasher.comp})
      invariant Added([], hasher.comp.log, hasher.absorbed, 0, |hasher.absorbed|)
    {
      ghost var log, before := hasher.comp.log, hasher.absorbed;
      ConcatStep(pieces, k);
      hasher.Update(pieces[k]);
      AddedGrows([], log, before, hasher.absorbed);
      AddedThen([], log, hasher.comp.log, hasher.absorbed, 0, |hasher.absorbed|);
      k := k + 1;
    }
    assert pieces[..k] == pieces;
    var out := new byte[outLen];
    ghost var inside := hasher.comp.log;
    hasher.FinalizeSeek(seek, out, outLen);
    hash, log := out[..outLen], hasher.comp.log;
    FinishedFrom([], inside, log, hasher.absorbed, BlocksTouched(seek, outLen));
  }

  lemma AddedGrows(a: seq<Entry>, b: seq<Entry>, s: seq<byte>, all: seq<byte>)
    requires Added(a, b, s, 0, |s|) && s <= all
    ensures Added(a, b, all, 0, |all|)
  {
    hide Added;
    assert s == all[0..0 + |s|];
    AddedInPlace(a, b, all, 0, |s|, |s|);
  }

  lemma FinishedFrom(a: seq<Entry>, b: seq<Entry>, c: seq<Entry>, all: seq<byte>, blocks: nat)
    requires Added(a, b, all, 0, |all|) && Finished(b, c, all, blocks)
    ensures Finished(a, c, all, blocks)
  {
    hide Added, Roots;
    AddedKeeps(a, b, all, 0, |all|);
    AddedThen(a, b, c[..|c| - blocks], all, 0, |all|);
  }

  // ---------- The stack really needs its slots ----------

  /** The bound on the input is exact: at 1024 * 2^(depth + 1) bytes, cut into pieces of two
      chunks, the stack holds depth + 2 CVs, one more than depth + 1 slots can. */
  method FillSlots(m: Mode, primitive: Primitive, degree: nat, maxDegree: nat, depth: nat, piece: seq<byte>)
      returns (hasher: Hasher)
    requires primitive == m.compress && IsPow2(degree) && IsPow2(maxDegree) && degree <= maxDegree
    requires |piece| == 2048
    ensures hasher.Valid() && |hasher.absorbed| == Capacity(depth) && hasher.cvStackLen == depth + 2
  {
    hide *;
    hasher := new Hasher(m, primitive, degree, maxDegree, depth + 1);
    CapacitySizes(depth);
    hasher.Unfolded();
    var k := 0;
    while k < Pow2(depth)
      invariant 0 <= k <= Pow2(depth) && hasher.Valid() && hasher.maxDepth == depth + 1
      invariant fresh({hasher, hasher.chunk, hasher.chunk.buf, hasher.cvStack, hasher.comp})
      invariant hasher.chunk.fed == [] && |hasher.absorbed| == 2048 * k && (k > 0 ==> hasher.half == 1024)
    {
      hasher.Unfolded();
      hasher.Update(piece);
      k := k + 1;
    }
    hasher.Unfolded();
    FullLength(hasher.m, hasher.absorbed, hasher.finished, hasher.cvStack[..hasher.cvStackLen], depth);
  }

  lemma CapacitySizes(depth: nat)
    ensures Capacity(depth) == 2048 * Pow2(depth) && Capacity(depth + 1) == 4096 * Pow2(depth) && 2048 < SIZE_LIMIT
  {
    assert Pow2(depth + 2) == 2 * Pow2(depth + 1) && Pow2(depth + 1) == 2 * Pow2(depth);
  }

  lemma FullLength(m: Mode, s: seq<byte>, finished: nat, cvs: seq<CV>, depth: nat)
    requires |s| == 2048 * Pow2(depth) && finished == |s| && Settled(m, s[..finished], [], 1024, cvs)
    ensures |cvs| == depth + 2
  {
    hide Pending, PopCount, Aligned;
    assert s[..finished] == s;
    PendingLength(m, s, 1024, cvs);
    var chunks := Pow2(depth + 1) - 1;
    assert |s| - 1024 == 1024 * chunks;
    PopCountChunks(chunks);
    PopCountAllOnes(depth + 1);
  }

  lemma ConcatStep(pieces: seq<seq<byte>>, k: nat)
    requires k < |pieces|
    ensures Concat(pieces[..k + 1]) == Concat(pieces[..k]) + pieces[k]
    ensures |Concat(pieces[..k])| + |pieces[k]| <= |Concat(pieces)|
  {
    hide *;
    assert pieces[..k + 1] == pieces[..k] + [pieces[k]];
    ConcatAppend(pieces[..k], pieces[k]);
    ConcatPrefix(pieces, k + 1);
  }

  lemma ConcatNone(pieces: seq<seq<byte>>)
    ensures Concat(pieces[..0]) == []
  {
  }
}
