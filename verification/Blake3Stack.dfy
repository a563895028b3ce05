/** The lazily merged stack of chaining values: what it holds before and after a merge, and
    why merging by population count turns it into the forest of the input so far. */
module Blake3Stack {
  import opened Bits
  import opened Bytes
  import opened Blake3Spec
  import opened Blake3Forest

  /** s splits into a part that is fully merged and a last complete subtree of b bytes whose
      CV sits unmerged on top. */
  ghost predicate Pending(m: Mode, s: seq<byte>, b: nat, cvs: seq<CV>) {
    && IsPow2(b) && 1024 <= b <= |s| && Aligned(|s| - b, b)
    && cvs == Forest(m, s[..|s| - b], 0) + [SubtreeCv(m, s[|s| - b..], |s| - b)]
  }

  /** The stack is the forest of s, or (b > 0) the forest with a last subtree pending. */
  ghost predicate Lazy(m: Mode, s: seq<byte>, b: nat, cvs: seq<CV>) {
    if b == 0 then cvs == Forest(m, s, 0) else Pending(m, s, b, cvs)
  }

  lemma PendingLength(m: Mode, s: seq<byte>, b: nat, cvs: seq<CV>)
    requires Pending(m, s, b, cvs)
    ensures |cvs| == PopCount(|s| - b) + 1
  {
    hide Forest, SubtreeCv;
    ForestLength(m, s[..|s| - b], 0);
  }

  /** The top two CVs are the halves of one larger subtree, behind the forest of what is left
      of it. */
  lemma TopPair(m: Mode, s: seq<byte>, b: nat, cvs: seq<CV>)
    requires Pending(m, s, b, cvs) && !Aligned(|s| - b, 2 * b)
    ensures |cvs| >= 2 && IsPow2(2 * b) && 2048 <= 2 * b <= |s| && Aligned(|s| - 2 * b, 2 * b)
    ensures cvs[..|cvs| - 2] == Forest(m, s[..|s| - 2 * b], 0)
    ensures ParentOutput(m, cvs[|cvs| - 2], cvs[|cvs| - 1]) == NodeOutput(m, s[|s| - 2 * b..], |s| - 2 * b)
  {
    hide Forest, SubtreeCv, ParentOutput, ChainingValue, NodeOutput, Aligned, IsPow2;
    var a := |s| - b;
    AlignedSplit(a, b);
    Pow2Positive(b);
    var front, left, right := s[..a - b], s[a - b..a], s[a..];
    assert s[..a] == front + left && s[a - b..] == left + right;
    ForestAppend(m, front, left, 0);
    MergePair(m, left, right, a - b);
    assert cvs[..|cvs| - 2] == Forest(m, front, 0);
  }

  /** The merge loop has to go on: the parent of the top two leaves a pending subtree of twice
      the size. */
  lemma MergeStep(m: Mode, s: seq<byte>, b: nat, cvs: seq<CV>)
    requires Pending(m, s, b, cvs) && !Aligned(|s| - b, 2 * b)
    ensures |cvs| >= 2 && 2 * b <= |s|
    ensures ParentOutput(m, cvs[|cvs| - 2], cvs[|cvs| - 1]) == NodeOutput(m, s[|s| - 2 * b..], |s| - 2 * b)
    ensures Pending(m, s, 2 * b, cvs[..|cvs| - 2] + [SubtreeCv(m, s[|s| - 2 * b..], |s| - 2 * b)])
  {
    hide Forest, SubtreeCv, ParentOutput, NodeOutput, Aligned, IsPow2;
    TopPair(m, s, b, cvs);
  }

  /** The merge loop is done exactly when the stack is the forest. */
  lemma MergeDone(m: Mode, s: seq<byte>, b: nat, cvs: seq<CV>)
    requires Pending(m, s, b, cvs)
    ensures |cvs| <= PopCount(|s|) <==> Aligned(|s| - b, 2 * b)
    ensures |cvs| <= PopCount(|s|) ==> cvs == Forest(m, s, 0)
  {
    hide Forest, SubtreeCv, Aligned, IsPow2, PopCount;
    var a := |s| - b;
    PendingLength(m, s, b, cvs);
    PopCountAdd(a, b);
    Pow2Positive(b);
    if Aligned(a, 2 * b) {
      assert s == s[..a] + s[a..];
      ForestAppend(m, s[..a], s[a..], 0);
    }
  }

  /** Room on the stack: a CV pushed before the last of 2^(depth+1) - 1 chunks finds at most
      depth others. */
  lemma StackRoom(len: nat, depth: nat)
    requires len % 1024 == 0 && len + 1024 < 1024 * Pow2(depth + 1)
    ensures PopCount(len) == PopCount(len / 1024) <= depth
  {
    hide IsPow2, Aligned, PopCount;
    PopCountChunks(len / 1024);
    PopCountStrict(len / 1024, depth);
  }

  /** The bound is exact: depth + 1 slots have room for a push after any of the first n chunks
      if and only if n is below 2^(depth+1). */
  lemma StackRoomIsExact(n: nat, depth: nat)
    ensures (forall c: nat :: c < n ==> PopCount(c) + 1 <= depth + 1) <==> n < Pow2(depth + 1)
  {
    hide PopCount, Pow2;
    if n < Pow2(depth + 1) {
      forall c: nat | c < n
        ensures PopCount(c) <= depth
      {
        PopCountStrict(c, depth);
      }
    } else {
      PopCountAllOnes(depth + 1);
    }
  }

  lemma ChunkAligned(n: nat)
    ensures IsPow2(1024)
    ensures Aligned(n, 1024) <==> n % 1024 == 0
  {
    AlignedIsMod(n, 1024);
  }

  // ---------- The root ----------

  /** A partial chunk on top of the forest is ready to be rolled up. */
  lemma RollFromChunk(m: Mode, all: seq<byte>, n: nat)
    requires n < |all| <= n + 1024 && n % 1024 == 0
    ensures Rolling(m, all, n, 1024, Forest(m, all[..n], 0), ChunkOutput(m, all[n..], n / 1024))
  {
    hide *;
    ChunkAligned(n);
    ChunkNode(m, all[n..], n);
    IntoRolling(m, all, n, 1024, Forest(m, all[..n], 0), ChunkOutput(m, all[n..], n / 1024));
  }

  /** So are two unmerged halves, from their parent on. */
  lemma RollFromHalves(m: Mode, s: seq<byte>, b: nat, cvs: seq<CV>)
    requires Pending(m, s, b, cvs) && !Aligned(|s| - b, 2 * b)
    ensures |cvs| >= 2 && 2 * b <= |s|
    ensures Rolling(m, s, |s| - 2 * b, 2 * b, cvs[..|cvs| - 2], ParentOutput(m, cvs[|cvs| - 2], cvs[|cvs| - 1]))
  {
    hide *;
    TopPair(m, s, b, cvs);
    IntoRolling(m, s, |s| - 2 * b, 2 * b, cvs[..|cvs| - 2], ParentOutput(m, cvs[|cvs| - 2], cvs[|cvs| - 1]));
  }
}
