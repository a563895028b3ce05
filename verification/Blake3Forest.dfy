/** The forest of complete subtrees that covers a whole number of chunks, how it grows by
    one subtree, and how folding it from the right rebuilds the tree hash. Lengths and
    offsets are in bytes; a complete subtree is a power of two of at least 1024 bytes. */
module Blake3Forest {
  import opened Bits
  import opened Bytes
  import opened Blake3Spec

  /** CVs of the complete subtrees covering s, largest first: one per binary digit of the
      length (BLAKE3 paper, section 5.1.2). */
  ghost function Forest(m: Mode, s: seq<byte>, at: nat): seq<CV>
    decreases |s|
  {
    if s == [] then []
    else
      var k := Pow2Floor(|s|);
      [SubtreeCv(m, s[..k], at)] + Forest(m, s[k..], at + k)
  }

  lemma {:induction false} ForestLength(m: Mode, s: seq<byte>, at: nat)
    ensures |Forest(m, s, at)| == PopCount(|s|)
    decreases |s|
  {
    if s != [] {
      ForestLength(m, s[Pow2Floor(|s|)..], at + Pow2Floor(|s|));
      PopCountTop(|s|);
    }
  }

  lemma ForestUnfold(m: Mode, s: seq<byte>, head: seq<byte>, rest: seq<byte>, at: nat)
    requires s == head + rest && 0 < |head| == Pow2Floor(|s|)
    ensures Forest(m, s, at) == [SubtreeCv(m, head, at)] + Forest(m, rest, at + |head|)
  {
  }

  lemma NodeUnfold(m: Mode, s: seq<byte>, head: seq<byte>, rest: seq<byte>, at: nat)
    requires s == head + rest && |s| > 1024 && |head| == Pow2Floor(|s| - 1)
    ensures NodeOutput(m, s, at)
         == ParentOutput(m, SubtreeCv(m, head, at), SubtreeCv(m, rest, at + |head|))
  {
    hide SubtreeCv, ChainingValue, ChunkOutput, Pow2Floor;
    assert s[..|head|] == head && s[|head|..] == rest;
  }

  /** A leading power of two absorbs anything smaller than the alignment of n. */
  lemma LeadingTree(n: nat, extra: nat, p: nat)
    requires IsPow2(p) && 1 <= n && Aligned(n, p) && extra < p
    ensures Pow2Floor(n + extra) == Pow2Floor(n)
    ensures p <= Pow2Floor(n) && Aligned(n - Pow2Floor(n), p)
  {
    var k := Pow2Floor(n);
    AlignedGap(0, n, p) by { AlignedZero(p); }
    if k < p {
      Pow2Doubles(k, p);
    }
    Pow2Aligned(k, p);
    AlignedSum(k, k, p);
    AlignedGap(n, 2 * k, p);
    Pow2FloorUnique(n + extra, k);
    AlignedSum(n, k, p);
  }

  lemma ForestSingle(m: Mode, b: seq<byte>, at: nat)
    requires IsPow2(|b|)
    ensures Forest(m, [], at) == [] && Forest(m, [] + b, at) == [SubtreeCv(m, b, at)]
  {
    Pow2FloorUnique(|b|, |b|);
    assert [] + b == b == b + [];
    ForestUnfold(m, b, b, [], at);
  }

  /** Growing the forest by a complete subtree when twice its size divides the length. */
  lemma {:induction false} ForestAppend(m: Mode, a: seq<byte>, b: seq<byte>, at: nat)
    requires IsPow2(|b|) && Aligned(|a|, 2 * |b|)
    ensures Forest(m, a + b, at) == Forest(m, a, at) + [SubtreeCv(m, b, at + |a|)]
    decreases |a|
  {
    hide *;
    if a == [] {
      ForestSingle(m, b, at);
    } else {
      Pow2Positive(|b|);
      LeadingTree(|a|, |b|, 2 * |b|);
      var k := Pow2Floor(|a|);
      var head, rest := a[..k], a[k..];
      assert a == head + rest && a + b == head + (rest + b);
      ForestUnfold(m, a, head, rest, at);
      ForestUnfold(m, a + b, head, rest + b, at);
      ForestAppend(m, rest, b, at + k);
    }
  }

  /** Two adjacent complete subtrees of the same size make one of twice the size. */
  lemma MergePair(m: Mode, a: seq<byte>, b: seq<byte>, at: nat)
    requires IsPow2(|a|) && |a| == |b| >= 1024
    ensures NodeOutput(m, a + b, at)
         == ParentOutput(m, SubtreeCv(m, a, at), SubtreeCv(m, b, at + |a|))
  {
    Pow2FloorUnique(|a + b| - 1, |a|);
    NodeUnfold(m, a + b, a, b, at);
  }

  // ---------- Rolling the forest up to the root ----------

  /** The size of the last tree of a forest: the lowest one bit of its length. */
  lemma LastTree(n: nat, q: nat) returns (p: nat)
    requires IsPow2(q) && Aligned(n, q) && n > 0
    ensures IsPow2(p) && q <= p <= n && Aligned(n - p, 2 * p)
    decreases n - q
  {
    hide IsPow2, Aligned;
    AlignedSplit(n, q);
    AlignedZero(q);
    AlignedGap(0, n, q);
    if Aligned(n, 2 * q) {
      AlignedZero(2 * q);
      AlignedGap(0, n, 2 * q);
      Pow2Positive(q);
      p := LastTree(n, 2 * q);
    } else {
      p := q;
    }
  }

  /** A node over everything from lo on, and left of it the forest, every tree of which is at
      least as long as what the node covers. */
  ghost predicate Rolling(m: Mode, all: seq<byte>, lo: nat, q: nat, cvs: seq<CV>, o: Output) {
    && lo < |all| && IsPow2(q) && 1024 <= q && Aligned(lo, q) && |all| - lo <= q
    && cvs == Forest(m, all[..lo], 0) && o == NodeOutput(m, all[lo..], lo)
  }

  /** The end of a forest, tree by tree. */
  lemma ForestSnoc(m: Mode, s: seq<byte>, q: nat) returns (p: nat)
    requires IsPow2(q) && Aligned(|s|, q) && s != []
    ensures IsPow2(p) && q <= p <= |s| && Aligned(|s| - p, 2 * p)
    ensures Forest(m, s, 0) == Forest(m, s[..|s| - p], 0) + [SubtreeCv(m, s[|s| - p..], |s| - p)]
  {
    hide *;
    p := LastTree(|s|, q);
    assert s == s[..|s| - p] + s[|s| - p..];
    ForestAppend(m, s[..|s| - p], s[|s| - p..], 0);
  }

  lemma ForestOfNothing(m: Mode, s: seq<byte>, at: nat)
    ensures Forest(m, s, at) == [] <==> s == []
  {
  }

  lemma UseRolling(m: Mode, all: seq<byte>, lo: nat, q: nat, cvs: seq<CV>, o: Output)
    requires Rolling(m, all, lo, q, cvs, o)
    ensures lo < |all| && IsPow2(q) && 1024 <= q && Aligned(lo, q) && |all| - lo <= q
    ensures cvs == Forest(m, all[..lo], 0) && o == NodeOutput(m, all[lo..], lo)
  {
    hide Forest, NodeOutput, IsPow2, Aligned;
  }

  lemma IntoRolling(m: Mode, all: seq<byte>, lo: nat, q: nat, cvs: seq<CV>, o: Output)
    requires lo < |all| && IsPow2(q) && 1024 <= q && Aligned(lo, q) && |all| - lo <= q
    requires cvs == Forest(m, all[..lo], 0) && o == NodeOutput(m, all[lo..], lo)
    ensures Rolling(m, all, lo, q, cvs, o)
  {
    hide Forest, NodeOutput, IsPow2, Aligned;
  }

  /** One step of the finalisation: the parent of the nearest CV and the node is the node over
      the bytes of both. */
  lemma RollTop(m: Mode, all: seq<byte>, lo: nat, q: nat, cvs: seq<CV>, o: Output) returns (p: nat)
    requires Rolling(m, all, lo, q, cvs, o) && cvs != []
    ensures 0 < p <= lo
    ensures Rolling(m, all, lo - p, 2 * p, cvs[..|cvs| - 1], ParentOutput(m, cvs[|cvs| - 1], ChainingValue(m, o)))
  {
    hide *;
    UseRolling(m, all, lo, q, cvs, o);
    ForestOfNothing(m, all[..lo], 0);
    p := ForestSnoc(m, all[..lo], q);
    var head, rest := all[lo - p..lo], all[lo..];
    assert all[..lo][..lo - p] == all[..lo - p] && all[..lo][lo - p..] == head && all[lo - p..] == head + rest;
    Pow2Positive(p);
    Pow2FloorUnique(p + |rest| - 1, p);
    NodeUnfold(m, head + rest, head, rest, lo - p);
    CvOfNode(m, rest, lo);
    IntoRolling(m, all, lo - p, 2 * p, cvs[..|cvs| - 1], ParentOutput(m, cvs[|cvs| - 1], ChainingValue(m, o)));
  }

  /** With no CV left the node is the root. */
  lemma RolledUp(m: Mode, all: seq<byte>, lo: nat, q: nat, o: Output)
    requires Rolling(m, all, lo, q, [], o)
    ensures o == NodeOutput(m, all, 0)
  {
    hide NodeOutput, IsPow2, Aligned;
    ForestOfNothing(m, all[..lo], 0);
    assert all[0..] == all;
  }

  /** The whole loop of the finalisation: use up the CVs, nearest first. */
  ghost function RollUp(m: Mode, cvs: seq<CV>, o: Output): Output {
    if cvs == [] then o
    else RollUp(m, cvs[..|cvs| - 1], ParentOutput(m, cvs[|cvs| - 1], ChainingValue(m, o)))
  }

  /** Rolling up the forest of s with the node of what follows gives the node of it all,
      provided what follows is no longer than a subtree size that divides s. */
  lemma {:induction false} RollUpForest(m: Mode, s: seq<byte>, r: seq<byte>, q: nat)
    requires IsPow2(q) && q >= 1024 && Aligned(|s|, q) && 0 < |r| <= q
    ensures RollUp(m, Forest(m, s, 0), NodeOutput(m, r, |s|)) == NodeOutput(m, s + r, 0)
  {
    hide *;
    assert (s + r)[..|s|] == s && (s + r)[|s|..] == r;
    IntoRolling(m, s + r, |s|, q, Forest(m, s, 0), NodeOutput(m, r, |s|));
    RollAll(m, s + r, |s|, q, Forest(m, s, 0), NodeOutput(m, r, |s|));
  }

  lemma {:induction false} RollAll(m: Mode, all: seq<byte>, lo: nat, q: nat, cvs: seq<CV>, o: Output)
    requires Rolling(m, all, lo, q, cvs, o)
    ensures RollUp(m, cvs, o) == NodeOutput(m, all, 0)
    decreases |cvs|
  {
    hide Rolling, NodeOutput, ParentOutput, ChainingValue;
    if cvs == [] {
      RolledUp(m, all, lo, q, o);
    } else {
      var p := RollTop(m, all, lo, q, cvs, o);
      RollAll(m, all, lo - p, 2 * p, cvs[..|cvs| - 1], ParentOutput(m, cvs[|cvs| - 1], ChainingValue(m, o)));
    }
  }

  /** Before the last CV is used the node is not the whole. */
  lemma NotYetRoot(m: Mode, all: seq<byte>, lo: nat, q: nat, cvs: seq<CV>, o: Output)
    requires Rolling(m, all, lo, q, cvs, o) && cvs != []
    ensures 0 < lo < |all| && o == NodeOutput(m, all[lo..], lo)
  {
    hide NodeOutput, IsPow2, Aligned;
    ForestOfNothing(m, all[..lo], 0);
  }

  lemma CvOfNode(m: Mode, s: seq<byte>, at: nat)
    ensures SubtreeCv(m, s, at) == ChainingValue(m, NodeOutput(m, s, at))
  {
  }
}
