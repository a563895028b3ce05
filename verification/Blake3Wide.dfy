/** Wide hashing: many chunks or parents at a time, for any power-of-two SIMD degree, and
    the proof that the list of chaining values it keeps always folds to the spec tree. */
module Blake3Wide {
  import opened Bits
  import opened Bytes
  import opened Blake3Spec
  import opened Blake3Compressor

  // ---------- Lists of chaining values as trees ----------

  /** The CVs of the chunks of a nonempty input, the last one possibly partial. */
  ghost function ChunkCvs(m: Mode, s: seq<byte>, at: nat): (r: seq<CV>)
    decreases |s|
  {
    if |s| <= 1024 then [SubtreeCv(m, s, at)]
    else [SubtreeCv(m, s[..1024], at)] + ChunkCvs(m, s[1024..], at + 1024)
  }

  /** One layer of parents; an odd CV at the end is carried over. */
  ghost function PairUp(m: Mode, cvs: seq<CV>): (r: seq<CV>)
    ensures |r| == (|cvs| + 1) / 2
  {
    if |cvs| < 2 then cvs else [ParentCv(m, cvs[0], cvs[1])] + PairUp(m, cvs[2..])
  }

  /** The tree over a list of CVs, split like the spec tree: the left part is the largest
      power of two that leaves something for the right. */
  ghost function FoldTree(m: Mode, cvs: seq<CV>): CV
    requires cvs != []
    decreases |cvs|, 1
  {
    if |cvs| == 1 then cvs[0] else ChainingValue(m, FoldOutput(m, cvs))
  }

  ghost function FoldOutput(m: Mode, cvs: seq<CV>): Output
    requires |cvs| >= 2
    decreases |cvs|, 0
  {
    var l := Pow2Floor(|cvs| - 1);
    ParentOutput(m, FoldTree(m, cvs[..l]), FoldTree(m, cvs[l..]))
  }

  /** A power of two of CVs on the left and no more on the right fold side by side. */
  lemma FoldJoin(m: Mode, left: seq<CV>, right: seq<CV>)
    requires IsPow2(|left|) && 1 <= |right| <= |left|
    ensures FoldOutput(m, left + right) == ParentOutput(m, FoldTree(m, left), FoldTree(m, right))
  {
    hide FoldTree, IsPow2, ParentOutput, Pow2Floor;
    Pow2Positive(|left|);
    Pow2FloorUnique(|left + right| - 1, |left|);
    assert (left + right)[..|left|] == left && (left + right)[|left|..] == right;
  }

  lemma {:induction false} PairUpJoin(m: Mode, left: seq<CV>, right: seq<CV>)
    requires |left| % 2 == 0
    ensures PairUp(m, left + right) == PairUp(m, left) + PairUp(m, right)
    decreases |left|
  {
    hide ParentCv;
    if left == [] {
      assert left + right == right;
    } else {
      assert (left + right)[2..] == left[2..] + right;
      PairUpJoin(m, left[2..], right);
    }
  }

  lemma {:induction false} PairUpAt(m: Mode, cvs: seq<CV>, i: nat)
    requires 2 * i < |cvs|
    ensures PairUp(m, cvs)[i] == if 2 * i + 1 < |cvs| then ParentCv(m, cvs[2 * i], cvs[2 * i + 1]) else cvs[2 * i]
    decreases i
  {
    hide ParentCv;
    if i > 0 {
      PairUpAt(m, cvs[2..], i - 1);
    }
  }

  /** Forming a layer of parents does not change the tree a list of CVs stands for. */
  lemma {:induction false} PairUpFolds(m: Mode, cvs: seq<CV>)
    requires cvs != []
    ensures FoldTree(m, PairUp(m, cvs)) == FoldTree(m, cvs)
    ensures |cvs| > 2 ==> FoldOutput(m, PairUp(m, cvs)) == FoldOutput(m, cvs)
    decreases |cvs|
  {
    hide *;
    if |cvs| > 2 {
      SplitSizes(|cvs|);
      var l := Pow2Floor(|cvs| - 1);
      var left, right := cvs[..l], cvs[l..];
      assert cvs == left + right;
      PairUpJoin(m, left, right);
      PairUpFolds(m, left);
      PairUpFolds(m, right);
      FoldJoin(m, left, right);
      FoldJoin(m, PairUp(m, left), PairUp(m, right));
      FoldTreeUnfold(m, cvs);
      FoldTreeUnfold(m, PairUp(m, cvs));
    } else if |cvs| == 2 {
      PairUpTwo(m, cvs);
    } else {
      PairUpOne(m, cvs);
    }
  }

  lemma FoldTreeUnfold(m: Mode, cvs: seq<CV>)
    requires |cvs| >= 2
    ensures FoldTree(m, cvs) == ChainingValue(m, FoldOutput(m, cvs))
  {
  }

  lemma PairUpOne(m: Mode, cvs: seq<CV>)
    requires |cvs| == 1
    ensures PairUp(m, cvs) == cvs
  {
  }

  lemma PairUpTwo(m: Mode, cvs: seq<CV>)
    requires |cvs| == 2
    ensures FoldOutput(m, cvs) == ParentOutput(m, cvs[0], cvs[1])
    ensures PairUp(m, cvs) == [ParentCv(m, cvs[0], cvs[1])]
    ensures FoldTree(m, PairUp(m, cvs)) == FoldTree(m, cvs)
  {
  }

  lemma SplitSizes(n: nat)
    requires n > 2
    ensures var l := Pow2Floor(n - 1);
      l < n && l % 2 == 0 && n - l <= l && IsPow2(l) && IsPow2((l + 1) / 2) && (n - l + 1) / 2 <= (l + 1) / 2
  {
  }

  // ---------- Cuts through the spec tree ----------

  /** The CVs are those of nodes of the tree over an input, from left to right, with as many
      left of each inner node as FoldTree puts there. */
  ghost predicate Cut(m: Mode, input: seq<byte>, at: nat, cvs: seq<CV>)
    decreases |cvs|
  {
    if |cvs| <= 1 then cvs == [SubtreeCv(m, input, at)]
    else
      && |input| > 1024
      && var l, k := LeftLen(|input|), Pow2Floor(|cvs| - 1);
      Cut(m, input[..l], at, cvs[..k]) && Cut(m, input[l..], at + l, cvs[k..])
  }

  lemma CutOne(m: Mode, input: seq<byte>, at: nat, cvs: seq<CV>)
    requires |cvs| == 1
    ensures Cut(m, input, at, cvs) <==> cvs == [SubtreeCv(m, input, at)]
  {
  }

  lemma CutUnfold(m: Mode, input: seq<byte>, at: nat, cvs: seq<CV>)
    requires Cut(m, input, at, cvs)
    ensures cvs != []
    ensures |cvs| >= 2 ==> |input| > 1024
    ensures |cvs| >= 2 ==>
      var l, k := LeftLen(|input|), Pow2Floor(|cvs| - 1);
      Cut(m, input[..l], at, cvs[..k]) && Cut(m, input[l..], at + l, cvs[k..])
  {
    hide SubtreeCv, LeftLen;
  }

  lemma CutOf(m: Mode, input: seq<byte>, at: nat, cvs: seq<CV>, k: nat)
    requires |input| > 1024 && |cvs| >= 2 && k == Pow2Floor(|cvs| - 1)
    requires Cut(m, input[..LeftLen(|input|)], at, cvs[..k])
    requires Cut(m, input[LeftLen(|input|)..], at + LeftLen(|input|), cvs[k..])
    ensures Cut(m, input, at, cvs)
  {
    hide SubtreeCv, LeftLen, Pow2Floor;
  }

  /** A power of two of CVs of the left subtree and no more of the right one, side by side. */
  lemma CutJoin(m: Mode, input: seq<byte>, at: nat, left: seq<CV>, right: seq<CV>)
    requires |input| > 1024 && IsPow2(|left|) && |right| <= |left|
    requires Cut(m, input[..LeftLen(|input|)], at, left)
    requires Cut(m, input[LeftLen(|input|)..], at + LeftLen(|input|), right)
    ensures Cut(m, input, at, left + right)
  {
    hide *;
    CutUnfold(m, input[LeftLen(|input|)..], at + LeftLen(|input|), right);
    Pow2Positive(|left|);
    Pow2FloorUnique(|left + right| - 1, |left|);
    assert (left + right)[..|left|] == left && (left + right)[|left|..] == right;
    CutOf(m, input, at, left + right, |left|);
  }

  lemma CutTwo(m: Mode, input: seq<byte>, at: nat, cvs: seq<CV>)
    requires Cut(m, input, at, cvs) && |cvs| == 2
    ensures |input| > 1024
    ensures cvs == [SubtreeCv(m, input[..LeftLen(|input|)], at), SubtreeCv(m, input[LeftLen(|input|)..], at + LeftLen(|input|))]
    ensures ParentOutput(m, cvs[0], cvs[1]) == NodeOutput(m, input, at)
    ensures ParentCv(m, cvs[0], cvs[1]) == SubtreeCv(m, input, at)
  {
    hide SubtreeCv, LeftLen, NodeOutput, ParentOutput, ChainingValue;
    CutUnfold(m, input, at, cvs);
    assert Pow2Floor(1) == 1;
    NodeSplit(m, input, at);
  }

  /** A cut folds to the tree it goes through. */
  lemma {:induction false} CutFolds(m: Mode, input: seq<byte>, at: nat, cvs: seq<CV>)
    requires Cut(m, input, at, cvs)
    ensures cvs != [] && FoldTree(m, cvs) == SubtreeCv(m, input, at)
    ensures |cvs| >= 2 ==> FoldOutput(m, cvs) == NodeOutput(m, input, at)
    decreases |cvs|
  {
    hide SubtreeCv, LeftLen, NodeOutput, ParentOutput, Cut;
    CutUnfold(m, input, at, cvs);
    if |cvs| >= 2 {
      var l, k := LeftLen(|input|), Pow2Floor(|cvs| - 1);
      CutFolds(m, input[..l], at, cvs[..k]);
      CutFolds(m, input[l..], at + l, cvs[k..]);
      NodeSplit(m, input, at);
    } else {
      CutOne(m, input, at, cvs);
    }
  }

  /** A layer of parents over a cut is a cut again. */
  lemma {:induction false} PairUpCut(m: Mode, input: seq<byte>, at: nat, cvs: seq<CV>)
    requires Cut(m, input, at, cvs)
    ensures Cut(m, input, at, PairUp(m, cvs))
    decreases |cvs|
  {
    hide *;
    CutUnfold(m, input, at, cvs);
    if |cvs| > 2 {
      SplitSizes(|cvs|);
      var l, k := LeftLen(|input|), Pow2Floor(|cvs| - 1);
      PairUpCut(m, input[..l], at, cvs[..k]);
      PairUpCut(m, input[l..], at + l, cvs[k..]);
      assert cvs == cvs[..k] + cvs[k..];
      PairUpJoin(m, cvs[..k], cvs[k..]);
      CutJoin(m, input, at, PairUp(m, cvs[..k]), PairUp(m, cvs[k..]));
    } else if |cvs| == 2 {
      CutTwo(m, input, at, cvs);
      PairUpTwo(m, cvs);
      CutOne(m, input, at, PairUp(m, cvs));
    } else {
      PairUpOne(m, cvs);
    }
  }

  /** Some bytes of a message and where they start. */
  datatype Piece = Piece(at: nat, bytes: seq<byte>)

  /** The bytes under the i-th pair of a cut of n CVs. */
  ghost function PairPiece(input: seq<byte>, at: nat, n: nat, i: nat): Piece
    decreases n
  {
    if n <= 2 || |input| <= 1024 then Piece(at, input)
    else
      var l, k := LeftLen(|input|), Pow2Floor(n - 1);
      if 2 * i < k then PairPiece(input[..l], at, k, i) else PairPiece(input[l..], at + l, n - k, i - k / 2)
  }

  /** The parent of a pair in a cut is the spec node over the bytes under it; with more than one
      pair or a single CV beside it, it is not the whole. */
  lemma {:induction false} PairIsNode(m: Mode, input: seq<byte>, at: nat, cvs: seq<CV>, i: nat)
    requires Cut(m, input, at, cvs) && 2 * i + 1 < |cvs|
    ensures var p := PairPiece(input, at, |cvs|, i);
      && ParentOutput(m, cvs[2 * i], cvs[2 * i + 1]) == NodeOutput(m, p.bytes, p.at)
      && PartOf(p.bytes, p.at, input, at) && (|cvs| > 2 ==> |p.bytes| < |input|)
    decreases |cvs|
  {
    hide *;
    CutUnfold(m, input, at, cvs);
    var n := |cvs|;
    PairPieceUnfold(input, at, n, i);
    if n == 2 {
      CutTwo(m, input, at, cvs);
      PartsOf(input, |input|, at);
      assert input[..|input|] == input;
    } else {
      SplitSizes(n);
      var l, k := LeftLen(|input|), Pow2Floor(n - 1);
      if 2 * i < k {
        PairIsNode(m, input[..l], at, cvs[..k], i);
        PieceOfPart(PairPiece(input[..l], at, k, i), input, l, at, true);
      } else {
        PairIsNode(m, input[l..], at + l, cvs[k..], i - k / 2);
        PieceOfPart(PairPiece(input[l..], at + l, n - k, i - k / 2), input, l, at, false);
      }
    }
  }

  lemma PairPieceUnfold(input: seq<byte>, at: nat, n: nat, i: nat)
    requires n >= 2 && |input| > 1024
    ensures n == 2 ==> PairPiece(input, at, n, i) == Piece(at, input)
    ensures n > 2 ==>
      var l, k := LeftLen(|input|), Pow2Floor(n - 1);
      PairPiece(input, at, n, i)
      == if 2 * i < k then PairPiece(input[..l], at, k, i) else PairPiece(input[l..], at + l, n - k, i - k / 2)
  {
    hide LeftLen;
  }

  lemma PieceOfPart(p: Piece, s: seq<byte>, l: nat, at: nat, left: bool)
    requires 0 < l < |s|
    requires if left then PartOf(p.bytes, p.at, s[..l], at) else PartOf(p.bytes, p.at, s[l..], at + l)
    ensures PartOf(p.bytes, p.at, s, at) && |p.bytes| < |s|
  {
    hide PartOf;
    PartsOf(s, l, at);
    if left {
      PartOfPart(p.bytes, p.at, s[..l], at, s, at);
      PartIsShorter(p.bytes, p.at, s[..l], at);
    } else {
      PartOfPart(p.bytes, p.at, s[l..], at + l, s, at);
      PartIsShorter(p.bytes, p.at, s[l..], at + l);
    }
  }

  lemma PartIsShorter(p: seq<byte>, pAt: nat, s: seq<byte>, at: nat)
    requires PartOf(p, pAt, s, at)
    ensures |p| <= |s|
  {
  }

  // ---------- Chunk CVs ----------

  lemma {:induction false} ChunkCvsLength(m: Mode, s: seq<byte>, at: nat)
    requires s != []
    ensures |ChunkCvs(m, s, at)| == (|s| - 1) / 1024 + 1
    decreases |s|
  {
    hide SubtreeCv;
    if |s| > 1024 {
      ChunkCvsLength(m, s[1024..], at + 1024);
    }
  }

  lemma ChunkCvsUnfold(m: Mode, head: seq<byte>, rest: seq<byte>, at: nat)
    requires |head| == 1024 && rest != []
    ensures ChunkCvs(m, head + rest, at) == [SubtreeCv(m, head, at)] + ChunkCvs(m, rest, at + 1024)
  {
  }

  /** The i-th chunk of s, the last one possibly partial. */
  function ChunkOf(s: seq<byte>, i: nat): seq<byte>
    requires 1024 * i < |s|
  {
    if 1024 * (i + 1) <= |s| then s[1024 * i..1024 * (i + 1)] else s[1024 * i..]
  }

  lemma ChunkOfTail(s: seq<byte>, i: nat)
    requires 1 <= i && 1024 * i < |s|
    ensures 1024 * (i - 1) < |s[1024..]|
    ensures ChunkOf(s[1024..], i - 1) == ChunkOf(s, i)
  {
  }

  lemma ChunkOfHead(s: seq<byte>)
    requires s != []
    ensures ChunkOf(s, 0) == if |s| <= 1024 then s else s[..1024]
  {
  }

  lemma {:induction false} ChunkCvsAt(m: Mode, s: seq<byte>, at: nat, i: nat)
    requires 1024 * i < |s|
    ensures i < |ChunkCvs(m, s, at)|
    ensures ChunkCvs(m, s, at)[i] == SubtreeCv(m, ChunkOf(s, i), at + 1024 * i)
    decreases i
  {
    hide *;
    ChunkOfHead(s);
    if |s| <= 1024 {
      ChunkCvsOne(m, s, at);
    } else {
      assert s == s[..1024] + s[1024..];
      ChunkCvsUnfold(m, s[..1024], s[1024..], at);
      if i > 0 {
        ChunkOfTail(s, i);
        ChunkCvsAt(m, s[1024..], at + 1024, i - 1);
      }
    }
  }

  /** Cutting at a chunk boundary cuts the list of CVs. */
  lemma {:induction false} ChunkCvsJoin(m: Mode, left: seq<byte>, right: seq<byte>, at: nat)
    requires left != [] && right != [] && |left| % 1024 == 0
    ensures ChunkCvs(m, left + right, at) == ChunkCvs(m, left, at) + ChunkCvs(m, right, at + |left|)
    decreases |left|
  {
    hide *;
    if |left| == 1024 {
      ChunkCvsUnfold(m, left, right, at);
      ChunkCvsOne(m, left, at);
    } else {
      var head, rest := left[..1024], left[1024..];
      assert left == head + rest && left + right == head + (rest + right);
      ChunkCvsUnfold(m, head, rest, at);
      ChunkCvsUnfold(m, head, rest + right, at);
      ChunkCvsJoin(m, rest, right, at + 1024);
    }
  }

  /** The chunk CVs of any input are a cut through its tree. */
  lemma {:induction false} ChunkCvsCut(m: Mode, s: seq<byte>, at: nat)
    requires s != []
    ensures Cut(m, s, at, ChunkCvs(m, s, at))
    decreases |s|
  {
    hide *;
    if |s| > 1024 {
      var l := LeftLen(|s|);
      LeftLenSizes(|s|);
      var left, right := s[..l], s[l..];
      assert s == left + right;
      ChunkCvsCut(m, left, at);
      ChunkCvsCut(m, right, at + l);
      ChunkCvsJoin(m, left, right, at);
      ChunkCvsLength(m, left, at);
      ChunkCvsLength(m, right, at + l);
      CutJoin(m, s, at, ChunkCvs(m, left, at), ChunkCvs(m, right, at + l));
    } else {
      ChunkCvsOne(m, s, at);
      CutOne(m, s, at, ChunkCvs(m, s, at));
    }
  }

  /** The chunk CVs of any input, folded as a tree, are the spec tree of the input. */
  lemma ChunkCvsFold(m: Mode, s: seq<byte>, at: nat)
    requires s != []
    ensures ChunkCvs(m, s, at) != [] && FoldTree(m, ChunkCvs(m, s, at)) == SubtreeCv(m, s, at)
    ensures |s| > 1024 ==> |ChunkCvs(m, s, at)| >= 2 && FoldOutput(m, ChunkCvs(m, s, at)) == NodeOutput(m, s, at)
  {
    hide *;
    ChunkCvsCut(m, s, at);
    ChunkCvsLength(m, s, at);
    CutFolds(m, s, at, ChunkCvs(m, s, at));
  }

  lemma ChunkCvsOne(m: Mode, s: seq<byte>, at: nat)
    requires |s| <= 1024
    ensures ChunkCvs(m, s, at) == [SubtreeCv(m, s, at)]
    ensures FoldTree(m, ChunkCvs(m, s, at)) == SubtreeCv(m, s, at)
  {
  }

  lemma NodeSplit(m: Mode, s: seq<byte>, at: nat)
    requires |s| > 1024
    ensures var l := LeftLen(|s|);
      NodeOutput(m, s, at) == ParentOutput(m, SubtreeCv(m, s[..l], at), SubtreeCv(m, s[l..], at + l))
    ensures SubtreeCv(m, s, at) == ChainingValue(m, NodeOutput(m, s, at))
  {
  }

  /** Above one chunk the left length is a power of two of whole chunks, and the right
      length is positive and no longer. */
  lemma LeftLenSizes(len: nat)
    requires len > 1024
    ensures var l := LeftLen(len);
      && IsPow2(l) && 1024 <= l < len <= 2 * l && Aligned(l, 1024) && l % 1024 == 0
      && IsPow2(l / 1024) && IsPow2((l - 1) / 1024 + 1) && (len - l - 1) / 1024 <= (l - 1) / 1024
  {
    var l := LeftLen(len);
    assert IsPow2(1024);
    hide IsPow2;
    if l < 1024 {
      Pow2Doubles(l, 1024);
    }
    Pow2Aligned(l, 1024);
    AlignedIsMod(l, 1024);
    Pow2Quotient(l, 1024);
  }

  lemma {:induction false} Pow2Quotient(q: nat, p: nat)
    requires IsPow2(p) && IsPow2(q) && p <= q
    ensures IsPow2(q / p)
  {
    if p != 1 {
      Pow2Quotient(q / 2, p / 2);
      DivHalves(q, p / 2);
    }
  }
}
