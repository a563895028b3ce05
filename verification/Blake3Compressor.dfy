/** The compression primitive as the code gets at it, with a ghost log of what every compression
    was for: an inner block of a chunk, the chaining value of a node, or root output. */
module Blake3Compressor {
  import opened Bytes
  import opened Blake3Spec

  /** A node is named by the bytes it stands for and the offset at which they start. */
  datatype Entry = Inner | Node(at: nat, piece: seq<byte>) | RootNode(piece: seq<byte>)

  /** An entry says what was really compressed: an inner block has no flag but the start flag
      beside those of the mode, a node is the spec node, root output is made from the spec node
      of a whole message. */
  ghost predicate Honest(m: Mode, e: Entry, o: Output) {
    match e
    case Inner => o.flags == m.flags | FlagIf(false, CHUNK_START) || o.flags == m.flags | FlagIf(true, CHUNK_START)
    case Node(at, piece) => o == NodeOutput(m, piece, at)
    case RootNode(piece) =>
      var root := NodeOutput(m, piece, 0);
      o.inputCv == root.inputCv && o.block == root.block && o.blockLen == root.blockLen && o.flags == root.flags | ROOT
  }

  /** The ROOT flag goes to root output and to nothing else. */
  lemma RootFlagOnlyOnOutput(m: Mode, e: Entry, o: Output)
    requires m.flags & ROOT == 0 && Honest(m, e, o)
    ensures o.flags & ROOT != 0 <==> e.RootNode?
  {
    hide LeftLen, SubtreeCv, BlocksCv, Pad;
  }

  /** The bytes that start at offset at are a piece of those that start at offset base. */
  ghost predicate PartOf(piece: seq<byte>, at: nat, all: seq<byte>, base: nat) {
    base <= at && at - base + |piece| <= |all| && piece == all[at - base..at - base + |piece|]
  }

  /** A compression inside the tree over some bytes: an inner block, or a node shorter than a bound. */
  ghost predicate Entered(e: Entry, all: seq<byte>, base: nat, bound: nat) {
    e.Inner? || (e.Node? && |e.piece| < bound && PartOf(e.piece, e.at, all, base))
  }

  /** What was added to a log: only compressions inside the tree over some bytes. */
  ghost predicate Added(before: seq<Entry>, after: seq<Entry>, all: seq<byte>, base: nat, bound: nat) {
    before <= after && forall i :: |before| <= i < |after| ==> Entered(after[i], all, base, bound)
  }

  lemma AddedNone(log: seq<Entry>, all: seq<byte>, base: nat, bound: nat)
    ensures Added(log, log, all, base, bound)
  {
  }

  lemma AddedThen(a: seq<Entry>, b: seq<Entry>, c: seq<Entry>, all: seq<byte>, base: nat, bound: nat)
    requires Added(a, b, all, base, bound) && Added(b, c, all, base, bound)
    ensures Added(a, c, all, base, bound)
  {
    hide Entered;
  }

  lemma NodeEntered(log: seq<Entry>, piece: seq<byte>, at: nat)
    ensures Added(log, log + [Node(at, piece)], piece, at, |piece| + 1)
  {
    assert piece[..|piece|] == piece;
  }

  lemma InnerEntered(log: seq<Entry>, all: seq<byte>, base: nat, bound: nat)
    ensures Added(log, log + [Inner], all, base, bound)
  {
  }

  lemma PartOfPart(p: seq<byte>, pAt: nat, q: seq<byte>, qAt: nat, all: seq<byte>, base: nat)
    requires PartOf(p, pAt, q, qAt) && PartOf(q, qAt, all, base)
    ensures PartOf(p, pAt, all, base)
  {
    SliceOfSlice(all, qAt - base, |q|, pAt - qAt, |p|);
  }

  lemma SliceOfSlice(s: seq<byte>, b: nat, n: nat, i: nat, k: nat)
    requires b + n <= |s| && i + k <= n
    ensures s[b..b + n][i..i + k] == s[b + i..b + i + k]
  {
    var t := s[b..b + n];
    var u, v := t[i..i + k], s[b + i..b + i + k];
    forall j | 0 <= j < k
      ensures u[j] == v[j]
    {
      assert t[i + j] == s[b + (i + j)];
    }
  }

  /** Inside the tree over a piece is inside the tree over everything. */
  lemma AddedWithin(a: seq<Entry>, b: seq<Entry>, piece: seq<byte>, at: nat, small: nat,
                    all: seq<byte>, base: nat, bound: nat)
    requires Added(a, b, piece, at, small) && PartOf(piece, at, all, base) && small <= bound
    ensures Added(a, b, all, base, bound)
  {
    hide PartOf;
    forall i | |a| <= i < |b|
      ensures Entered(b[i], all, base, bound)
    {
      assert Entered(b[i], piece, at, small);
      if b[i].Node? {
        PartOfPart(b[i].piece, b[i].at, piece, at, all, base);
      }
    }
  }

  /** Only inner blocks: a place in any tree. */
  lemma AddedInner(a: seq<Entry>, b: seq<Entry>, all: seq<byte>, base: nat, bound: nat)
    requires Added(a, b, [], 0, 0)
    ensures Added(a, b, all, base, bound)
  {
    forall i | |a| <= i < |b|
      ensures Entered(b[i], all, base, bound)
    {
      assert Entered(b[i], [], 0, 0);
    }
  }

  // ---------- The log of a whole run ----------

  /** The log of a run that has absorbed some bytes: every node compressed so far is shorter than
      the bytes, so their root is not among them, and root output was made only for messages that
      the bytes start with. */
  ghost predicate Sealed(log: seq<Entry>, all: seq<byte>) {
    forall i :: 0 <= i < |log| ==> Entered(log[i], all, 0, |all|) || (log[i].RootNode? && log[i].piece <= all)
  }

  /** What finalisation adds: compressions inside the tree, and then some blocks of output of the
      root of everything. */
  ghost predicate Finished(before: seq<Entry>, after: seq<Entry>, all: seq<byte>, blocks: nat) {
    && |before| + blocks <= |after|
    && Added(before, after[..|after| - blocks], all, 0, |all|)
    && after[|after| - blocks..] == Roots(all, blocks)
  }

  ghost function Roots(all: seq<byte>, blocks: nat): (r: seq<Entry>)
    ensures |r| == blocks && forall i :: 0 <= i < blocks ==> r[i] == RootNode(all)
  {
    seq(blocks, i => RootNode(all))
  }

  lemma SealedAdded(a: seq<Entry>, b: seq<Entry>, all: seq<byte>)
    requires Sealed(a, all) && Added(a, b, all, 0, |all|)
    ensures Sealed(b, all)
  {
    hide Entered;
  }

  lemma SealedFinished(a: seq<Entry>, b: seq<Entry>, all: seq<byte>, blocks: nat)
    requires Sealed(a, all) && Finished(a, b, all, blocks)
    ensures Sealed(b, all)
  {
    hide Entered, Added, Sealed;
    var inside := b[..|b| - blocks];
    SealedAdded(a, inside, all);
    assert b == inside + Roots(all, blocks);
    SealedRoots(inside, all, blocks);
  }

  lemma SealedRoots(a: seq<Entry>, all: seq<byte>, blocks: nat)
    requires Sealed(a, all)
    ensures Sealed(a + Roots(all, blocks), all)
  {
    hide Entered;
  }

  /** More input keeps a log sealed. */
  lemma SealedGrows(log: seq<Entry>, s: seq<byte>, all: seq<byte>)
    requires Sealed(log, s) && s <= all
    ensures Sealed(log, all)
  {
    hide PartOf;
    PartsOf(all, |s|, 0);
    forall i | 0 <= i < |log|
      ensures Entered(log[i], all, 0, |all|) || (log[i].RootNode? && log[i].piece <= all)
    {
      if log[i].Node? {
        PartOfPart(log[i].piece, log[i].at, s, 0, all, 0);
      }
    }
  }

  lemma PartsOf(s: seq<byte>, l: nat, at: nat)
    requires l <= |s|
    ensures PartOf(s[..l], at, s, at) && PartOf(s[l..], at + l, s, at)
  {
  }

  class Compressor {
    const mode: Mode
    const primitive: Primitive
    ghost var log: seq<Entry>

    ghost predicate For(m: Mode) {
      mode == m && primitive == m.compress
    }

    constructor (m: Mode, primitive: Primitive)
      requires primitive == m.compress
      ensures For(m) && log == []
    {
      this.mode, this.primitive, log := m, primitive, [];
    }

    /** The only call of the primitive. */
    method Compress(ghost m: Mode, cv: Words, block: Block, blockLen: nat, counter: nat, flags: bv8, ghost e: Entry)
        returns (s: State)
      requires For(m) && Honest(m, e, Output(cv, block, blockLen, counter, flags))
      modifies this
      ensures s == m.compress(cv, block, blockLen, counter, flags)
      ensures log == old(log) + [e]
    {
      s := primitive(cv, block, blockLen, counter, flags);
      log := log + [e];
    }

    /** blake3_compress_in_place on a full block. */
    method CompressBlock(ghost m: Mode, cv: Words, block: Block, counter: nat, flags: bv8, ghost e: Entry)
        returns (cv': Words)
      requires For(m) && Honest(m, e, Output(cv, block, 64, counter, flags))
      modifies this
      ensures cv' == CompressInPlace(m, cv, block, 64, counter, flags)
      ensures log == old(log) + [e]
    {
      var s := Compress(m, cv, block, 64, counter, flags, e);
      cv' := s[..8];
    }

    /** output_chaining_value of the node over a piece. */
    method OutputCv(ghost m: Mode, o: Output, ghost piece: seq<byte>, ghost at: nat) returns (cv: CV)
      requires For(m) && o == NodeOutput(m, piece, at)
      modifies this
      ensures cv == ChainingValue(m, o) == SubtreeCv(m, piece, at)
      ensures log == old(log) + [Node(at, piece)]
      ensures Added(old(log), log, piece, at, |piece| + 1)
    {
      hide NodeOutput, Added;
      NodeEntered(log, piece, at);
      var s := Compress(m, o.inputCv, o.block, o.blockLen, o.counter, o.flags, Node(at, piece));
      cv := StoreWords(s[..8]);
    }

    /** blake3_compress_xof of the root of a whole message. */
    method RootBlock(ghost m: Mode, o: Output, counter: nat, ghost all: seq<byte>) returns (block: Block)
      requires For(m) && o == NodeOutput(m, all, 0)
      modifies this
      ensures block == CompressXof(m, o.inputCv, o.block, o.blockLen, counter, o.flags | ROOT)
      ensures log == old(log) + [RootNode(all)]
    {
      var s := Compress(m, o.inputCv, o.block, o.blockLen, counter, o.flags | ROOT, RootNode(all));
      block := StoreWords(s);
    }
  }
}
