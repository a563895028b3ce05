/** Extendable output: the root node's bytes as one unbounded stream. */
module Blake3Output {
  import opened Bytes
  import opened Blake3Spec
  import opened Blake3Compressor

  lemma BlockOf(m: Mode, o: Output, i: nat, counter: nat, k: nat)
    requires i == 64 * counter + k && k < 64
    ensures RootByte(m, o, i) == CompressXof(m, o.inputCv, o.block, o.blockLen, counter, o.flags | ROOT)[k]
  {
  }

  /** Adding the next bytes of the current 64-byte output block to what is already written. */
  lemma ExtendOutput(m: Mode, o: Output, seek: nat, pos: nat, counter: nat, offset: nat, n: nat)
    requires seek + pos == 64 * counter + offset && offset + n <= 64
    ensures RootBytes(m, o, seek, pos + n) == RootBytes(m, o, seek, pos)
      + CompressXof(m, o.inputCv, o.block, o.blockLen, counter, o.flags | ROOT)[offset..offset + n]
  {
    hide CompressXof, RootByte;
    var block := CompressXof(m, o.inputCv, o.block, o.blockLen, counter, o.flags | ROOT);
    var longer, shorter, part := RootBytes(m, o, seek, pos + n), RootBytes(m, o, seek, pos), block[offset..offset + n];
    forall i | 0 <= i < pos + n
      ensures longer[i] == (shorter + part)[i]
    {
      if i >= pos {
        BlockOf(m, o, seek + i, counter, offset + (i - pos));
      }
    }
  }

  /** How many 64-byte blocks of output a window touches. */
  function BlocksTouched(seek: nat, len: nat): nat {
    if len == 0 then 0 else (seek % 64 + len + 63) / 64
  }

  /** output_root_bytes: fill the output buffer from the seek position on, one compression for
      each block it touches. */
  method OutputRootBytes(m: Mode, comp: Compressor, o: Output, seek: nat, out: array<byte>, outLen: nat,
                         ghost all: seq<byte>)
    requires outLen <= out.Length && comp.For(m) && o == NodeOutput(m, all, 0)
    modifies out, comp
    ensures out[..outLen] == RootBytes(m, o, seek, outLen)
    ensures out[outLen..] == old(out[outLen..])
    ensures comp.log == old(comp.log) + Roots(all, BlocksTouched(seek, outLen))
  {
    hide *;
    var counter: nat, offset: nat := seek / 64, seek % 64;
    var pos: nat := 0;
    ghost var blocks := 0;
    EmptyOutput(m, o, seek);
    NoRoots(comp.log, all, seek);
    while pos < outLen
      invariant pos <= outLen && offset < 64 && blocks == BlocksTouched(seek, pos)
      invariant pos < outLen ==> seek + pos == 64 * counter + offset && (pos > 0 ==> offset == 0)
      invariant out[..pos] == RootBytes(m, o, seek, pos)
      invariant out[outLen..] == old(out[outLen..])
      invariant comp.log == old(comp.log) + Roots(all, blocks)
    {
      var block := comp.RootBlock(m, o, counter, all);
      var n: nat := 64 - offset;
      if outLen - pos <= n {
        n := outLen - pos;
      }
      ExtendOutput(m, o, seek, pos, counter, offset, n);
      ghost var before := out[..pos];
      forall j | 0 <= j < n { out[pos + j] := block[offset + j]; }
      assert out[..pos + n] == before + block[offset..offset + n];
      OneMoreBlock(seek, pos, counter, offset, n);
      RootsGrow(old(comp.log), all, blocks);
      blocks := blocks + 1;
      pos := pos + n;
      counter, offset := counter + 1, 0;
    }
  }

  lemma NoRoots(log: seq<Entry>, all: seq<byte>, seek: nat)
    ensures log == log + Roots(all, BlocksTouched(seek, 0)) && BlocksTouched(seek, 0) == 0
  {
  }

  lemma RootsGrow(log: seq<Entry>, all: seq<byte>, blocks: nat)
    ensures log + Roots(all, blocks + 1) == log + Roots(all, blocks) + [RootNode(all)]
  {
  }

  lemma OneMoreBlock(seek: nat, pos: nat, counter: nat, offset: nat, n: nat)
    requires seek + pos == 64 * counter + offset && 0 < n && offset + n <= 64
    requires pos > 0 ==> offset == 0
    ensures BlocksTouched(seek, pos + n) == BlocksTouched(seek, pos) + 1
  {
  }

  lemma EmptyOutput(m: Mode, o: Output, seek: nat)
    ensures RootBytes(m, o, seek, 0) == []
  {
  }

  /** The output is a stream: any window of it is the same whatever length was asked for. */
  lemma OutputIsStream(m: Mode, input: seq<byte>, seek: nat, len: nat, from: nat, n: nat)
    requires from + n <= len
    ensures Hash(m, input, seek, len)[from..from + n] == Hash(m, input, seek + from, n)
  {
  }
}
