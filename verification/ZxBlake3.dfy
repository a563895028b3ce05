/** The application's wrapper around the hasher: one static hasher, and a cap on the bytes
    accepted since the last initialisation that keeps the three-slot stack sufficient. */
module ZxBlake3 {
  import opened Bits
  import opened Bytes
  import opened Blake3Spec
  import opened Blake3Compressor
  import opened Blake3Equations
  import opened Blake3Output
  import opened Blake3Hasher
  import opened Errors

  const MAX_INPUT_LEN: nat := 4095
  const BLAKE3_MAX_DEPTH: nat := 2

  /** blake3_hasher_init: plain hashing under the IV. */
  function PlainMode(ghost compress: Primitive): Mode {
    Mode(compress, IV, 0)
  }

  /** Static storage before the first initialisation: an all-zero key. */
  function ZeroMode(ghost compress: Primitive): Mode {
    Mode(compress, seq(8, _ => 0), 0)
  }

  /** Three slots: fewer than 8192 bytes fit, however they are cut up. */
  lemma ThreeSlots()
    ensures Capacity(BLAKE3_MAX_DEPTH) == 8192
  {
  }

  /** Plain hashing of a single block, in numbers: the initial words, the bytes and zeros, their
      number, and the flags for the start and end of a chunk and for the root. */
  ghost function PlainBlockHash(compress: Primitive, s: seq<byte>): seq<byte>
    requires |s| <= 64
  {
    StoreWords(compress(
      [0x6A09E667, 0xBB67AE85, 0x3C6EF372, 0xA54FF53A, 0x510E527F, 0x9B05688C, 0x1F83D9AB, 0x5BE0CD19],
      s + seq(64 - |s|, _ => 0), |s|, 0, 1 | 2 | 8))[..32]
  }

  lemma PlainOneBlock(compress: Primitive, s: seq<byte>, len: nat)
    requires 0 < |s| <= 64 && len >= 32
    ensures |Hash(PlainMode(compress), s, 0, len)| == len
    ensures Hash(PlainMode(compress), s, 0, len)[..32] == PlainBlockHash(compress, s)
  {
    hide Hash, StoreWords;
    OneBlock(PlainMode(compress), s, len);
  }

  class HashSession {
    const compress: Primitive
    const degree: nat
    const maxDegree: nat
    var hasher: Hasher
    var accumInLen: nat

    ghost function Repr(): set<object>
      reads this
    {
      {this, hasher, hasher.chunk, hasher.chunk.buf, hasher.cvStack, hasher.comp}
    }

    /** Every accepted run keeps this: what the hasher holds never exceeds the accounted bytes
        by more than one maximal one-shot input. */
    ghost predicate Valid()
      reads Repr()
    {
      && hasher.Valid() && hasher.maxDepth == BLAKE3_MAX_DEPTH
      && IsPow2(degree) && IsPow2(maxDegree) && degree <= maxDegree
      && accumInLen <= MAX_INPUT_LEN
      && |hasher.absorbed| <= MAX_INPUT_LEN + accumInLen
    }

    constructor (compress: Primitive, degree: nat, maxDegree: nat)
      requires IsPow2(degree) && IsPow2(maxDegree) && degree <= maxDegree
      ensures Valid() && fresh(Repr())
      ensures this.compress == compress && hasher.m == ZeroMode(compress)
      ensures hasher.absorbed == [] && accumInLen == 0
    {
      hide Hasher.Valid;
      this.compress, this.degree, this.maxDegree := compress, degree, maxDegree;
      hasher := new Hasher(ZeroMode(compress), compress, degree, maxDegree, BLAKE3_MAX_DEPTH);
      accumInLen := 0;
    }

    /** zxblake3_hash_init */
    method Init()
      requires Valid()
      modifies this
      ensures Valid() && fresh(Repr() - {this})
      ensures hasher.m == PlainMode(compress) && hasher.absorbed == [] && accumInLen == 0
      ensures hasher.m == Mode(compress,
        [0x6A09E667, 0xBB67AE85, 0x3C6EF372, 0xA54FF53A, 0x510E527F, 0x9B05688C, 0x1F83D9AB, 0x5BE0CD19], 0)
    {
      hide Hasher.Valid;
      hasher := new Hasher(PlainMode(compress), compress, degree, maxDegree, BLAKE3_MAX_DEPTH);
      accumInLen := 0;
    }

    /** zxblake3_hash_update: accepted exactly when there is input and the total stays within
        the cap; refused otherwise with nothing changed. */
    method Update(input: Option<seq<byte>>) returns (e: ParserError)
      requires Valid() && (input.Some? ==> |input.value| < 0x1_0000)
      modifies Repr()
      ensures Valid() && Repr() == old(Repr()) && hasher == old(hasher)
      ensures e == ParserOk <==> input.Some? && input.value != [] && old(accumInLen) + |input.value| <= 4095
      ensures e == ParserOk ==>
        hasher.absorbed == old(hasher.absorbed) + input.value && accumInLen == old(accumInLen) + |input.value|
      ensures e != ParserOk ==>
        unchanged(this, hasher, hasher.chunk, hasher.chunk.buf, hasher.cvStack, hasher.comp)
      ensures e != ParserOk ==> e == if input == None || input.value == [] then UnexpectedError else UnexpectedValue
    {
      hide Hasher.Valid;
      if input.None? || input.value == [] {
        return UnexpectedError;
      }
      if accumInLen + |input.value| > MAX_INPUT_LEN {
        return UnexpectedValue;
      }
      ThreeSlots();
      accumInLen := accumInLen + |input.value|;
      hasher.Update(input.value);
      e := ParserOk;
    }

    /** zxblake3_hash_finalize */
    method Finalize(out: array?<byte>, outLen: nat) returns (e: ParserError)
      requires Valid() && (out != null ==> outLen <= out.Length && out != hasher.chunk.buf)
      modifies out, hasher.comp
      ensures Valid()
      ensures e == ParserOk <==> out != null && outLen >= 32
      ensures e == ParserOk ==>
        Finished(old(hasher.comp.log), hasher.comp.log, hasher.absorbed, BlocksTouched(0, outLen))
      ensures e != ParserOk ==> hasher.comp.log == old(hasher.comp.log)
      ensures e == ParserOk ==>
        out[..outLen] == Hash(hasher.m, hasher.absorbed, 0, outLen) && out[outLen..] == old(out[outLen..])
      ensures e != ParserOk ==> e == UnexpectedError && (out != null ==> out[..] == old(out[..]))
    {
      hide Hasher.Valid, Hash;
      if out == null || outLen < OUT_LEN {
        return UnexpectedError;
      }
      hasher.FinalizeSeek(0, out, outLen);
      e := ParserOk;
    }

    /** zxblake3_hash: one shot. It does not touch the running total. */
    method HashOnce(input: Option<seq<byte>>, out: array?<byte>, outLen: nat) returns (e: ParserError)
      requires Valid() && (out != null ==> outLen <= out.Length && out != hasher.chunk.buf)
      requires input.Some? ==> |input.value| < 0x1_0000
      modifies this, out
      ensures Valid() && fresh(Repr() - old(Repr()))
      ensures accumInLen == old(accumInLen)
      ensures e == ParserOk <==>
        input.Some? && 0 < |input.value| <= 4095 && out != null && outLen >= 32
      ensures e == ParserOk ==>
        out[..outLen] == Hash(PlainMode(compress), input.value, 0, outLen) && hasher.absorbed == input.value
      ensures e == ParserOk && |input.value| <= 64 ==>
        out[..32] == PlainBlockHash(compress, input.value)
      ensures e == UnexpectedValue <==>
        input.Some? && |input.value| > 4095 && out != null && outLen >= 32
      ensures e in {ParserOk, UnexpectedError, UnexpectedValue}
      ensures e != ParserOk ==> hasher == old(hasher) && (out != null ==> out[..] == old(out[..]))
    {
      hide Hasher.Valid, Hash, PlainBlockHash;
      if input.None? || input.value == [] || out == null || outLen < OUT_LEN {
        return UnexpectedError;
      }
      if |input.value| > MAX_INPUT_LEN {
        return UnexpectedValue;
      }
      ThreeSlots();
      hasher := new Hasher(PlainMode(compress), compress, degree, maxDegree, BLAKE3_MAX_DEPTH);
      hasher.Update(input.value);
      assert hasher.absorbed == input.value;
      hasher.FinalizeSeek(0, out, outLen);
      if |input.value| <= 64 {
        PlainOneBlock(compress, input.value, outLen);
        assert out[..32] == out[..outLen][..32];
      }
      e := ParserOk;
    }
  }
}
