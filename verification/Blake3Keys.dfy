/** Keys as bytes: keyed hashing and key derivation run the same hasher under other key words. */
module Blake3Keys {
  import opened Bits
  import opened Bytes
  import opened Blake3Spec
  import opened Blake3Equations
  import opened Blake3Hasher

  /** blake3_hasher_init_keyed: the key's bytes are the key words. */
  function KeyedMode(ghost primitive: Primitive, key: CV): Mode {
    Mode(primitive, LoadWords(key), KEYED_HASH)
  }

  ghost function ContextMode(primitive: Primitive): Mode {
    Mode(primitive, IV, DERIVE_KEY_CONTEXT)
  }

  /** blake3_hasher_init_derive_key: the key words are loaded from the hash of the context. */
  ghost function MaterialMode(primitive: Primitive, context: seq<byte>): Mode {
    Mode(primitive, LoadWords(Hash(ContextMode(primitive), context, 0, OUT_LEN)), DERIVE_KEY_MATERIAL)
  }

  /** The three modes in numbers. */
  lemma ModeNumbers(primitive: Primitive, key: CV, context: seq<byte>, i: nat)
    requires i < 8
    ensures KeyedMode(primitive, key).flags == 16 && MaterialMode(primitive, context).flags == 64
    ensures KeyedMode(primitive, key).key[i] as int
         == key[4 * i] as int + 0x100 * key[4 * i + 1] as int + 0x1_0000 * key[4 * i + 2] as int
            + 0x100_0000 * key[4 * i + 3] as int
    ensures ContextMode(primitive) == Mode(primitive,
      [0x6A09E667, 0xBB67AE85, 0x3C6EF372, 0xA54FF53A, 0x510E527F, 0x9B05688C, 0x1F83D9AB, 0x5BE0CD19], 32)
  {
    hide LoadWords, Hash;
    LoadedWord(key, i);
  }

  /** Different keys are different modes. */
  lemma KeysDiffer(primitive: Primitive, a: CV, b: CV)
    ensures KeyedMode(primitive, a) == KeyedMode(primitive, b) <==> a == b
  {
    hide LoadWords, StoreWords;
    StoreLoaded(a);
    StoreLoaded(b);
  }

  /** Storing and loading lose nothing on the way: the key words under which the material is
      hashed are the first eight words of the compression of the context's root. */
  lemma DerivedKey(primitive: Primitive, context: seq<byte>)
    ensures var o := NodeOutput(ContextMode(primitive), context, 0);
      MaterialMode(primitive, context).key == primitive(o.inputCv, o.block, o.blockLen, 0, o.flags | ROOT)[..8]
  {
    hide NodeOutput, StoreWords, LoadWords;
    var m := ContextMode(primitive);
    var o := NodeOutput(m, context, 0);
    var state := primitive(o.inputCv, o.block, o.blockLen, 0, o.flags | ROOT);
    FirstBlock(m, o);
    StorePrefix(state, 8);
    LoadStored(state[..8]);
  }

  lemma FirstBlock(m: Mode, o: Output)
    ensures RootBytes(m, o, 0, OUT_LEN) == CompressXof(m, o.inputCv, o.block, o.blockLen, 0, o.flags | ROOT)[..32]
  {
    hide CompressXof;
  }

  /** blake3_hasher_init_keyed */
  method InitKeyed(primitive: Primitive, degree: nat, maxDegree: nat, maxDepth: nat, key: CV) returns (hasher: Hasher)
    requires IsPow2(degree) && IsPow2(maxDegree) && degree <= maxDegree
    ensures hasher.Valid() && hasher.absorbed == [] && hasher.m == KeyedMode(primitive, key)
  {
    hide Hasher.Valid;
    hasher := new Hasher(KeyedMode(primitive, key), primitive, degree, maxDegree, maxDepth);
  }

  /** blake3_hasher_init_derive_key_raw: a hasher of its own for the context, and its output as
      the key of the one that is returned. */
  method InitDeriveKey(primitive: Primitive, degree: nat, maxDegree: nat, maxDepth: nat, context: seq<byte>)
      returns (hasher: Hasher)
    requires IsPow2(degree) && IsPow2(maxDegree) && degree <= maxDegree
    requires |context| < Capacity(maxDepth) && |context| < SIZE_LIMIT
    ensures hasher.Valid() && hasher.absorbed == [] && hasher.m == MaterialMode(primitive, context)
  {
    hide Hasher.Valid, Hash, LoadWords, Capacity, IsPow2;
    var contextHasher := new Hasher(Mode(primitive, IV, DERIVE_KEY_CONTEXT), primitive, degree, maxDegree, maxDepth);
    contextHasher.Update(context);
    assert contextHasher.absorbed == context;
    var contextKey := new byte[OUT_LEN];
    contextHasher.FinalizeSeek(0, contextKey, OUT_LEN);
    var keyBytes := contextKey[..OUT_LEN];
    hasher := new Hasher(Mode(primitive, LoadWords(keyBytes), DERIVE_KEY_MATERIAL), primitive, degree, maxDegree, maxDepth);
  }
}
