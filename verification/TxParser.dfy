/** The parser as it runs: readers that advance an offset and fill the transaction object. */
module TxParser {
  import opened Bytes
  import opened Errors
  import opened Scale
  import opened TxGrammar

  /** How a reader came out, against what the bytes in front of it allow. */
  ghost predicate Agrees<T>(p: Parsed<T>, e: ParserError, value: T, rest: seq<byte>) {
    match p
    case Fail(error) => e == error && e != ParserOk
    case Done(v, r) => e == ParserOk && value == v && rest == r
  }

  class ParserContext {
    const buffer: seq<byte>
    var offset: nat

    ghost predicate Valid()
      reads this
    {
      offset <= |buffer| < 0x1_0000
    }

    function Rest(): seq<byte>
      requires Valid()
      reads this
    {
      buffer[offset..]
    }

    constructor (data: seq<byte>)
      requires |data| < 0x1_0000
      ensures Valid() && buffer == data && offset == 0
    {
      buffer := data;
      offset := 0;
    }

    /** readCompactInt: the bytes of one compact integer, not yet decoded. */
    method ReadCompactInt() returns (e: ParserError, c: seq<byte>)
      requires Valid()
      modifies this
      ensures Valid() && old(offset) <= offset
      ensures e == ParserOk ==> c != [] && |c| == CompactLen(c[0]) && old(Rest()) == c + Rest()
      ensures e != ParserOk ==>
        e == UnexpectedBufferEnd && offset == old(offset) && (Rest() == [] || |Rest()| < CompactLen(Rest()[0]))
    {
      if offset + 1 > |buffer| {
        return UnexpectedBufferEnd, [];
      }
      var len := CompactLen(buffer[offset]);
      if offset + len > |buffer| {
        return UnexpectedBufferEnd, [];
      }
      c := buffer[offset..offset + len];
      offset := offset + len;
      e := ParserOk;
    }

    /** readCompactU64 */
    method ReadCompactU64() returns (e: ParserError, value: nat)
      requires Valid()
      modifies this
      ensures Valid() && old(offset) <= offset
      ensures Agrees(TakeCompact(old(Rest())), e, value, Rest())
    {
      hide CompactValue, CompactLen;
      var c;
      e, c := ReadCompactInt();
      if e != ParserOk {
        return e, 0;
      }
      ghost var before := old(Rest());
      assert before[..|c|] == c && before[|c|..] == Rest() && before[0] == c[0];
      e, value := GetValue(c);
    }

    /** readCompactU32 and readCompactU8: the same, then a range check. */
    method ReadCompactUpTo(max: nat) returns (e: ParserError, value: nat)
      requires Valid()
      modifies this
      ensures Valid() && old(offset) <= offset
      ensures Agrees(TakeCompactUpTo(old(Rest()), max), e, value, Rest())
    {
      hide TakeCompact;
      e, value := ReadCompactU64();
      if e == ParserOk && value > max {
        e := ValueOutOfRange;
      }
    }

    /** readFixedArray: a slice of the buffer, wholly inside it. */
    method ReadFixedArray(size: nat) returns (e: ParserError, bytes: seq<byte>)
      requires Valid()
      modifies this
      ensures Valid() && old(offset) <= offset
      ensures Agrees(TakeBytes(old(Rest()), size), e, bytes, Rest())
      ensures e == ParserOk ==> bytes == buffer[old(offset)..offset]
    {
      if offset + 1 > |buffer| || offset + size > |buffer| {
        return UnexpectedBufferEnd, [];
      }
      bytes := buffer[offset..offset + size];
      offset := offset + size;
      assert old(Rest())[..size] == bytes && old(Rest())[size..] == Rest();
      e := ParserOk;
    }
  }

  /** parser_tx_t. The template, arguments and amounts of the union are one value. */
  class TxObject {
    var genesisId: seq<byte>
    var accountType: nat
    var txVersion: nat
    var principal: seq<byte>
    var methodSelector: nat
    var payload: Payload

    /** All bytes zero, as before every parse. */
    constructor ()
      ensures accountType == UNKNOWN
    {
      genesisId, accountType, txVersion, principal, methodSelector := [], UNKNOWN, 0, [], 0;
      payload := Payload(0, 0, Spend([], 0));
    }

    function Value(): Tx
      reads this
    {
      Tx(genesisId, principal, payload)
    }
  }

  /** The account type a parsed body leaves in the object: unknown templates leave it alone. */
  function AccountTypeOf(body: Body, before: nat): nat {
    match body
    case Spawn(template, args) =>
      if args.NoArgs? || template == [] then before else template[|template| - 1]
    case Spend(_, _) => before
    case Drain(_, _, _) => before
  }

  /** _readTxVersion */
  method ReadTxVersion(ctx: ParserContext) returns (e: ParserError, value: nat)
    requires ctx.Valid()
    modifies ctx
    ensures ctx.Valid() && old(ctx.offset) <= ctx.offset
    ensures Agrees(TakeVersion(old(ctx.Rest())), e, value, ctx.Rest())
  {
    hide TakeCompact;
    e, value := ctx.ReadCompactUpTo(MAX_UINT8);
    if e == ParserOk && value != TX_VERSION {
      e := UnexpectedVersion;
    }
  }

  /** _readMethodSelector */
  method ReadMethodSelector(ctx: ParserContext) returns (e: ParserError, value: nat)
    requires ctx.Valid()
    modifies ctx
    ensures ctx.Valid() && old(ctx.offset) <= ctx.offset
    ensures Agrees(TakeMethod(old(ctx.Rest())), e, value, ctx.Rest())
  {
    hide TakeCompact;
    e, value := ctx.ReadCompactUpTo(MAX_UINT8);
    if e == ParserOk && value != METHOD_SPAWN && value != METHOD_SPEND && value != METHOD_DRAIN_VAULT {
      e := UnexpectedMethodSelector;
    }
  }

  /** The key loop of a multisig or vesting spawn. */
  method ReadKeys(ctx: ParserContext, n: nat) returns (e: ParserError, keys: seq<seq<byte>>)
    requires ctx.Valid()
    modifies ctx
    ensures ctx.Valid() && old(ctx.offset) <= ctx.offset
    ensures Agrees(TakeKeys(old(ctx.Rest()), n), e, keys, ctx.Rest())
  {
    hide TakeBytes, TakeKeys;
    keys := [];
    var i := 0;
    NoMoreKeys(ctx.Rest());
    while i < n
      invariant i <= n && ctx.Valid() && old(ctx.offset) <= ctx.offset
      invariant TakeKeys(old(ctx.Rest()), n) == Prepend(keys, TakeKeys(ctx.Rest(), n - i))
    {
      ghost var s := ctx.Rest();
      var key;
      e, key := ctx.ReadFixedArray(PUB_KEY_LENGTH);
      OneMoreKey(s, n - i, keys);
      if e != ParserOk {
        return;
      }
      keys := keys + [key];
      i := i + 1;
    }
    NoMoreKeys(ctx.Rest());
    assert keys + [] == keys;
    e := ParserOk;
  }

  ghost function Prepend(keys: seq<seq<byte>>, p: Parsed<seq<seq<byte>>>): Parsed<seq<seq<byte>>> {
    match p
    case Fail(error) => Fail(error)
    case Done(more, r) => Done(keys + more, r)
  }

  lemma NoMoreKeys(s: seq<byte>)
    ensures TakeKeys(s, 0) == Done([], s)
    ensures forall p :: Prepend([], p) == p
  {
    forall p
      ensures Prepend([], p) == p
    {
      if p.Done? { assert [] + p.value == p.value; }
    }
  }

  lemma OneMoreKey(s: seq<byte>, n: nat, keys: seq<seq<byte>>)
    requires n > 0
    ensures match TakeBytes(s, PUB_KEY_LENGTH)
      case Fail(error) => Prepend(keys, TakeKeys(s, n)) == Fail(error)
      case Done(key, r) => Prepend(keys, TakeKeys(s, n)) == Prepend(keys + [key], TakeKeys(r, n - 1))
  {
    hide TakeBytes;
    match TakeBytes(s, PUB_KEY_LENGTH)
    case Fail(_) =>
    case Done(key, r) =>
      match TakeKeys(r, n - 1)
      case Fail(_) =>
      case Done(more, _) => assert keys + ([key] + more) == keys + [key] + more;
  }

  /** The multisig and vesting arguments of a spawn. */
  method ReadMultisigArgs(ctx: ParserContext) returns (e: ParserError, args: SpawnArgs)
    requires ctx.Valid()
    modifies ctx
    ensures ctx.Valid() && old(ctx.offset) <= ctx.offset
    ensures Agrees(TakeMultisig(old(ctx.Rest())), e, args, ctx.Rest())
  {
    hide TakeCompactUpTo, TakeKeys;
    args := NoArgs;
    var approvers, numberOfPubkeys, keys;
    e, approvers := ctx.ReadCompactUpTo(MAX_UINT8);
    if e != ParserOk { return; }
    if approvers > MAX_MULTISIG_PUB_KEY { return UnexpectedValue, args; }
    e, numberOfPubkeys := ctx.ReadCompactUpTo(MAX_UINT8);
    if e != ParserOk { return; }
    if numberOfPubkeys < approvers || numberOfPubkeys > MAX_MULTISIG_PUB_KEY { return UnexpectedValue, args; }
    e, keys := ReadKeys(ctx, numberOfPubkeys);
    args := MultisigArgs(approvers, keys);
  }

  /** The vault arguments of a spawn. */
  method ReadVaultArgs(ctx: ParserContext) returns (e: ParserError, args: SpawnArgs)
    requires ctx.Valid()
    modifies ctx
    ensures ctx.Valid() && old(ctx.offset) <= ctx.offset
    ensures Agrees(TakeVault(old(ctx.Rest())), e, args, ctx.Rest())
  {
    hide TakeCompact, TakeCompactUpTo, TakeBytes;
    args := NoArgs;
    var owner, total, unlock, start, end;
    e, owner := ctx.ReadFixedArray(ADDRESS_LENGTH);
    if e != ParserOk { return; }
    e, total := ctx.ReadCompactU64();
    if e != ParserOk { return; }
    e, unlock := ctx.ReadCompactU64();
    if e != ParserOk { return; }
    if unlock > total { return UnexpectedValue, args; }
    e, start := ctx.ReadCompactUpTo(MAX_UINT32);
    if e != ParserOk { return; }
    e, end := ctx.ReadCompactUpTo(MAX_UINT32);
    if e != ParserOk { return; }
    if start > end { return UnexpectedValue, args; }
    args := VaultArgs(owner, total, unlock, start, end);
  }

  /** The switch of _readSpawnTx over the template's last byte. */
  method ReadSpawnArgs(ctx: ParserContext, last: byte) returns (e: ParserError, args: SpawnArgs)
    requires ctx.Valid()
    modifies ctx
    ensures ctx.Valid() && old(ctx.offset) <= ctx.offset
    ensures Agrees(TakeArgs(old(ctx.Rest()), last), e, args, ctx.Rest())
  {
    hide TakeMultisig, TakeVault, TakeBytes;
    if last == WALLET {
      var pubkey;
      e, pubkey := ctx.ReadFixedArray(PUB_KEY_LENGTH);
      args := WalletArgs(pubkey);
    } else if last == MULTISIG || last == VESTING {
      e, args := ReadMultisigArgs(ctx);
    } else if last == VAULT {
      e, args := ReadVaultArgs(ctx);
    } else {
      return ParserOk, NoArgs;
    }
  }

  /** _readSpawnTx: an unknown template has no arguments and leaves the account type alone. */
  method ReadSpawnTx(ctx: ParserContext, v: TxObject) returns (e: ParserError)
    requires ctx.Valid()
    modifies ctx, v`payload, v`accountType
    ensures ctx.Valid() && old(ctx.offset) <= ctx.offset
    ensures Agrees(TakeSpawn(old(ctx.Rest())), e, v.payload, ctx.Rest())
    ensures e == ParserOk ==> v.accountType == AccountTypeOf(v.payload.body, old(v.accountType))
  {
    hide TakeCompact, TakeArgs;
    var template, nonce, gasPrice, args;
    e, template := ctx.ReadFixedArray(ADDRESS_LENGTH);
    if e != ParserOk { return; }
    e, nonce := ctx.ReadCompactU64();
    if e != ParserOk { return; }
    e, gasPrice := ctx.ReadCompactU64();
    if e != ParserOk { return; }
    var last := template[|template| - 1];
    if last == WALLET || last == MULTISIG || last == VESTING || last == VAULT {
      v.accountType := last;
    }
    ghost var s := ctx.Rest();
    e, args := ReadSpawnArgs(ctx, last);
    if e != ParserOk { return; }
    KnownTemplate(s, last, args, ctx.Rest());
    v.payload := Payload(nonce, gasPrice, Spawn(template, args));
  }

  lemma KnownTemplate(s: seq<byte>, last: byte, args: SpawnArgs, r: seq<byte>)
    requires TakeArgs(s, last) == Done(args, r)
    ensures args.NoArgs? <==> last !in {WALLET, MULTISIG, VESTING, VAULT}
  {
  }

  /** _readSpendTx */
  method ReadSpendTx(ctx: ParserContext, v: TxObject) returns (e: ParserError)
    requires ctx.Valid()
    modifies ctx, v`payload
    ensures ctx.Valid() && old(ctx.offset) <= ctx.offset
    ensures Agrees(TakeSpend(old(ctx.Rest())), e, v.payload, ctx.Rest())
  {
    hide TakeCompact, TakeBytes;
    var nonce, gasPrice, destination, amount;
    e, nonce := ctx.ReadCompactU64();
    if e != ParserOk { return; }
    e, gasPrice := ctx.ReadCompactU64();
    if e != ParserOk { return; }
    e, destination := ctx.ReadFixedArray(ADDRESS_LENGTH);
    if e != ParserOk { return; }
    e, amount := ctx.ReadCompactU64();
    if e != ParserOk { return; }
    v.payload := Payload(nonce, gasPrice, Spend(destination, amount));
  }

  /** _readDrainTx */
  method ReadDrainTx(ctx: ParserContext, v: TxObject) returns (e: ParserError)
    requires ctx.Valid()
    modifies ctx, v`payload
    ensures ctx.Valid() && old(ctx.offset) <= ctx.offset
    ensures Agrees(TakeDrain(old(ctx.Rest())), e, v.payload, ctx.Rest())
  {
    hide TakeCompact, TakeBytes;
    var nonce, gasPrice, vault, destination, amount;
    e, nonce := ctx.ReadCompactU64();
    if e != ParserOk { return; }
    e, gasPrice := ctx.ReadCompactU64();
    if e != ParserOk { return; }
    e, vault := ctx.ReadFixedArray(ADDRESS_LENGTH);
    if e != ParserOk { return; }
    e, destination := ctx.ReadFixedArray(ADDRESS_LENGTH);
    if e != ParserOk { return; }
    e, amount := ctx.ReadCompactU64();
    if e != ParserOk { return; }
    v.payload := Payload(nonce, gasPrice, Drain(vault, destination, amount));
  }

  method ReadPayload(ctx: ParserContext, v: TxObject) returns (e: ParserError)
    requires ctx.Valid()
    modifies ctx, v`payload, v`accountType
    ensures ctx.Valid() && old(ctx.offset) <= ctx.offset
    ensures Agrees(TakePayload(old(ctx.Rest()), v.methodSelector), e, v.payload, ctx.Rest())
    ensures e == ParserOk ==> v.accountType == AccountTypeOf(v.payload.body, old(v.accountType))
  {
    hide TakeSpawn, TakeSpend, TakeDrain;
    ghost var s := ctx.Rest();
    if v.methodSelector == METHOD_SPAWN {
      e := ReadSpawnTx(ctx, v);
    } else if v.methodSelector == METHOD_SPEND {
      e := ReadSpendTx(ctx, v);
      if e == ParserOk { SpendIff(s, v.payload, ctx.Rest()); }
    } else if v.methodSelector == METHOD_DRAIN_VAULT {
      e := ReadDrainTx(ctx, v);
      if e == ParserOk { DrainIff(s, v.payload, ctx.Rest()); }
    } else {
      e := UnexpectedValue;
    }
  }

  /** A spawn whose template ends in a type the parser knows. */
  predicate TypedSpawn(body: Body) {
    body.Spawn? && |body.template| == 24 && body.template[23] in {1, 2, 3, 4}
  }

  lemma TypeByTemplate(p: Payload, before: nat)
    requires PayloadOk(p)
    ensures AccountTypeOf(p.body, before) == if TypedSpawn(p.body) then p.body.template[23] as nat else before
  {
  }

  /** What remains of reading a transaction after its header. */
  ghost function ReadTxFrom(genesisId: seq<byte>, principal: seq<byte>, selector: nat, s: seq<byte>): Parsed<Tx> {
    var (payload, r) :- TakePayload(s, selector);
    if r != [] then Fail(UnexpectedUnparsedBytes) else Done(Tx(genesisId, principal, payload), r)
  }

  /** The common fields in front of every method. */
  method ReadHeader(ctx: ParserContext, v: TxObject) returns (e: ParserError)
    requires ctx.Valid()
    modifies ctx, v`genesisId, v`txVersion, v`principal, v`methodSelector
    ensures ctx.Valid() && old(ctx.offset) <= ctx.offset
    ensures e != ParserOk ==> ReadTx(old(ctx.Rest())) == Fail(e)
    ensures e == ParserOk ==> v.txVersion == TX_VERSION
    ensures e == ParserOk ==>
      ReadTx(old(ctx.Rest())) == ReadTxFrom(v.genesisId, v.principal, v.methodSelector, ctx.Rest())
  {
    hide TakeBytes, TakeCompactUpTo, TakePayload;
    e, v.genesisId := ctx.ReadFixedArray(GENESIS_LENGTH);
    if e != ParserOk { return; }
    e, v.txVersion := ReadTxVersion(ctx);
    if e != ParserOk { return; }
    e, v.principal := ctx.ReadFixedArray(ADDRESS_LENGTH);
    if e != ParserOk { return; }
    e, v.methodSelector := ReadMethodSelector(ctx);
  }

  /** _read: accepts exactly the transactions the grammar spells, with no byte left over; on
      any outcome the offset has not moved back or past the end. */
  method Read(ctx: ParserContext, v: TxObject) returns (e: ParserError)
    requires ctx.Valid()
    modifies ctx, v
    ensures ctx.Valid() && old(ctx.offset) <= ctx.offset
    ensures Agrees(ReadTx(old(ctx.Rest())), e, v.Value(), ctx.Rest())
    ensures e == ParserOk ==> ctx.Rest() == [] && WellFormed(v.Value()) && Spells(old(ctx.Rest()), Fields(v.Value()))
    ensures e == ParserOk ==> v.methodSelector == MethodOf(v.payload.body) && v.txVersion == TX_VERSION
    ensures e == ParserOk ==> v.accountType == AccountTypeOf(v.payload.body, old(v.accountType))
    ensures e == ParserOk && TypedSpawn(v.payload.body) ==> v.accountType == v.payload.body.template[23] as nat
    ensures e == ParserOk && !TypedSpawn(v.payload.body) ==> v.accountType == old(v.accountType)
  {
    hide ReadTx, TakePayload, WellFormed, Fields, Spells, AccountTypeOf, TypedSpawn;
    ghost var s := ctx.Rest();
    e := ReadHeader(ctx, v);
    if e != ParserOk { return; }
    ghost var s' := ctx.Rest();
    e := ReadPayload(ctx, v);
    if e != ParserOk { return; }
    if ctx.offset != |ctx.buffer| {
      return UnexpectedUnparsedBytes;
    }
    PayloadIff(s', v.methodSelector, v.payload, ctx.Rest());
    TypeByTemplate(v.payload, old(v.accountType));
    ReadTxIff(s, v.Value());
  }

  /** parser_parse on a zeroed object. */
  method Parse(data: seq<byte>) returns (e: ParserError, v: TxObject)
    requires |data| < 0x1_0000
    ensures fresh(v)
    ensures data == [] ==> e == InitContextEmpty
    ensures data != [] ==> Agrees(ReadTx(data), e, v.Value(), [])
    ensures e == ParserOk ==> v.accountType == AccountTypeOf(v.payload.body, UNKNOWN)
    ensures e == ParserOk && TypedSpawn(v.payload.body) ==> v.accountType == v.payload.body.template[23] as nat
    ensures e == ParserOk && !TypedSpawn(v.payload.body) ==> v.accountType == 0
  {
    hide ReadTx, AccountTypeOf, TypedSpawn;
    v := new TxObject();
    if data == [] {
      return InitContextEmpty, v;
    }
    var ctx := new ParserContext(data);
    assert ctx.Rest() == data;
    e := Read(ctx, v);
  }
}
