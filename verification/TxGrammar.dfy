/** The transaction format: what the parser reads off a buffer, the grammar of field spellings,
    and the canonical serialisation. */
module TxGrammar {
  import opened Bytes
  import opened Errors
  import opened Scale

  const GENESIS_LENGTH: nat := 20
  const ADDRESS_LENGTH: nat := 24
  const PUB_KEY_LENGTH: nat := 32
  const MAX_MULTISIG_PUB_KEY: nat := 10
  const MAX_UINT8: nat := 255
  const MAX_UINT32: nat := 0xFFFF_FFFF

  const TX_VERSION: nat := 0
  const METHOD_SPAWN: nat := 0
  const METHOD_SPEND: nat := 16
  const METHOD_DRAIN_VAULT: nat := 17

  const UNKNOWN: nat := 0
  const WALLET: nat := 1
  const MULTISIG: nat := 2
  const VESTING: nat := 3
  const VAULT: nat := 4

  /** What a spawn carries after its template, chosen by the template's last byte; nothing for
      a template the parser does not know. */
  datatype SpawnArgs =
    | WalletArgs(pubkey: seq<byte>)
    | MultisigArgs(approvers: nat, keys: seq<seq<byte>>)
    | VaultArgs(owner: seq<byte>, total: nat, unlock: nat, start: nat, end: nat)
    | NoArgs

  datatype Body =
    | Spawn(template: seq<byte>, args: SpawnArgs)
    | Spend(destination: seq<byte>, amount: nat)
    | Drain(vault: seq<byte>, destination: seq<byte>, amount: nat)

  datatype Payload = Payload(nonce: nat, gasPrice: nat, body: Body)

  datatype Tx = Tx(genesisId: seq<byte>, principal: seq<byte>, payload: Payload)

  function MethodOf(body: Body): nat {
    match body
    case Spawn(_, _) => METHOD_SPAWN
    case Spend(_, _) => METHOD_SPEND
    case Drain(_, _, _) => METHOD_DRAIN_VAULT
  }

  // ---------- Reading ----------

  function TakeBytes(s: seq<byte>, n: nat): Parsed<seq<byte>> {
    if s == [] || |s| < n then Fail(UnexpectedBufferEnd) else Done(s[..n], s[n..])
  }

  function TakeVersion(s: seq<byte>): Parsed<nat> {
    var (v, r) :- TakeCompactUpTo(s, MAX_UINT8);
    if v != TX_VERSION then Fail(UnexpectedVersion) else Done(v, r)
  }

  function TakeMethod(s: seq<byte>): Parsed<nat> {
    var (v, r) :- TakeCompactUpTo(s, MAX_UINT8);
    if v != METHOD_SPAWN && v != METHOD_SPEND && v != METHOD_DRAIN_VAULT then Fail(UnexpectedMethodSelector)
    else Done(v, r)
  }

  function TakeKeys(s: seq<byte>, n: nat): Parsed<seq<seq<byte>>> {
    if n == 0 then Done([], s)
    else
      var (key, r) :- TakeBytes(s, PUB_KEY_LENGTH);
      var (keys, r2) :- TakeKeys(r, n - 1);
      Done([key] + keys, r2)
  }

  function TakeMultisig(s: seq<byte>): Parsed<SpawnArgs> {
    var (approvers, r) :- TakeCompactUpTo(s, MAX_UINT8);
    if approvers > MAX_MULTISIG_PUB_KEY then Fail(UnexpectedValue)
    else
      var (n, r2) :- TakeCompactUpTo(r, MAX_UINT8);
      if n < approvers || n > MAX_MULTISIG_PUB_KEY then Fail(UnexpectedValue)
      else
        var (keys, r3) :- TakeKeys(r2, n);
        Done(MultisigArgs(approvers, keys), r3)
  }

  function TakeVault(s: seq<byte>): Parsed<SpawnArgs> {
    var (owner, r) :- TakeBytes(s, ADDRESS_LENGTH);
    var (total, r2) :- TakeCompact(r);
    var (unlock, r3) :- TakeCompact(r2);
    if unlock > total then Fail(UnexpectedValue)
    else
      var (start, r4) :- TakeCompactUpTo(r3, MAX_UINT32);
      var (end, r5) :- TakeCompactUpTo(r4, MAX_UINT32);
      if start > end then Fail(UnexpectedValue)
      else Done(VaultArgs(owner, total, unlock, start, end), r5)
  }

  function TakeArgs(s: seq<byte>, accountType: byte): Parsed<SpawnArgs> {
    if accountType == WALLET then
      var (pubkey, r) :- TakeBytes(s, PUB_KEY_LENGTH);
      Done(WalletArgs(pubkey), r)
    else if accountType == MULTISIG || accountType == VESTING then TakeMultisig(s)
    else if accountType == VAULT then TakeVault(s)
    else Done(NoArgs, s)
  }

  function TakeSpawn(s: seq<byte>): Parsed<Payload> {
    var (template, r) :- TakeBytes(s, ADDRESS_LENGTH);
    var (nonce, r2) :- TakeCompact(r);
    var (gasPrice, r3) :- TakeCompact(r2);
    var (args, r4) :- TakeArgs(r3, template[ADDRESS_LENGTH - 1]);
    Done(Payload(nonce, gasPrice, Spawn(template, args)), r4)
  }

  function TakeSpend(s: seq<byte>): Parsed<Payload> {
    var (nonce, r) :- TakeCompact(s);
    var (gasPrice, r2) :- TakeCompact(r);
    var (destination, r3) :- TakeBytes(r2, ADDRESS_LENGTH);
    var (amount, r4) :- TakeCompact(r3);
    Done(Payload(nonce, gasPrice, Spend(destination, amount)), r4)
  }

  function TakeDrain(s: seq<byte>): Parsed<Payload> {
    var (nonce, r) :- TakeCompact(s);
    var (gasPrice, r2) :- TakeCompact(r);
    var (vault, r3) :- TakeBytes(r2, ADDRESS_LENGTH);
    var (destination, r4) :- TakeBytes(r3, ADDRESS_LENGTH);
    var (amount, r5) :- TakeCompact(r4);
    Done(Payload(nonce, gasPrice, Drain(vault, destination, amount)), r5)
  }

  function TakePayload(s: seq<byte>, selector: nat): Parsed<Payload> {
    if selector == METHOD_SPAWN then TakeSpawn(s)
    else if selector == METHOD_SPEND then TakeSpend(s)
    else if selector == METHOD_DRAIN_VAULT then TakeDrain(s)
    else Fail(UnexpectedValue)
  }

  /** The whole transaction; nothing may be left over. */
  function ReadTx(s: seq<byte>): Parsed<Tx> {
    var (genesisId, r) :- TakeBytes(s, GENESIS_LENGTH);
    var (_, r2) :- TakeVersion(r);
    var (principal, r3) :- TakeBytes(r2, ADDRESS_LENGTH);
    var (selector, r4) :- TakeMethod(r3);
    var (payload, r5) :- TakePayload(r4, selector);
    if r5 != [] then Fail(UnexpectedUnparsedBytes) else Done(Tx(genesisId, principal, payload), r5)
  }

  // ---------- The grammar ----------

  /** A transaction is a list of fields: byte strings as they are, and compact integers. */
  datatype Field = Raw(bytes: seq<byte>) | Num(value: nat)

  /** What is left of s after an accepted spelling of the field; None if s does not start with one. */
  function Strip(s: seq<byte>, f: Field): Option<seq<byte>> {
    match f
    case Raw(b) => if |b| <= |s| && s[..|b|] == b then Some(s[|b|..]) else None
    case Num(v) =>
      match TakeCompact(s)
      case Done(x, r) => if x == v then Some(r) else None
      case Fail(_) => None
  }

  /** Field by field: a byte string is spelled by itself, a number by any of its spellings. */
  lemma StripIff(s: seq<byte>, f: Field, r: seq<byte>)
    ensures Strip(s, f) == Some(r) <==>
      |r| <= |s| && s[|s| - |r|..] == r
      && match f
         case Raw(b) => s[..|s| - |r|] == b
         case Num(v) => Spelling(s[..|s| - |r|], v)
  {
    hide TakeCompact, Spelling;
    match f
    case Raw(b) =>
      if |r| <= |s| && s[|s| - |r|..] == r && s[..|s| - |r|] == b {
        assert s == b + r;
      }
    case Num(v) =>
      SpellingIff(s, v, r);
  }

  function StripAll(s: seq<byte>, fs: seq<Field>): Option<seq<byte>> {
    if fs == [] then Some(s)
    else
      match Strip(s, fs[0])
      case None => None
      case Some(r) => StripAll(r, fs[1..])
  }

  /** s is exactly a concatenation of accepted spellings of the fields, in order. */
  predicate Spells(s: seq<byte>, fs: seq<Field>) {
    StripAll(s, fs) == Some([])
  }

  function KeyFields(keys: seq<seq<byte>>): seq<Field> {
    if keys == [] then [] else [Raw(keys[0])] + KeyFields(keys[1..])
  }

  function ArgFields(args: SpawnArgs): seq<Field> {
    match args
    case WalletArgs(pubkey) => [Raw(pubkey)]
    case MultisigArgs(approvers, keys) => [Num(approvers), Num(|keys|)] + KeyFields(keys)
    case VaultArgs(owner, total, unlock, start, end) => [Raw(owner), Num(total), Num(unlock), Num(start), Num(end)]
    case NoArgs => []
  }

  function PayloadFields(p: Payload): seq<Field> {
    match p.body
    case Spawn(template, args) => [Raw(template), Num(p.nonce), Num(p.gasPrice)] + ArgFields(args)
    case Spend(destination, amount) => [Num(p.nonce), Num(p.gasPrice), Raw(destination), Num(amount)]
    case Drain(vault, destination, amount) =>
      [Num(p.nonce), Num(p.gasPrice), Raw(vault), Raw(destination), Num(amount)]
  }

  function Fields(tx: Tx): seq<Field> {
    [Raw(tx.genesisId), Num(TX_VERSION), Raw(tx.principal), Num(MethodOf(tx.payload.body))]
    + PayloadFields(tx.payload)
  }

  // ---------- Limits ----------

  predicate KeysOk(keys: seq<seq<byte>>) {
    forall i :: 0 <= i < |keys| ==> |keys[i]| == PUB_KEY_LENGTH
  }

  predicate ArgsOk(args: SpawnArgs, accountType: byte) {
    match args
    case WalletArgs(pubkey) => accountType == WALLET && |pubkey| == PUB_KEY_LENGTH
    case MultisigArgs(approvers, keys) =>
      && (accountType == MULTISIG || accountType == VESTING)
      && approvers <= |keys| <= MAX_MULTISIG_PUB_KEY
      && KeysOk(keys)
    case VaultArgs(owner, total, unlock, start, end) =>
      accountType == VAULT && |owner| == ADDRESS_LENGTH && unlock <= total && start <= end <= MAX_UINT32
    case NoArgs => accountType !in {WALLET, MULTISIG, VESTING, VAULT}
  }

  predicate PayloadOk(p: Payload) {
    match p.body
    case Spawn(template, args) => |template| == ADDRESS_LENGTH && ArgsOk(args, template[ADDRESS_LENGTH - 1])
    case Spend(destination, _) => |destination| == ADDRESS_LENGTH
    case Drain(vault, destination, _) => |vault| == ADDRESS_LENGTH == |destination|
  }

  /** The limits an accepted transaction keeps. */
  predicate WellFormed(tx: Tx) {
    |tx.genesisId| == GENESIS_LENGTH && |tx.principal| == ADDRESS_LENGTH && PayloadOk(tx.payload)
  }

  // ---------- Reader and grammar agree ----------

  lemma {:induction false} StripAllJoin(s: seq<byte>, fs: seq<Field>, gs: seq<Field>)
    ensures StripAll(s, fs + gs) == match StripAll(s, fs) case None => None case Some(r) => StripAll(r, gs)
    decreases |fs|
  {
    if fs == [] {
      assert fs + gs == gs;
    } else {
      hide TakeCompact;
      assert (fs + gs)[1..] == fs[1..] + gs;
      match Strip(s, fs[0])
      case None =>
      case Some(r) => StripAllJoin(r, fs[1..], gs);
    }
  }

  /** One more field. */
  function Then(o: Option<seq<byte>>, f: Field): Option<seq<byte>> {
    match o
    case None => None
    case Some(r) => Strip(r, f)
  }

  lemma StripOne(s: seq<byte>, f: Field)
    ensures StripAll(s, [f]) == Strip(s, f)
  {
  }

  lemma StripSnoc(s: seq<byte>, fs: seq<Field>, f: Field)
    ensures StripAll(s, fs + [f]) == Then(StripAll(s, fs), f)
  {
    hide Strip, StripAll;
    StripAllJoin(s, fs, [f]);
    match StripAll(s, fs)
    case None =>
    case Some(r) => StripOne(r, f);
  }

  lemma StripThree(s: seq<byte>, a: Field, b: Field, c: Field)
    ensures StripAll(s, [a, b, c]) == Then(Then(Strip(s, a), b), c)
  {
    hide *;
    assert [a] + [b] == [a, b] && [a, b] + [c] == [a, b, c];
    StripOne(s, a);
    StripSnoc(s, [a], b);
    StripSnoc(s, [a, b], c);
  }

  lemma StripFour(s: seq<byte>, a: Field, b: Field, c: Field, d: Field)
    ensures StripAll(s, [a, b, c, d]) == Then(Then(Then(Strip(s, a), b), c), d)
  {
    hide *;
    assert [a, b, c] + [d] == [a, b, c, d];
    StripThree(s, a, b, c);
    StripSnoc(s, [a, b, c], d);
  }

  lemma StripFive(s: seq<byte>, a: Field, b: Field, c: Field, d: Field, e: Field)
    ensures StripAll(s, [a, b, c, d, e]) == Then(Then(Then(Then(Strip(s, a), b), c), d), e)
  {
    hide *;
    assert [a, b, c, d] + [e] == [a, b, c, d, e];
    StripFour(s, a, b, c, d);
    StripSnoc(s, [a, b, c, d], e);
  }

  /** A spend is accepted exactly when it is spelled by the fields of a well-formed spend. */
  lemma SpendIff(s: seq<byte>, p: Payload, r: seq<byte>)
    ensures TakeSpend(s) == Done(p, r) <==> p.body.Spend? && PayloadOk(p) && StripAll(s, PayloadFields(p)) == Some(r)
  {
    hide TakeCompact, StripAll;
    if p.body.Spend? {
      StripFour(s, Num(p.nonce), Num(p.gasPrice), Raw(p.body.destination), Num(p.body.amount));
    }
  }

  lemma DrainIff(s: seq<byte>, p: Payload, r: seq<byte>)
    ensures TakeDrain(s) == Done(p, r) <==> p.body.Drain? && PayloadOk(p) && StripAll(s, PayloadFields(p)) == Some(r)
  {
    hide TakeCompact, StripAll;
    if p.body.Drain? {
      StripFive(s, Num(p.nonce), Num(p.gasPrice), Raw(p.body.vault), Raw(p.body.destination), Num(p.body.amount));
    }
  }

  lemma VaultIff(s: seq<byte>, args: SpawnArgs, r: seq<byte>)
    ensures TakeVault(s) == Done(args, r) <==>
      args.VaultArgs? && ArgsOk(args, VAULT) && StripAll(s, ArgFields(args)) == Some(r)
  {
    hide TakeCompact, StripAll;
    if args.VaultArgs? {
      StripFive(s, Raw(args.owner), Num(args.total), Num(args.unlock), Num(args.start), Num(args.end));
    }
  }

  lemma KeysCons(s: seq<byte>, key: seq<byte>, keys: seq<seq<byte>>)
    ensures KeysOk([key] + keys) <==> |key| == PUB_KEY_LENGTH && KeysOk(keys)
    ensures StripAll(s, KeyFields([key] + keys)) ==
      match Strip(s, Raw(key)) case None => None case Some(r) => StripAll(r, KeyFields(keys))
  {
  }

  lemma {:induction false} KeysIff(s: seq<byte>, n: nat, keys: seq<seq<byte>>, r: seq<byte>)
    ensures TakeKeys(s, n) == Done(keys, r) <==>
      |keys| == n && KeysOk(keys) && StripAll(s, KeyFields(keys)) == Some(r)
    decreases n
  {
    if n == 0 || keys == [] {
      KeysNone(s, n, keys, r);
    } else {
      hide StripAll, KeyFields, KeysOk;
      var key, rest := keys[0], keys[1..];
      assert keys == [key] + rest;
      KeysCons(s, key, rest);
      if |s| >= PUB_KEY_LENGTH {
        KeysIff(s[PUB_KEY_LENGTH..], n - 1, rest, r);
      }
    }
  }

  lemma KeysNone(s: seq<byte>, n: nat, keys: seq<seq<byte>>, r: seq<byte>)
    requires n == 0 || keys == []
    ensures TakeKeys(s, n) == Done(keys, r) <==>
      |keys| == n && KeysOk(keys) && StripAll(s, KeyFields(keys)) == Some(r)
  {
  }

  lemma MultisigIff(s: seq<byte>, args: SpawnArgs, r: seq<byte>)
    ensures TakeMultisig(s) == Done(args, r) <==>
      args.MultisigArgs? && ArgsOk(args, MULTISIG) && StripAll(s, ArgFields(args)) == Some(r)
  {
    hide TakeCompact, StripAll, TakeKeys, KeysOk, KeyFields;
    if args.MultisigArgs? {
      var a, b := Num(args.approvers), Num(|args.keys|);
      StripAllJoin(s, [a, b], KeyFields(args.keys));
      StripTwo(s, a, b);
      match TakeCompact(s)
      case Fail(_) =>
      case Done(_, r1) =>
        match TakeCompact(r1)
        case Fail(_) =>
        case Done(n, r2) => KeysIff(r2, n, args.keys, r);
    }
  }

  lemma StripTwo(s: seq<byte>, a: Field, b: Field)
    ensures StripAll(s, [a, b]) == Then(Strip(s, a), b)
  {
    hide *;
    assert [a] + [b] == [a, b];
    StripOne(s, a);
    StripSnoc(s, [a], b);
  }

  lemma WalletIff(s: seq<byte>, args: SpawnArgs, r: seq<byte>)
    ensures TakeArgs(s, WALLET) == Done(args, r) <==>
      args.WalletArgs? && ArgsOk(args, WALLET) && StripAll(s, ArgFields(args)) == Some(r)
  {
  }

  lemma ArgsIff(s: seq<byte>, accountType: byte, args: SpawnArgs, r: seq<byte>)
    ensures TakeArgs(s, accountType) == Done(args, r) <==>
      ArgsOk(args, accountType) && StripAll(s, ArgFields(args)) == Some(r)
  {
    hide TakeMultisig, TakeVault, KeysOk;
    MultisigIff(s, args, r);
    VaultIff(s, args, r);
    WalletIff(s, args, r);
    hide StripAll;
    StripNone(s);
  }

  lemma StripNone(s: seq<byte>)
    ensures StripAll(s, []) == Some(s)
  {
  }

  lemma SpawnIff(s: seq<byte>, p: Payload, r: seq<byte>)
    ensures TakeSpawn(s) == Done(p, r) <==> p.body.Spawn? && PayloadOk(p) && StripAll(s, PayloadFields(p)) == Some(r)
  {
    hide TakeCompact, StripAll, TakeArgs, ArgsOk, ArgFields;
    if p.body.Spawn? {
      var template, args := p.body.template, p.body.args;
      var a, b, c := Raw(template), Num(p.nonce), Num(p.gasPrice);
      StripAllJoin(s, [a, b, c], ArgFields(args));
      StripThree(s, a, b, c);
      if |template| == ADDRESS_LENGTH {
        match Then(Then(Strip(s, a), b), c)
        case None =>
        case Some(rest) => ArgsIff(rest, template[ADDRESS_LENGTH - 1], args, r);
      }
    }
  }

  lemma PayloadIff(s: seq<byte>, selector: nat, p: Payload, r: seq<byte>)
    ensures TakePayload(s, selector) == Done(p, r) <==>
      selector == MethodOf(p.body) && PayloadOk(p) && StripAll(s, PayloadFields(p)) == Some(r)
  {
    hide TakeSpawn, TakeSpend, TakeDrain, PayloadOk, PayloadFields, StripAll;
    SpawnIff(s, p, r);
    SpendIff(s, p, r);
    DrainIff(s, p, r);
  }

  /** The parser accepts a buffer as a transaction if and only if the transaction keeps the
      limits and the buffer is exactly a concatenation of accepted spellings of its fields. */
  lemma ReadTxIff(s: seq<byte>, tx: Tx)
    ensures ReadTx(s) == Done(tx, []) <==> WellFormed(tx) && Spells(s, Fields(tx))
  {
    hide TakeCompact, TakePayload, StripAll, PayloadOk, PayloadFields;
    var a, b, c, d := Raw(tx.genesisId), Num(TX_VERSION), Raw(tx.principal), Num(MethodOf(tx.payload.body));
    StripAllJoin(s, [a, b, c, d], PayloadFields(tx.payload));
    StripFour(s, a, b, c, d);
    if |s| >= GENESIS_LENGTH {
      match TakeCompact(s[GENESIS_LENGTH..])
      case Fail(_) =>
      case Done(_, r2) =>
        if |r2| >= ADDRESS_LENGTH {
          match TakeCompact(r2[ADDRESS_LENGTH..])
          case Fail(_) =>
          case Done(selector, r4) => PayloadIff(r4, selector, tx.payload, []);
        }
    }
  }

  // ---------- Printing ----------

  function PrintField(f: Field): seq<byte>
    requires f.Num? ==> f.value <= MAX_UINT64
  {
    match f
    case Raw(b) => b
    case Num(v) => Encode(v)
  }

  /** Every number is one the decoder can give back. */
  predicate Printable(fs: seq<Field>) {
    forall i :: 0 <= i < |fs| && fs[i].Num? ==> fs[i].value <= MAX_UINT62
  }

  function Print(fs: seq<Field>): seq<byte>
    requires Printable(fs)
  {
    if fs == [] then []
    else
      assert forall i :: 0 <= i < |fs| - 1 ==> fs[1..][i] == fs[i + 1];
      PrintField(fs[0]) + Print(fs[1..])
  }

  lemma {:induction false} PrintSpells(fs: seq<Field>)
    requires Printable(fs)
    ensures Spells(Print(fs), fs)
  {
    if fs != [] {
      hide TakeCompact, Encode;
      var f, rest := fs[0], Print(fs[1..]);
      PrintSpells(fs[1..]);
      if f.Num? {
        RoundTrip(f.value, rest);
      } else {
        assert (f.bytes + rest)[..|f.bytes|] == f.bytes && (f.bytes + rest)[|f.bytes|..] == rest;
      }
    }
  }

  /** Parse inverts print: the canonical serialisation of any well-formed transaction is read
      back as the same transaction, with nothing left over. */
  lemma ParsePrint(tx: Tx)
    requires WellFormed(tx) && Printable(Fields(tx))
    ensures ReadTx(Print(Fields(tx))) == Done(tx, [])
  {
    hide *;
    PrintSpells(Fields(tx));
    ReadTxIff(Print(Fields(tx)), tx);
  }
}
