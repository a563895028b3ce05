/** The transaction format byte by byte: for every kind of transaction, the bytes that are sent and
    what is read off them, with the lengths, selectors, template types and limits as numbers. */
module TxBytes {
  import opened Bytes
  import opened Errors
  import opened Scale
  import opened TxGrammar

  const LIMIT: nat := 0x4000_0000_0000_0000

  // ---------- Parts ----------

  lemma NumberRead(v: nat, rest: seq<byte>)
    requires v < LIMIT
    ensures TakeCompact(Encode(v) + rest) == Done(v, rest)
  {
    hide Encode, TakeCompact;
    RoundTrip(v, rest);
  }

  lemma NumberReadUpTo(v: nat, max: nat, rest: seq<byte>)
    requires v < LIMIT
    ensures TakeCompactUpTo(Encode(v) + rest, max) == if v > max then Fail(ValueOutOfRange) else Done(v, rest)
  {
    hide Encode, TakeCompact;
    NumberRead(v, rest);
  }

  lemma BytesRead(b: seq<byte>, rest: seq<byte>)
    requires b != []
    ensures TakeBytes(b + rest, |b|) == Done(b, rest)
  {
    assert (b + rest)[..|b|] == b && (b + rest)[|b|..] == rest;
  }

  lemma ShortBytes(s: seq<byte>, n: nat)
    requires |s| < n
    ensures TakeBytes(s, n) == Fail(UnexpectedBufferEnd)
  {
  }

  lemma SmallNumber(v: nat)
    requires v < 64
    ensures Encode(v) == [4 * v]
  {
  }

  /** Genesis id, version and principal, and then one byte for the method: 0, 0x40 or 0x44. */
  lemma Header(g: seq<byte>, version: byte, p: seq<byte>, selector: byte, rest: seq<byte>)
    requires |g| == 20 && |p| == 24 && version % 4 == 0 && selector % 4 == 0
    ensures ReadTx(g + ([version] + (p + ([selector] + rest)))) ==
      if version != 0 then Fail(UnexpectedVersion)
      else if selector !in {0, 0x40, 0x44} then Fail(UnexpectedMethodSelector)
      else Body(g, p, TakePayload(rest, selector as nat / 4))
  {
    hide TakePayload, TakeCompactUpTo, TakeBytes, Encode;
    BytesRead(g, [version] + (p + ([selector] + rest)));
    SmallNumber(version as nat / 4);
    NumberReadUpTo(version as nat / 4, 255, p + ([selector] + rest));
    BytesRead(p, [selector] + rest);
    SmallNumber(selector as nat / 4);
    NumberReadUpTo(selector as nat / 4, 255, rest);
  }

  function Body(g: seq<byte>, p: seq<byte>, payload: Parsed<Payload>): Parsed<Tx> {
    match payload
    case Fail(error) => Fail(error)
    case Done(body, r) => if r != [] then Fail(UnexpectedUnparsedBytes) else Done(Tx(g, p, body), [])
  }

  // ---------- Spend and drain ----------

  lemma SpendBody(nonce: nat, gas: nat, destination: seq<byte>, amount: nat, rest: seq<byte>)
    requires nonce < LIMIT && gas < LIMIT && |destination| == 24 && amount < LIMIT
    ensures TakeSpend(Encode(nonce) + (Encode(gas) + (destination + (Encode(amount) + rest))))
         == Done(Payload(nonce, gas, Spend(destination, amount)), rest)
  {
    hide Encode, TakeCompact, TakeBytes;
    NumberRead(nonce, Encode(gas) + (destination + (Encode(amount) + rest)));
    NumberRead(gas, destination + (Encode(amount) + rest));
    BytesRead(destination, Encode(amount) + rest);
    NumberRead(amount, rest);
  }

  /** A spend: method 0x40, and whatever follows it is refused. */
  lemma SpendBytes(g: seq<byte>, p: seq<byte>, nonce: nat, gas: nat, destination: seq<byte>, amount: nat, rest: seq<byte>)
    requires |g| == 20 && |p| == 24 && |destination| == 24
    requires nonce < LIMIT && gas < LIMIT && amount < LIMIT
    ensures ReadTx(g + ([0] + (p + ([0x40] + (Encode(nonce) + (Encode(gas) + (destination + (Encode(amount) + rest))))))))
         == if rest != [] then Fail(UnexpectedUnparsedBytes)
            else Done(Tx(g, p, Payload(nonce, gas, Spend(destination, amount))), [])
  {
    hide ReadTx, Encode, TakeSpend, TakeSpawn, TakeDrain;
    SpendBody(nonce, gas, destination, amount, rest);
    Header(g, 0, p, 0x40, Encode(nonce) + (Encode(gas) + (destination + (Encode(amount) + rest))));
  }

  lemma DrainBody(nonce: nat, gas: nat, vault: seq<byte>, destination: seq<byte>, amount: nat, rest: seq<byte>)
    requires nonce < LIMIT && gas < LIMIT && |vault| == |destination| == 24 && amount < LIMIT
    ensures TakeDrain(Encode(nonce) + (Encode(gas) + (vault + (destination + (Encode(amount) + rest)))))
         == Done(Payload(nonce, gas, Drain(vault, destination, amount)), rest)
  {
    hide Encode, TakeCompact, TakeBytes;
    NumberRead(nonce, Encode(gas) + (vault + (destination + (Encode(amount) + rest))));
    NumberRead(gas, vault + (destination + (Encode(amount) + rest)));
    BytesRead(vault, destination + (Encode(amount) + rest));
    BytesRead(destination, Encode(amount) + rest);
    NumberRead(amount, rest);
  }

  /** A drain: method 0x44, the vault and then the destination. */
  lemma DrainBytes(g: seq<byte>, p: seq<byte>, nonce: nat, gas: nat, vault: seq<byte>, destination: seq<byte>,
                   amount: nat, rest: seq<byte>)
    requires |g| == 20 && |p| == 24 && |vault| == |destination| == 24
    requires nonce < LIMIT && gas < LIMIT && amount < LIMIT
    ensures ReadTx(g + ([0] + (p + ([0x44] +
              (Encode(nonce) + (Encode(gas) + (vault + (destination + (Encode(amount) + rest)))))))))
         == if rest != [] then Fail(UnexpectedUnparsedBytes)
            else Done(Tx(g, p, Payload(nonce, gas, Drain(vault, destination, amount))), [])
  {
    hide ReadTx, Encode, TakeSpend, TakeSpawn, TakeDrain;
    DrainBody(nonce, gas, vault, destination, amount, rest);
    Header(g, 0, p, 0x44, Encode(nonce) + (Encode(gas) + (vault + (destination + (Encode(amount) + rest)))));
  }

  // ---------- Spawn ----------

  /** The result of the arguments, in a spawn that they end. */
  function Spawned(g: seq<byte>, p: seq<byte>, template: seq<byte>, nonce: nat, gas: nat, args: Parsed<SpawnArgs>): Parsed<Tx> {
    match args
    case Fail(error) => Fail(error)
    case Done(a, r) =>
      if r != [] then Fail(UnexpectedUnparsedBytes) else Done(Tx(g, p, Payload(nonce, gas, Spawn(template, a))), [])
  }

  lemma SpawnBody(template: seq<byte>, nonce: nat, gas: nat, rest: seq<byte>)
    requires |template| == 24 && nonce < LIMIT && gas < LIMIT
    ensures TakeSpawn(template + (Encode(nonce) + (Encode(gas) + rest))) ==
      match TakeArgs(rest, template[23])
      case Fail(error) => Fail(error)
      case Done(args, r) => Done(Payload(nonce, gas, Spawn(template, args)), r)
  {
    hide Encode, TakeCompact, TakeBytes, TakeArgs;
    BytesRead(template, Encode(nonce) + (Encode(gas) + rest));
    NumberRead(nonce, Encode(gas) + rest);
    NumberRead(gas, rest);
  }

  /** A spawn: method 0, template, nonce and gas price, and arguments by the template's last byte. */
  lemma SpawnBytes(g: seq<byte>, p: seq<byte>, template: seq<byte>, nonce: nat, gas: nat, rest: seq<byte>)
    requires |g| == 20 && |p| == 24 && |template| == 24 && nonce < LIMIT && gas < LIMIT
    ensures ReadTx(g + ([0] + (p + ([0] + (template + (Encode(nonce) + (Encode(gas) + rest)))))))
         == Spawned(g, p, template, nonce, gas, TakeArgs(rest, template[23]))
  {
    hide ReadTx, Encode, TakeSpend, TakeSpawn, TakeDrain, TakeArgs;
    SpawnBody(template, nonce, gas, rest);
    Header(g, 0, p, 0, template + (Encode(nonce) + (Encode(gas) + rest)));
  }

  /** Type 1: a key of 32 bytes. */
  lemma WalletArgBytes(key: seq<byte>, rest: seq<byte>)
    requires |key| == 32
    ensures TakeArgs(key + rest, 1) == Done(WalletArgs(key), rest)
  {
    hide TakeBytes;
    BytesRead(key, rest);
  }

  lemma {:induction false} KeysRead(keys: seq<byte>, n: nat, rest: seq<byte>)
    requires |keys| == 32 * n
    ensures TakeKeys(keys + rest, n) == Done(seq(n, i requires 0 <= i < n => keys[32 * i..32 * i + 32]), rest)
    decreases n
  {
    var all := seq(n, i requires 0 <= i < n => keys[32 * i..32 * i + 32]);
    if n == 0 {
      assert keys + rest == rest && all == [];
    } else {
      var key, more := keys[..32], keys[32..];
      var tail := seq(n - 1, i requires 0 <= i < n - 1 => more[32 * i..32 * i + 32]);
      KeysRead(more, n - 1, rest);
      BytesRead(key, more + rest);
      assert keys + rest == key + (more + rest);
      assert all == [key] + tail by {
        forall i | 0 <= i < n
          ensures all[i] == ([key] + tail)[i]
        {
          if i > 0 {
            assert more[32 * (i - 1)..32 * (i - 1) + 32] == keys[32 * i..32 * i + 32];
          }
        }
      }
    }
  }

  /** Types 2 and 3: the approvers, the number of keys, and the keys of 32 bytes each. Approvers
      are no more than keys, and keys no more than ten. */
  lemma MultisigArgBytes(kind: byte, approvers: nat, n: nat, keys: seq<byte>, rest: seq<byte>)
    requires kind in {2, 3} && approvers <= 255 && n <= 255 && |keys| == 32 * n
    ensures TakeArgs(Encode(approvers) + (Encode(n) + (keys + rest)), kind) ==
      if approvers <= n <= 10
      then Done(MultisigArgs(approvers, seq(n, i requires 0 <= i < n => keys[32 * i..32 * i + 32])), rest)
      else Fail(UnexpectedValue)
  {
    hide Encode, TakeCompactUpTo, TakeKeys;
    NumberReadUpTo(approvers, 255, Encode(n) + (keys + rest));
    NumberReadUpTo(n, 255, keys + rest);
    KeysRead(keys, n, rest);
  }

  /** Type 4: the owner, the amounts, and the times in 32 bits. The unlocked amount is no more than
      the total, and the start no later than the end. */
  lemma VaultArgBytes(owner: seq<byte>, total: nat, unlock: nat, start: nat, end: nat, rest: seq<byte>)
    requires |owner| == 24 && total < LIMIT && unlock < LIMIT && start < LIMIT && end < LIMIT
    ensures TakeArgs(owner + (Encode(total) + (Encode(unlock) + (Encode(start) + (Encode(end) + rest)))), 4) ==
      if unlock > total then Fail(UnexpectedValue)
      else if start >= 0x1_0000_0000 || end >= 0x1_0000_0000 then Fail(ValueOutOfRange)
      else if start > end then Fail(UnexpectedValue)
      else Done(VaultArgs(owner, total, unlock, start, end), rest)
  {
    hide Encode, TakeCompact, TakeCompactUpTo, TakeBytes;
    BytesRead(owner, Encode(total) + (Encode(unlock) + (Encode(start) + (Encode(end) + rest))));
    NumberRead(total, Encode(unlock) + (Encode(start) + (Encode(end) + rest)));
    NumberRead(unlock, Encode(start) + (Encode(end) + rest));
    NumberReadUpTo(start, MAX_UINT32, Encode(end) + rest);
    NumberReadUpTo(end, MAX_UINT32, rest);
  }

  /** Every other type: no arguments. */
  lemma OtherArgBytes(kind: byte, rest: seq<byte>)
    requires kind !in {1, 2, 3, 4}
    ensures TakeArgs(rest, kind) == Done(NoArgs, rest)
  {
  }

  /** The four kinds of spawn as they are sent. */
  lemma SpawnWallet(g: seq<byte>, p: seq<byte>, template: seq<byte>, nonce: nat, gas: nat, key: seq<byte>)
    requires |g| == 20 && |p| == 24 && |template| == 24 && template[23] == 1 && nonce < LIMIT && gas < LIMIT && |key| == 32
    ensures ReadTx(g + ([0] + (p + ([0] + (template + (Encode(nonce) + (Encode(gas) + key)))))))
         == Done(Tx(g, p, Payload(nonce, gas, Spawn(template, WalletArgs(key)))), [])
  {
    hide ReadTx, TakeArgs, Encode;
    assert key + [] == key;
    WalletArgBytes(key, []);
    SpawnBytes(g, p, template, nonce, gas, key);
  }

  lemma SpawnMultisig(g: seq<byte>, p: seq<byte>, template: seq<byte>, nonce: nat, gas: nat,
                      approvers: nat, n: nat, keys: seq<byte>)
    requires |g| == 20 && |p| == 24 && |template| == 24 && template[23] in {2, 3} && nonce < LIMIT && gas < LIMIT
    requires approvers <= 255 && n <= 255 && |keys| == 32 * n
    ensures ReadTx(g + ([0] + (p + ([0] + (template + (Encode(nonce) + (Encode(gas) + (Encode(approvers) + (Encode(n) + keys)))))))))
         == if approvers <= n <= 10
            then Done(Tx(g, p, Payload(nonce, gas, Spawn(template,
                   MultisigArgs(approvers, seq(n, i requires 0 <= i < n => keys[32 * i..32 * i + 32]))))), [])
            else Fail(UnexpectedValue)
  {
    hide ReadTx, TakeArgs, Encode;
    assert keys + [] == keys;
    MultisigArgBytes(template[23], approvers, n, keys, []);
    SpawnBytes(g, p, template, nonce, gas, Encode(approvers) + (Encode(n) + keys));
  }

  lemma SpawnVault(g: seq<byte>, p: seq<byte>, template: seq<byte>, nonce: nat, gas: nat,
                   owner: seq<byte>, total: nat, unlock: nat, start: nat, end: nat)
    requires |g| == 20 && |p| == 24 && |template| == 24 && template[23] == 4 && nonce < LIMIT && gas < LIMIT
    requires |owner| == 24 && unlock <= total < LIMIT && start <= end < 0x1_0000_0000
    ensures ReadTx(g + ([0] + (p + ([0] + (template + (Encode(nonce) + (Encode(gas) +
              (owner + (Encode(total) + (Encode(unlock) + (Encode(start) + Encode(end))))))))))))
         == Done(Tx(g, p, Payload(nonce, gas, Spawn(template, VaultArgs(owner, total, unlock, start, end)))), [])
  {
    hide ReadTx, TakeArgs, Encode;
    assert Encode(end) + [] == Encode(end);
    VaultArgBytes(owner, total, unlock, start, end, []);
    SpawnBytes(g, p, template, nonce, gas, owner + (Encode(total) + (Encode(unlock) + (Encode(start) + Encode(end)))));
  }
}
