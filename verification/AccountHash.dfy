/** What an account's address commits to: the bytes that are hashed, and why two different
    account descriptions never give the same bytes. */
module AccountHash {
  import opened Bytes
  import opened Scale
  import opened TxGrammar
  import opened Blake3Spec
  import opened ZxBlake3

  /** 23 zero bytes and the account type. */
  function Template(accountType: byte): (t: seq<byte>)
    ensures |t| == ADDRESS_LENGTH
  {
    Zeros(ADDRESS_LENGTH - 1) + [accountType]
  }

  function Flatten(keys: seq<seq<byte>>): seq<byte> {
    if keys == [] then [] else Flatten(keys[..|keys| - 1]) + keys[|keys| - 1]
  }

  /** An account as its address sees it. */
  datatype Account =
    | Wallet(pubkey: seq<byte>)
    | Shared(kind: byte, approvers: byte, participants: byte, keys: seq<seq<byte>>)
    | Vault(owner: seq<byte>, total: nat, unlock: nat, start: nat, end: nat)

  /** The parts have their lengths and ranges. */
  predicate Encodable(a: Account) {
    match a
    case Wallet(pubkey) => |pubkey| == PUB_KEY_LENGTH
    case Shared(_, approvers, participants, keys) =>
      0 < approvers <= participants <= MAX_MULTISIG_PUB_KEY && |keys| == participants && KeysOk(keys)
    case Vault(owner, total, unlock, start, end) =>
      |owner| == ADDRESS_LENGTH && total <= MAX_UINT64 && unlock <= MAX_UINT64 && start <= MAX_UINT64 && end <= MAX_UINT64
  }

  /** An account whose kind does not clash with the other types. */
  predicate Typed(a: Account) {
    a.Shared? ==> a.kind == MULTISIG || a.kind == VESTING
  }

  /** The accounts the hashing code accepts; vault amounts fit its eight-byte number buffer. */
  predicate Accepted(a: Account) {
    && Encodable(a) && Typed(a)
    && (a.Vault? ==> a.total < NUMBER_LIMIT && a.unlock < NUMBER_LIMIT && a.start < NUMBER_LIMIT && a.end < NUMBER_LIMIT)
  }

  /** 2^56: from here on an encoding takes nine bytes. */
  const NUMBER_LIMIT: nat := 0x100_0000_0000_0000

  function Numbers(a: nat, b: nat, c: nat, d: nat): seq<byte>
    requires a <= MAX_UINT64 && b <= MAX_UINT64 && c <= MAX_UINT64 && d <= MAX_UINT64
  {
    Encode(a) + (Encode(b) + (Encode(c) + Encode(d)))
  }

  function TypeOf(a: Account): byte {
    match a
    case Wallet(_) => WALLET
    case Shared(kind, _, _, _) => kind
    case Vault(_, _, _, _, _) => VAULT
  }

  /** What follows the template. */
  function Tail(a: Account): seq<byte>
    requires Encodable(a)
  {
    match a
    case Wallet(pubkey) => pubkey
    case Shared(_, approvers, participants, keys) => [4 * approvers, 4 * participants] + Flatten(keys)
    case Vault(owner, total, unlock, start, end) => owner + Numbers(total, unlock, start, end)
  }

  /** The bytes hashed for an account. */
  function Preimage(a: Account): seq<byte>
    requires Encodable(a)
  {
    Template(TypeOf(a)) + Tail(a)
  }

  /** The address: four zero bytes, then bytes 12 to 32 of the hash. */
  ghost function AddressOf(compress: Primitive, preimage: seq<byte>): seq<byte> {
    Zeros(4) + Hash(PlainMode(compress), preimage, 12, 20)
  }

  // ---------- Byte by byte ----------

  /** A wallet: 23 zeros, its type, its key. */
  lemma WalletBytes(pubkey: seq<byte>)
    requires |pubkey| == 32
    ensures Preimage(Wallet(pubkey)) == seq(23, _ => 0) + [1] + pubkey
  {
  }

  /** A multisig or vesting account: 23 zeros, its type, four times each count, and the keys one
      after the other. */
  lemma SharedBytes(kind: byte, approvers: byte, participants: byte, keys: seq<seq<byte>>)
    requires Encodable(Shared(kind, approvers, participants, keys))
    ensures var bytes := Preimage(Shared(kind, approvers, participants, keys));
      && |bytes| == 26 + 32 * |keys|
      && bytes[..26] == seq(23, _ => 0) + [kind, 4 * approvers, 4 * participants]
      && forall i :: 0 <= i < |keys| ==> bytes[26 + 32 * i..26 + 32 * i + 32] == keys[i]
  {
    var head := seq(23, _ => 0) + [kind, 4 * approvers, 4 * participants];
    SharedParts(kind, approvers, participants, keys);
    hide *;
    var bytes := Preimage(Shared(kind, approvers, participants, keys));
    forall i | 0 <= i < |keys|
      ensures bytes[26 + 32 * i..26 + 32 * i + 32] == keys[i]
    {
      FlattenAt(keys, i);
      Shifted(head, Flatten(keys), 32 * i, 32);
    }
  }

  lemma SharedParts(kind: byte, approvers: byte, participants: byte, keys: seq<seq<byte>>)
    requires Encodable(Shared(kind, approvers, participants, keys))
    ensures KeysOk(keys) && |Flatten(keys)| == 32 * |keys|
    ensures Preimage(Shared(kind, approvers, participants, keys))
         == (seq(23, _ => 0) + [kind, 4 * approvers, 4 * participants]) + Flatten(keys)
  {
    hide Flatten;
    FlattenLength(keys);
  }

  lemma Shifted(a: seq<byte>, b: seq<byte>, i: nat, n: nat)
    requires i + n <= |b|
    ensures (a + b)[|a| + i..|a| + i + n] == b[i..i + n]
  {
  }

  lemma {:induction false} FlattenAt(keys: seq<seq<byte>>, i: nat)
    requires KeysOk(keys) && i < |keys|
    ensures |Flatten(keys)| == 32 * |keys| && Flatten(keys)[32 * i..32 * i + 32] == keys[i]
    decreases |keys|
  {
    var n := |keys| - 1;
    FlattenLength(keys);
    FlattenLength(keys[..n]);
    var front := Flatten(keys[..n]);
    if i < n {
      FlattenAt(keys[..n], i);
      assert (front + keys[n])[32 * i..32 * i + 32] == front[32 * i..32 * i + 32];
    }
  }

  /** A vault: 23 zeros, its type, its owner's address, and the four numbers in order. */
  lemma VaultBytes(owner: seq<byte>, total: nat, unlock: nat, start: nat, end: nat)
    requires Encodable(Vault(owner, total, unlock, start, end))
    ensures |owner| == 24
    ensures Preimage(Vault(owner, total, unlock, start, end))
         == seq(23, _ => 0) + [4] + owner + Encode(total) + Encode(unlock) + Encode(start) + Encode(end)
  {
    hide Encode;
  }

  /** What an address is made of: four zeros, and then bytes 12 to 32 of the plain hash. */
  ghost predicate IsAddress(compress: Primitive, address: seq<byte>, preimage: seq<byte>) {
    |address| == 24 && address[..4] == [0, 0, 0, 0] && address[4..] == Hash(Mode(compress, IV, 0), preimage, 0, 32)[12..]
  }

  lemma AddressBytes(compress: Primitive, preimage: seq<byte>)
    ensures IsAddress(compress, AddressOf(compress, preimage), preimage)
  {
    AddressIndependentOfLength(compress, preimage, 32);
    var h := Hash(PlainMode(compress), preimage, 0, 32);
    hide Hash;
    assert h[12..32] == h[12..];
  }

  // ---------- Injectivity ----------

  lemma {:induction false} FlattenLength(keys: seq<seq<byte>>)
    requires KeysOk(keys)
    ensures |Flatten(keys)| == 32 * |keys|
  {
    if keys != [] {
      FlattenLength(keys[..|keys| - 1]);
    }
  }

  lemma {:induction false} FlattenInjective(k: seq<seq<byte>>, l: seq<seq<byte>>)
    requires KeysOk(k) && KeysOk(l) && |k| == |l| && Flatten(k) == Flatten(l)
    ensures k == l
  {
    if k != [] {
      var n := |k| - 1;
      FlattenLength(k[..n]);
      FlattenLength(l[..n]);
      AppendInjective(Flatten(k[..n]), k[n], Flatten(l[..n]), l[n]);
      FlattenInjective(k[..n], l[..n]);
      assert k == k[..n] + [k[n]] && l == l[..n] + [l[n]];
    }
  }

  lemma AppendInjective(a: seq<byte>, b: seq<byte>, c: seq<byte>, d: seq<byte>)
    requires a + b == c + d && |a| == |c|
    ensures a == c && b == d
  {
    assert (a + b)[..|a|] == a && (c + d)[..|a|] == c;
    assert (a + b)[|a|..] == b && (c + d)[|a|..] == d;
  }

  lemma TemplateInjective(t: byte, u: byte)
    requires Template(t) == Template(u)
    ensures t == u
  {
    assert Template(t)[ADDRESS_LENGTH - 1] == t && Template(u)[ADDRESS_LENGTH - 1] == u;
  }

  lemma NumbersInjective(a: nat, b: nat, c: nat, d: nat, a': nat, b': nat, c': nat, d': nat)
    requires a <= MAX_UINT64 && b <= MAX_UINT64 && c <= MAX_UINT64 && d <= MAX_UINT64
    requires a' <= MAX_UINT64 && b' <= MAX_UINT64 && c' <= MAX_UINT64 && d' <= MAX_UINT64
    requires Numbers(a, b, c, d) == Numbers(a', b', c', d')
    ensures a == a' && b == b' && c == c' && d == d'
  {
    hide Encode;
    PrefixFree(a, a', Encode(b) + (Encode(c) + Encode(d)), Encode(b') + (Encode(c') + Encode(d')));
    PrefixFree(b, b', Encode(c) + Encode(d), Encode(c') + Encode(d'));
    PrefixFree(c, c', Encode(d), Encode(d'));
    EncodeInjective(d, d');
  }

  lemma WalletInjective(a: Account, b: Account)
    requires a.Wallet? && b.Wallet? && Encodable(a) && Encodable(b) && Tail(a) == Tail(b)
    ensures a == b
  {
  }

  lemma SharedInjective(a: Account, b: Account)
    requires a.Shared? && b.Shared? && Encodable(a) && Encodable(b) && a.kind == b.kind && Tail(a) == Tail(b)
    ensures a == b
  {
    hide Flatten, KeysOk;
    var counts, counts' := [4 * a.approvers, 4 * a.participants], [4 * b.approvers, 4 * b.participants];
    AppendInjective(counts, Flatten(a.keys), counts', Flatten(b.keys));
    assert counts[0] == counts'[0] && counts[1] == counts'[1];
    FlattenInjective(a.keys, b.keys);
  }

  lemma VaultInjective(a: Account, b: Account)
    requires a.Vault? && b.Vault? && Encodable(a) && Encodable(b) && Tail(a) == Tail(b)
    ensures a == b
  {
    hide Numbers;
    AppendInjective(a.owner, Numbers(a.total, a.unlock, a.start, a.end),
                    b.owner, Numbers(b.total, b.unlock, b.start, b.end));
    NumbersInjective(a.total, a.unlock, a.start, a.end, b.total, b.unlock, b.start, b.end);
  }

  /** Two accounts of any types, with any 64-bit numbers, that have the same hashed bytes are the
      same account. */
  lemma PreimageInjective(a: Account, b: Account)
    requires Encodable(a) && Encodable(b) && Typed(a) && Typed(b) && Preimage(a) == Preimage(b)
    ensures a == b
  {
    hide Template, Tail, Numbers, Flatten, KeysOk;
    AppendInjective(Template(TypeOf(a)), Tail(a), Template(TypeOf(b)), Tail(b));
    TemplateInjective(TypeOf(a), TypeOf(b));
    match a
    case Wallet(_) => WalletInjective(a, b);
    case Shared(_, _, _, _) => SharedInjective(a, b);
    case Vault(_, _, _, _, _) => VaultInjective(a, b);
  }

  /** Whatever length the caller asks of the hash, the address bytes are the same. */
  lemma AddressIndependentOfLength(compress: Primitive, preimage: seq<byte>, len: nat)
    requires len >= 32
    ensures Hash(PlainMode(compress), preimage, 0, len)[12..32] == Hash(PlainMode(compress), preimage, 12, 20)
  {
  }
}
