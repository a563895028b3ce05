/** The address functions: they drive the shared hasher over an account's description and cut
    the address out of the hash. */
module AddressEncoder {
  import opened Bytes
  import opened Errors
  import opened Scale
  import opened TxGrammar
  import opened Blake3Spec
  import opened ZxBlake3
  import opened AccountHash

  const MAX_ADDRESS_LENGTH: nat := 60

  type Pubkey = s: seq<byte> | |s| == 32 witness seq(32, _ => 0)

  datatype PubkeyItem = PubkeyItem(index: byte, pubkey: Pubkey)

  /** generic_account_t: ten key slots, of which the external keys of the request use some. */
  datatype GenericAccount = GenericAccount(approvers: byte, participants: byte, keys: seq<PubkeyItem>)

  datatype VaultAccount = VaultAccount(total: nat, unlock: nat, start: nat, end: nat, owner: GenericAccount)

  predicate TenSlots(account: GenericAccount) {
    |account.keys| == MAX_MULTISIG_PUB_KEY
  }

  /** The participant list: the external keys in order, with the device's own key put in at
      its index if that is one of the participants. */
  function Merged(account: GenericAccount, internal: PubkeyItem): (r: seq<seq<byte>>)
    requires TenSlots(account) && account.participants <= MAX_MULTISIG_PUB_KEY
    ensures |r| == account.participants
  {
    var keys := seq(MAX_MULTISIG_PUB_KEY, i requires 0 <= i < MAX_MULTISIG_PUB_KEY => account.keys[i].pubkey);
    var n, at := account.participants, internal.index;
    if at < n then keys[..at] + [internal.pubkey] + keys[at..n - 1] else keys[..n]
  }

  /** getPublicKey's choice: the device key at its own index, else the external key found by
      skipping that index. */
  function KeyAt(account: GenericAccount, internal: PubkeyItem, i: nat): seq<byte>
    requires TenSlots(account) && i < MAX_MULTISIG_PUB_KEY
  {
    if i == internal.index then internal.pubkey
    else account.keys[if i > internal.index then i - 1 else i].pubkey
  }

  /** The key shown for i is the i-th key hashed. */
  lemma MergedAt(account: GenericAccount, internal: PubkeyItem, i: nat)
    requires TenSlots(account) && i < account.participants <= MAX_MULTISIG_PUB_KEY
    ensures Merged(account, internal)[i] == KeyAt(account, internal, i)
  {
  }

  lemma MergedKeysOk(account: GenericAccount, internal: PubkeyItem)
    requires TenSlots(account) && account.participants <= MAX_MULTISIG_PUB_KEY
    ensures KeysOk(Merged(account, internal))
  {
  }

  /** The check of crypto_encodeAccountPubkey. */
  predicate SettingsOk(account: GenericAccount) {
    0 < account.approvers <= account.participants <= MAX_MULTISIG_PUB_KEY
  }

  function SharedAccount(kind: byte, account: GenericAccount, internal: PubkeyItem): Account
    requires TenSlots(account) && SettingsOk(account)
  {
    Shared(kind, account.approvers, account.participants, Merged(account, internal))
  }

  /** Erase four bytes of the hash and move the address to the front of the buffer. */
  method CutAddress(address: array<byte>, ghost compress: Primitive, ghost preimage: seq<byte>, addressLen: nat)
    requires 32 <= addressLen <= address.Length
    requires address[..addressLen] == Hash(PlainMode(compress), preimage, 0, addressLen)
    modifies address
    ensures address[..ADDRESS_LENGTH] == AddressOf(compress, preimage)
  {
    hide Hash;
    ghost var tail := address[12..32];
    assert tail == address[..addressLen][12..32];
    AddressIndependentOfLength(compress, preimage, addressLen);
    var hashOffset := PUB_KEY_LENGTH - ADDRESS_LENGTH;
    forall i | 0 <= i < 4 { address[hashOffset + i] := 0; }
    forall i | 0 <= i < ADDRESS_LENGTH { address[i] := address[hashOffset + i]; }
    assert address[..ADDRESS_LENGTH] == Zeros(4) + tail;
  }

  /** Start a hash with a template, then absorb bytes: never refused below the cap. */
  method Begin(s: HashSession, accountType: byte)
    requires s.Valid()
    modifies s.Repr()
    ensures s.Valid() && fresh(s.Repr() - old(s.Repr()))
    ensures s.hasher.m == PlainMode(s.compress) && s.hasher.absorbed == Template(accountType)
    ensures s.accumInLen == ADDRESS_LENGTH
  {
    s.Init();
    var e := s.Update(Some(Template(accountType)));
    assert s.hasher.absorbed == Template(accountType);
  }

  /** Finalise into the address buffer and cut the address out. */
  method Finish(s: HashSession, address: array<byte>, addressLen: nat, ghost preimage: seq<byte>)
    requires s.Valid() && s.hasher.m == PlainMode(s.compress) && s.hasher.absorbed == preimage
    requires 32 <= addressLen <= address.Length && address !in s.Repr()
    modifies address, s.hasher.comp
    ensures s.Valid() && address[..ADDRESS_LENGTH] == AddressOf(s.compress, preimage)
  {
    hide HashSession.Valid, Hash;
    var e := s.Finalize(address, addressLen);
    CutAddress(address, s.compress, preimage, addressLen);
  }

  /** crypto_encodeWalletPubkey */
  method EncodeWalletPubkey(s: HashSession, address: array?<byte>, addressLen: nat,
                            pubkey: Option<Pubkey>) returns (e: ZxError)
    requires s.Valid()
    requires address != null ==> addressLen <= address.Length && address !in s.Repr()
    modifies s.Repr(), address
    ensures s.Valid() && fresh(s.Repr() - old(s.Repr()))
    ensures address != null ==> address !in s.Repr()
    ensures e == if address == null || pubkey == None || addressLen < 60 then ZxNoData else ZxOk
    ensures e == ZxOk ==> address[..ADDRESS_LENGTH] == AddressOf(s.compress, Preimage(Wallet(pubkey.value)))
    ensures e == ZxOk ==> IsAddress(s.compress, address[..24], seq(23, _ => 0) + [1] + pubkey.value)
  {
    hide HashSession.Valid, AddressOf, Template, IsAddress;
    if address == null || pubkey == None || addressLen < MAX_ADDRESS_LENGTH {
      return ZxNoData;
    }
    Begin(s, WALLET);
    UseValid(s);
    var err := s.Update(Some(pubkey.value));
    Finish(s, address, addressLen, Preimage(Wallet(pubkey.value)));
    WalletBytes(pubkey.value);
    AddressBytes(s.compress, Preimage(Wallet(pubkey.value)));
    e := ZxOk;
  }

  lemma UseValid(s: HashSession)
    requires s.Valid()
    ensures s.accumInLen <= MAX_INPUT_LEN
  {
  }

  /** The key loop of crypto_encodeAccountPubkey. */
  method HashKeys(s: HashSession, account: GenericAccount, internal: PubkeyItem)
    requires s.Valid() && TenSlots(account) && account.participants <= MAX_MULTISIG_PUB_KEY
    requires s.accumInLen <= 64
    modifies s.Repr()
    ensures s.Valid() && s.Repr() == old(s.Repr()) && s.hasher == old(s.hasher)
    ensures s.hasher.absorbed == old(s.hasher.absorbed) + Flatten(Merged(account, internal))
  {
    hide HashSession.Valid, Merged, Flatten;
    ghost var keys := Merged(account, internal);
    FlattenNone();
    assert keys[..0] == [];
    var indexAux := 0;
    var i := 0;
    while i < account.participants
      invariant i <= account.participants && s.Valid() && s.Repr() == old(s.Repr()) && s.hasher == old(s.hasher)
      invariant indexAux == if i > internal.index then i - 1 else i
      invariant s.accumInLen <= 64 + 32 * i
      invariant s.hasher.absorbed == old(s.hasher.absorbed) + Flatten(keys[..i])
    {
      MergedAt(account, internal, i);
      FlattenSnoc(keys, i);
      var e;
      if i == internal.index {
        e := s.Update(Some(internal.pubkey));
      } else {
        e := s.Update(Some(account.keys[indexAux].pubkey));
        indexAux := indexAux + 1;
      }
      i := i + 1;
    }
    assert keys[..i] == keys;
  }

  lemma FlattenNone()
    ensures Flatten([]) == []
  {
  }

  lemma FlattenSnoc(keys: seq<seq<byte>>, i: nat)
    requires i < |keys|
    ensures Flatten(keys[..i + 1]) == Flatten(keys[..i]) + keys[i]
  {
    assert keys[..i + 1][..i] == keys[..i];
  }

  /** The bytes hashed for a shared account: 23 zeros, type, four times each count, and 32 bytes for
      each participant, the device's own at its index. */
  function SharedPreimage(kind: byte, account: GenericAccount, internal: PubkeyItem): (r: seq<byte>)
    requires TenSlots(account) && SettingsOk(account)
    ensures |r| == 26 + 32 * account.participants as nat
  {
    seq(23, _ => 0) + [kind, 4 * account.approvers, 4 * account.participants]
    + seq(32 * account.participants as nat, i requires 0 <= i < 32 * account.participants as nat => KeyByte(account, internal, i))
  }

  /** Byte i of the participants' keys in order. */
  function KeyByte(account: GenericAccount, internal: PubkeyItem, i: nat): byte
    requires TenSlots(account) && i < 320
  {
    var k := i / 32;
    if k == internal.index as nat then internal.pubkey[i % 32]
    else account.keys[if k > internal.index as nat then k - 1 else k].pubkey[i % 32]
  }

  lemma SharedPreimageIs(kind: byte, account: GenericAccount, internal: PubkeyItem)
    requires TenSlots(account) && SettingsOk(account) && Encodable(SharedAccount(kind, account, internal))
    ensures Preimage(SharedAccount(kind, account, internal)) == SharedPreimage(kind, account, internal)
  {
    hide *;
    SharedAccountIs(kind, account, internal);
    var keys := Merged(account, internal);
    var bytes, ours := Preimage(SharedAccount(kind, account, internal)), SharedPreimage(kind, account, internal);
    SharedBytes(kind, account.approvers, account.participants, keys);
    SharedPreimageHead(kind, account, internal);
    forall i | 0 <= i < |bytes|
      ensures bytes[i] == ours[i]
    {
      if i < 26 {
        assert bytes[i] == bytes[..26][i] && ours[i] == ours[..26][i];
      } else {
        SharedPreimageKey(kind, account, internal, i - 26);
        var k, r := (i - 26) / 32, (i - 26) % 32;
        assert bytes[26 + 32 * k..26 + 32 * k + 32] == keys[k];
        assert bytes[26 + 32 * k..26 + 32 * k + 32][r] == bytes[26 + 32 * k + r];
      }
    }
  }

  lemma SharedAccountIs(kind: byte, account: GenericAccount, internal: PubkeyItem)
    requires TenSlots(account) && SettingsOk(account)
    ensures account.participants <= MAX_MULTISIG_PUB_KEY
    ensures SharedAccount(kind, account, internal)
         == Shared(kind, account.approvers, account.participants, Merged(account, internal))
  {
    hide Merged;
  }

  lemma SharedPreimageHead(kind: byte, account: GenericAccount, internal: PubkeyItem)
    requires TenSlots(account) && SettingsOk(account)
    ensures SharedPreimage(kind, account, internal)[..26]
         == seq(23, _ => 0) + [kind, 4 * account.approvers, 4 * account.participants]
  {
    hide KeyByte;
  }

  lemma SharedPreimageKey(kind: byte, account: GenericAccount, internal: PubkeyItem, j: nat)
    requires TenSlots(account) && SettingsOk(account) && j < 32 * account.participants as nat
    ensures j / 32 < |Merged(account, internal)| && |Merged(account, internal)[j / 32]| == 32
    ensures SharedPreimage(kind, account, internal)[26 + j] == Merged(account, internal)[j / 32][j % 32]
  {
    hide Merged;
    MergedAt(account, internal, j / 32);
  }

  /** crypto_encodeAccountPubkey */
  method EncodeAccountPubkey(s: HashSession, address: array?<byte>, addressLen: nat, internal: Option<PubkeyItem>,
                             account: Option<GenericAccount>, accountType: byte) returns (e: ZxError)
    requires s.Valid() && (account.Some? ==> TenSlots(account.value))
    requires address != null ==> addressLen <= address.Length && address !in s.Repr()
    modifies s.Repr(), address
    ensures s.Valid() && fresh(s.Repr() - old(s.Repr()))
    ensures address != null ==> address !in s.Repr()
    ensures e ==
      if address == null || internal == None || addressLen < 60 then ZxNoData
      else if accountType == WALLET then ZxOk
      else if account == None then ZxNoData
      else if SettingsOk(account.value) then ZxOk
      else ZxInvalidCryptoSettings
    ensures e == ZxOk && accountType == WALLET ==>
      address[..ADDRESS_LENGTH] == AddressOf(s.compress, Preimage(Wallet(internal.value.pubkey)))
    ensures e == ZxOk && accountType != WALLET ==>
      Encodable(SharedAccount(accountType, account.value, internal.value))
    ensures e == ZxOk && accountType != WALLET ==>
      address[..ADDRESS_LENGTH] == AddressOf(s.compress, Preimage(SharedAccount(accountType, account.value, internal.value)))
    ensures e == ZxOk && accountType == WALLET ==>
      IsAddress(s.compress, address[..24], seq(23, _ => 0) + [1] + internal.value.pubkey)
    ensures e == ZxOk && accountType != WALLET ==>
      IsAddress(s.compress, address[..24], SharedPreimage(accountType, account.value, internal.value))
  {
    hide HashSession.Valid, AddressOf, Template, Merged, Flatten, Preimage, Encodable, IsAddress, SharedPreimage;
    if address == null || internal == None || addressLen < MAX_ADDRESS_LENGTH {
      return ZxNoData;
    }
    if accountType == WALLET {
      e := EncodeWalletPubkey(s, address, addressLen, Some(internal.value.pubkey));
      return;
    }
    if account == None {
      return ZxNoData;
    }
    Begin(s, accountType);
    if account.value.approvers > account.value.participants || account.value.approvers == 0
       || account.value.participants > MAX_MULTISIG_PUB_KEY {
      return ZxInvalidCryptoSettings;
    }
    HashShared(s, account.value, internal.value, accountType);
    Finish(s, address, addressLen, Preimage(SharedAccount(accountType, account.value, internal.value)));
    SharedPreimageIs(accountType, account.value, internal.value);
    AddressBytes(s.compress, Preimage(SharedAccount(accountType, account.value, internal.value)));
    e := ZxOk;
  }

  /** The two inline-encoded counts and the keys, after the template. */
  method HashShared(s: HashSession, account: GenericAccount, internal: PubkeyItem, ghost kind: byte)
    requires s.Valid() && TenSlots(account) && SettingsOk(account)
    requires s.hasher.absorbed == Template(kind) && s.accumInLen == ADDRESS_LENGTH
    modifies s.Repr()
    ensures s.Valid() && s.Repr() == old(s.Repr()) && s.hasher == old(s.hasher)
    ensures Encodable(SharedAccount(kind, account, internal))
    ensures s.hasher.absorbed == Preimage(SharedAccount(kind, account, internal))
  {
    hide HashSession.Valid, Merged, Flatten, Template, KeysOk;
    var scaleApprovers := account.approvers * 4;
    var e := s.Update(Some([scaleApprovers]));
    var scaleParticipants := account.participants * 4;
    e := s.Update(Some([scaleParticipants]));
    HashKeys(s, account, internal);
    MergedKeysOk(account, internal);
    ghost var keys := Flatten(Merged(account, internal));
    JoinCounts(Template(kind), scaleApprovers, scaleParticipants, keys);
  }

  lemma JoinCounts(t: seq<byte>, a: byte, p: byte, keys: seq<byte>)
    ensures t + [a] + [p] + keys == t + ([a, p] + keys)
  {
  }

  /** updateScaleEncodedNumber: encode into eight bytes and hash them. */
  method UpdateScaleEncodedNumber(s: HashSession, num: nat)
    requires s.Valid() && num < NUMBER_LIMIT && s.accumInLen <= 1000
    modifies s.Repr()
    ensures s.Valid() && s.Repr() == old(s.Repr()) && s.hasher == old(s.hasher)
    ensures s.hasher.absorbed == old(s.hasher.absorbed) + Encode(num) && s.accumInLen <= old(s.accumInLen) + 8
  {
    hide HashSession.Valid, Encode;
    var encNum := new byte[8](_ => 0);
    EncodeFits(num);
    var size := ScaleEncodeUint64(num, encNum);
    var e := s.Update(Some(encNum[..size]));
  }

  function OwnerAccount(v: VaultAccount, internal: PubkeyItem): Account
    requires TenSlots(v.owner) && SettingsOk(v.owner)
  {
    SharedAccount(VESTING, v.owner, internal)
  }

  /** The vault as hashed: its owner is the vesting address of the owner account. */
  ghost function VaultOf(compress: Primitive, v: VaultAccount, internal: PubkeyItem): Account
    requires TenSlots(v.owner) && SettingsOk(v.owner) && Encodable(OwnerAccount(v, internal))
  {
    Vault(AddressOf(compress, Preimage(OwnerAccount(v, internal))), v.total, v.unlock, v.start, v.end)
  }

  predicate NumbersFit(v: VaultAccount) {
    v.total < NUMBER_LIMIT && v.unlock < NUMBER_LIMIT && v.start <= MAX_UINT32 && v.end <= MAX_UINT32
  }

  /** Owner address and the four numbers, after the template. */
  method HashVault(s: HashSession, owner: seq<byte>, v: VaultAccount)
    requires s.Valid() && s.hasher.absorbed == Template(VAULT) && s.accumInLen == ADDRESS_LENGTH
    requires |owner| == ADDRESS_LENGTH && NumbersFit(v)
    modifies s.Repr()
    ensures s.Valid() && s.Repr() == old(s.Repr()) && s.hasher == old(s.hasher)
    ensures s.hasher.absorbed == Preimage(Vault(owner, v.total, v.unlock, v.start, v.end))
  {
    hide HashSession.Valid, Template, Encode;
    var e := s.Update(Some(owner));
    UpdateScaleEncodedNumber(s, v.total);
    UpdateScaleEncodedNumber(s, v.unlock);
    UpdateScaleEncodedNumber(s, v.start);
    UpdateScaleEncodedNumber(s, v.end);
    JoinNumbers(Template(VAULT), owner, Encode(v.total), Encode(v.unlock), Encode(v.start), Encode(v.end));
  }

  lemma JoinNumbers(t: seq<byte>, o: seq<byte>, a: seq<byte>, b: seq<byte>, c: seq<byte>, d: seq<byte>)
    ensures t + o + a + b + c + d == t + (o + (a + (b + (c + d))))
  {
  }

  /** The bytes hashed for a vault: 23 zeros, type, owner, and the four numbers in order. */
  function VaultPreimage(owner: seq<byte>, v: VaultAccount): seq<byte>
    requires NumbersFit(v)
  {
    seq(23, _ => 0) + [4] + owner + Encode(v.total) + Encode(v.unlock) + Encode(v.start) + Encode(v.end)
  }

  /** The second half of crypto_encodeVaultPubkey: the vault around its owner's address. */
  method EncodeVaultOf(s: HashSession, address: array<byte>, addressLen: nat, owner: seq<byte>, v: VaultAccount)
    requires s.Valid() && |owner| == ADDRESS_LENGTH && NumbersFit(v)
    requires MAX_ADDRESS_LENGTH <= addressLen <= address.Length && address !in s.Repr()
    modifies s.Repr(), address
    ensures s.Valid() && fresh(s.Repr() - old(s.Repr()))
    ensures Accepted(Vault(owner, v.total, v.unlock, v.start, v.end))
    ensures address[..ADDRESS_LENGTH]
         == AddressOf(s.compress, Preimage(Vault(owner, v.total, v.unlock, v.start, v.end)))
    ensures IsAddress(s.compress, address[..24], VaultPreimage(owner, v))
  {
    hide HashSession.Valid, AddressOf, Template, Preimage, IsAddress;
    Begin(s, VAULT);
    HashVault(s, owner, v);
    Finish(s, address, addressLen, Preimage(Vault(owner, v.total, v.unlock, v.start, v.end)));
    VaultBytes(owner, v.total, v.unlock, v.start, v.end);
    AddressBytes(s.compress, Preimage(Vault(owner, v.total, v.unlock, v.start, v.end)));
  }

  /** crypto_encodeVaultPubkey: first the owner's vesting address, then the vault around it. */
  method EncodeVaultPubkey(s: HashSession, address: array?<byte>, addressLen: nat, internal: Option<PubkeyItem>,
                           vault: Option<VaultAccount>) returns (e: ZxError)
    requires s.Valid() && (vault.Some? ==> TenSlots(vault.value.owner) && NumbersFit(vault.value))
    requires address != null ==> addressLen <= address.Length && address !in s.Repr()
    modifies s.Repr(), address
    ensures s.Valid() && fresh(s.Repr() - old(s.Repr()))
    ensures e ==
      if address == null || vault == None || addressLen < 60 || internal == None then ZxNoData
      else if SettingsOk(vault.value.owner) then ZxOk
      else ZxInvalidCryptoSettings
    ensures e == ZxOk ==> Accepted(OwnerAccount(vault.value, internal.value))
    ensures e == ZxOk ==> Accepted(VaultOf(s.compress, vault.value, internal.value))
    ensures e == ZxOk ==>
      address[..ADDRESS_LENGTH] == AddressOf(s.compress, Preimage(VaultOf(s.compress, vault.value, internal.value)))
    ensures e == ZxOk ==> exists owner ::
      && IsAddress(s.compress, owner, SharedPreimage(3, vault.value.owner, internal.value))
      && IsAddress(s.compress, address[..24], VaultPreimage(owner, vault.value))
  {
    hide HashSession.Valid, AddressOf, Template, Preimage, SharedAccount, Encodable, NumbersFit, IsAddress, SharedPreimage,
      VaultPreimage;
    if address == null || vault == None || addressLen < MAX_ADDRESS_LENGTH {
      return ZxNoData;
    }
    var addressVesting := new byte[100](_ => 0);
    e := EncodeAccountPubkey(s, addressVesting, 100, internal, Some(vault.value.owner), VESTING);
    if e != ZxOk {
      return;
    }
    OwnerIsVesting(vault.value, internal.value);
    EncodeVaultOf(s, address, addressLen, addressVesting[..ADDRESS_LENGTH], vault.value);
  }

  lemma OwnerIsVesting(v: VaultAccount, internal: PubkeyItem)
    requires TenSlots(v.owner) && SettingsOk(v.owner) && Encodable(OwnerAccount(v, internal))
    ensures Accepted(OwnerAccount(v, internal))
  {
    hide Encodable;
  }
}
