/** From an uploaded request to the address: what the devices of one group compute, each from a
    request of its own. */
module AddressFlow {
  import opened Bytes
  import opened Errors
  import opened Scale
  import opened TxGrammar
  import opened ZxBlake3
  import opened AccountHash
  import opened AddressEncoder
  import opened AddressRequest

  // ---------- One group, one list ----------

  /** The external keys for the device at d: everybody else's, with their indices. */
  function Others(all: seq<Pubkey>, d: byte): (r: seq<PubkeyItem>)
    requires d as nat < |all| <= 256
    ensures |r| == |all| - 1
    ensures forall j :: 0 <= j < |r| ==>
      r[j].index as nat == ExternalIndex(j, d) && r[j].pubkey == all[ExternalIndex(j, d)]
  {
    seq(|all| - 1, j requires 0 <= j < |all| - 1 => PubkeyItem(ExternalIndex(j, d), all[ExternalIndex(j, d)]))
  }

  /** For any group of at most eight keys and any of its devices: the request with the other keys
      is accepted, and the list that is hashed is the whole group, the same on every device. */
  lemma CoSignersAgree(all: seq<Pubkey>, d: byte, info: seq<byte>, approvers: byte, tail: seq<byte>, accountType: byte)
    requires d as nat < |all| <= 8 && 1 + |info| == AccountOffset(accountType)
    requires |PrintRequest(d, info, approvers, |all|, Others(all, d)) + tail| >= OVERLAY_SIZE
    ensures var request := PrintRequest(d, info, approvers, |all|, Others(all, d));
      var account := AccountAt(request + tail, AccountOffset(accountType));
      && (request + tail)[0] == d
      && Acceptable(account, d, KeySection(|request|, accountType))
      && account.approvers == approvers && account.participants as nat == |all|
      && Merged(account, PubkeyItem(d, all[d])) == all
  {
    hide AccountAt, PrintItems, Acceptable, Merged;
    var keys := Others(all, d);
    var account := AccountAt(PrintRequest(d, info, approvers, |all|, keys) + tail, AccountOffset(accountType));
    CompleteRequestAccepted(d, info, approvers, |all|, keys, tail, accountType);
    AccountOfPrinted(d, info, approvers, |all|, keys, tail);
    MergedIsAll(account, all, d);
  }

  lemma MergedIsAll(account: GenericAccount, all: seq<Pubkey>, d: byte)
    requires TenSlots(account) && d as nat < |all| == account.participants as nat <= 8
    requires account.keys[..|all| - 1] == Others(all, d)
    ensures Merged(account, PubkeyItem(d, all[d])) == all
  {
    var internal := PubkeyItem(d, all[d]);
    var merged := Merged(account, internal);
    hide Merged;
    forall i | 0 <= i < |all|
      ensures merged[i] == all[i]
    {
      MergedAt(account, internal, i);
      if i != d as nat {
        var j := if i > d as nat then i - 1 else i;
        assert account.keys[j] == account.keys[..|all| - 1][j];
      }
    }
  }

  // ---------- A vault's numbers ----------

  /** A vault's numbers as they are sent. */
  function PrintInfo(total: nat, unlock: nat, start: nat, end: nat): (r: seq<byte>)
    ensures |r| == VAULT_INFO_SIZE
  {
    LeBytes(total, 8) + LeBytes(unlock, 8) + LeBytes(start, 4) + LeBytes(end, 4)
  }

  predicate MachineNumbers(total: nat, unlock: nat, start: nat, end: nat) {
    total <= MAX_UINT64 && unlock <= MAX_UINT64 && start <= MAX_UINT32 && end <= MAX_UINT32
  }

  lemma {:induction false} InfoOfPrinted(total: nat, unlock: nat, start: nat, end: nat, head: seq<byte>, rest: seq<byte>)
    requires MachineNumbers(total, unlock, start, end) && |head| == 1 && |rest| >= 332
    ensures var v := VaultAt(head + PrintInfo(total, unlock, start, end) + rest, 1);
      v.total == total && v.unlock == unlock && v.start == start && v.end == end
  {
    hide LeBytes, Le, AccountAt;
    Pow256Values();
    LeRoundTrip(total, 8);
    LeRoundTrip(unlock, 8);
    LeRoundTrip(start, 4);
    LeRoundTrip(end, 4);
    var mem := head + PrintInfo(total, unlock, start, end) + rest;
    assert mem[1..9] == LeBytes(total, 8) && mem[9..17] == LeBytes(unlock, 8);
    assert mem[17..21] == LeBytes(start, 4) && mem[21..25] == LeBytes(end, 4);
  }

  /** A complete vault request is accepted whatever its numbers are, and shows them; but their
      encodings fit the eight bytes they are given if and only if both amounts are below 2^56. */
  lemma AnyVaultAccepted(all: seq<Pubkey>, d: byte, total: nat, unlock: nat, start: nat, end: nat,
                         approvers: byte, tail: seq<byte>)
    requires d as nat < |all| <= 8 && MachineNumbers(total, unlock, start, end)
    requires |PrintRequest(d, PrintInfo(total, unlock, start, end), approvers, |all|, Others(all, d)) + tail| >= OVERLAY_SIZE
    ensures var request := PrintRequest(d, PrintInfo(total, unlock, start, end), approvers, |all|, Others(all, d));
      var v := VaultAt(request + tail, 1);
      && Acceptable(v.owner, d, KeySection(|request|, VAULT))
      && v == VaultAccount(total, unlock, start, end, v.owner)
      && Merged(v.owner, PubkeyItem(d, all[d])) == all
      && (|Encode(v.total)| <= 8 && |Encode(v.unlock)| <= 8 && |Encode(v.start)| <= 8 && |Encode(v.end)| <= 8 <==>
          total < NUMBER_LIMIT && unlock < NUMBER_LIMIT)
  {
    hide PrintInfo, AccountAt, PrintItems, Acceptable, Merged, Encode, VaultAt;
    var info := PrintInfo(total, unlock, start, end);
    CoSignersAgree(all, d, info, approvers, tail, VAULT);
    var counts: seq<byte> := [approvers, |all|];
    var rest := counts + PrintItems(Others(all, d)) + tail;
    assert PrintRequest(d, info, approvers, |all|, Others(all, d)) + tail == [d] + info + rest;
    InfoOfPrinted(total, unlock, start, end, [d], rest);
    EncodeFits(total);
    EncodeFits(unlock);
    EncodeFits(start);
    EncodeFits(end);
  }

  // ---------- As the device runs it ----------

  /** crypto_fillAddressMultisigOrVesting: the address of an accepted request. */
  method FillAddress(requests: AddressRequests, s: HashSession, address: array<byte>, devicePubkey: Pubkey)
      returns (e: ZxError)
    requires s.Valid() && TenSlots(requests.account) && requests.internalIndex < 256
    requires address.Length == MAX_ADDRESS_LENGTH && address !in s.Repr()
    modifies s.Repr(), address
    ensures s.Valid() && fresh(s.Repr() - old(s.Repr()))
    ensures e == if requests.accountType in {MULTISIG, VESTING} && SettingsOk(old(requests.account)) then ZxOk
                 else ZxInvalidCryptoSettings
    ensures e == ZxOk ==>
      Encodable(SharedAccount(old(requests.accountType), old(requests.account), PubkeyItem(old(requests.internalIndex), devicePubkey)))
    ensures e == ZxOk ==> address[..ADDRESS_LENGTH] == AddressOf(s.compress, Preimage(
      SharedAccount(old(requests.accountType), old(requests.account), PubkeyItem(old(requests.internalIndex), devicePubkey))))
  {
    hide HashSession.Valid, AddressOf, Preimage, Encodable, SharedAccount;
    if requests.accountType != MULTISIG && requests.accountType != VESTING {
      return ZxInvalidCryptoSettings;
    }
    var internal := PubkeyItem(requests.internalIndex, devicePubkey);
    e := EncodeAccountPubkey(s, address, MAX_ADDRESS_LENGTH, Some(internal), Some(requests.account), requests.accountType);
  }

  /** A device of a group, from the upload to the address: whichever device it is, the address is
      that of the whole group. */
  method CoSignerAddress(s: HashSession, all: seq<Pubkey>, d: byte, approvers: byte, kind: byte, tail: seq<byte>,
                         address: array<byte>) returns (e: ZxError)
    requires s.Valid() && d as nat < |all| <= 8 && kind in {MULTISIG, VESTING} && |tail| >= OVERLAY_SIZE
    requires address.Length == MAX_ADDRESS_LENGTH && address !in s.Repr()
    modifies s.Repr(), address
    ensures s.Valid()
    ensures e == if 0 < approvers as nat <= |all| then ZxOk else ZxInvalidCryptoSettings
    ensures e == ZxOk ==> Accepted(Shared(kind, approvers, |all|, all))
    ensures e == ZxOk ==>
      address[..ADDRESS_LENGTH] == AddressOf(s.compress, Preimage(Shared(kind, approvers, |all|, all)))
  {
    hide HashSession.Valid, AddressOf, Preimage, Encodable, AccountAt, PrintItems, Acceptable, Merged, SlotsOf, Others;
    var request := PrintRequest(d, [], approvers, |all|, Others(all, d));
    RequestLength(all, d, [], approvers);
    CoSignersAgree(all, d, [], approvers, tail, kind);
    var requests := new AddressRequests();
    ghost var slots;
    e, slots := requests.Read(request + tail, |request|, kind);
    e := FillAddress(requests, s, address, all[d]);
  }

  /** crypto_fillAddressVault: the address of an accepted vault request. */
  method FillVaultAddress(requests: AddressRequests, s: HashSession, address: array<byte>, devicePubkey: Pubkey)
      returns (e: ZxError)
    requires s.Valid() && TenSlots(requests.vault.owner) && NumbersFit(requests.vault) && requests.internalIndex < 256
    requires address.Length == MAX_ADDRESS_LENGTH && address !in s.Repr()
    modifies s.Repr(), address
    ensures s.Valid() && fresh(s.Repr() - old(s.Repr()))
    ensures e == if requests.accountType == VAULT && SettingsOk(old(requests.vault.owner)) then ZxOk
                 else ZxInvalidCryptoSettings
    ensures e == ZxOk ==> var internal := PubkeyItem(old(requests.internalIndex), devicePubkey);
      && Accepted(OwnerAccount(old(requests.vault), internal))
      && Accepted(VaultOf(s.compress, old(requests.vault), internal))
      && address[..ADDRESS_LENGTH] == AddressOf(s.compress, Preimage(VaultOf(s.compress, old(requests.vault), internal)))
  {
    hide HashSession.Valid, AddressOf, Preimage, Encodable, SharedAccount, VaultOf, OwnerAccount;
    if requests.accountType != VAULT {
      return ZxInvalidCryptoSettings;
    }
    var internal := PubkeyItem(requests.internalIndex, devicePubkey);
    e := EncodeVaultPubkey(s, address, MAX_ADDRESS_LENGTH, Some(internal), Some(requests.vault));
  }

  /** The same for a vault: its address is that of the numbers sent and of the group that owns it. */
  method CoSignerVaultAddress(s: HashSession, all: seq<Pubkey>, d: byte, approvers: byte, total: nat, unlock: nat,
                              start: nat, end: nat, tail: seq<byte>, address: array<byte>) returns (e: ZxError)
    requires s.Valid() && d as nat < |all| <= 8 && |tail| >= OVERLAY_SIZE
    requires total < NUMBER_LIMIT && unlock < NUMBER_LIMIT && start <= MAX_UINT32 && end <= MAX_UINT32
    requires address.Length == MAX_ADDRESS_LENGTH && address !in s.Repr()
    modifies s.Repr(), address
    ensures s.Valid()
    ensures e == if 0 < approvers as nat <= |all| then ZxOk else ZxInvalidCryptoSettings
    ensures e == ZxOk ==>
      var owner := Shared(VESTING, approvers, |all|, all);
      && Accepted(owner) && Accepted(Vault(AddressOf(s.compress, Preimage(owner)), total, unlock, start, end))
      && address[..ADDRESS_LENGTH]
      == AddressOf(s.compress, Preimage(Vault(AddressOf(s.compress, Preimage(owner)), total, unlock, start, end)))
  {
    hide HashSession.Valid, AddressOf, Preimage, Encodable, AccountAt, VaultAt, PrintInfo, PrintItems, Acceptable, Merged,
      SlotsOf, Others, Encode;
    var info := PrintInfo(total, unlock, start, end);
    var request := PrintRequest(d, info, approvers, |all|, Others(all, d));
    RequestLength(all, d, info, approvers);
    CoSignersAgree(all, d, info, approvers, tail, VAULT);
    AnyVaultAccepted(all, d, total, unlock, start, end, approvers, tail);
    var requests := new AddressRequests();
    ghost var slots;
    e, slots := requests.Read(request + tail, |request|, VAULT);
    e := FillVaultAddress(requests, s, address, all[d]);
  }

  lemma RequestLength(all: seq<Pubkey>, d: byte, info: seq<byte>, approvers: byte)
    requires d as nat < |all| <= 8 && |info| <= VAULT_INFO_SIZE
    ensures |PrintRequest(d, info, approvers, |all|, Others(all, d))| < 0x1_0000
  {
    hide Others, PrintItems;
  }
}
