/** Address requests: the index validation of an uploaded participant list, and its agreement
    with the two other traversals that put the device's key among the participants. */
module AddressRequest {
  import opened Bytes
  import opened Errors
  import opened TxGrammar
  import opened AddressEncoder

  const VAULT_INFO_SIZE: nat := 24
  const PUBKEY_ITEM_SIZE: nat := 33

  /** The packed structures overlay the upload buffer, and may reach past the message's end. */
  const OVERLAY_SIZE: nat := 357

  function ItemAt(mem: seq<byte>, at: nat): PubkeyItem
    requires at + PUBKEY_ITEM_SIZE <= |mem|
  {
    PubkeyItem(mem[at], mem[at + 1..at + 33])
  }

  /** The generic_account_t that starts at an offset of the buffer. */
  function AccountAt(mem: seq<byte>, at: nat): (a: GenericAccount)
    requires at + 332 <= |mem|
    ensures TenSlots(a)
  {
    GenericAccount(mem[at], mem[at + 1],
      seq(10, i requires 0 <= i < 10 => ItemAt(mem, at + 2 + 33 * i)))
  }

  /** The vault_account_t that starts at an offset of the buffer. */
  function VaultAt(mem: seq<byte>, at: nat): (v: VaultAccount)
    requires at + VAULT_INFO_SIZE + 332 <= |mem|
    ensures TenSlots(v.owner) && v.owner == AccountAt(mem, at + VAULT_INFO_SIZE)
  {
    VaultAccount(Le(mem[at..at + 8]), Le(mem[at + 8..at + 16]), Le(mem[at + 16..at + 20]), Le(mem[at + 20..at + 24]),
                 AccountAt(mem, at + VAULT_INFO_SIZE))
  }

  /** The packed structures in byte positions: a shared account behind the device's index, or a
      vault's numbers and then its owner. */
  lemma Overlay(mem: seq<byte>, i: nat)
    requires |mem| >= 357 && i < 10
    ensures var a := AccountAt(mem, 1);
      a.approvers == mem[1] && a.participants == mem[2]
      && a.keys[i].index == mem[3 + 33 * i] && a.keys[i].pubkey == mem[4 + 33 * i..36 + 33 * i]
    ensures var v := VaultAt(mem, 1);
      v.owner.approvers == mem[25] && v.owner.participants == mem[26]
      && v.owner.keys[i].index == mem[27 + 33 * i] && v.owner.keys[i].pubkey == mem[28 + 33 * i..60 + 33 * i]
  {
    hide Le;
  }

  lemma OverlayNumbers(mem: seq<byte>)
    requires |mem| >= 357
    ensures var v := VaultAt(mem, 1);
      && v.total == Word(mem, 1) + 0x1_0000_0000 * Word(mem, 5)
      && v.unlock == Word(mem, 9) + 0x1_0000_0000 * Word(mem, 13)
      && v.start == Word(mem, 17) && v.end == Word(mem, 21)
  {
    hide Le, AccountAt;
    LeEight(mem[1..9]);
    LeEight(mem[9..17]);
    assert mem[1..9][..4] == mem[1..5] && mem[1..9][4..] == mem[5..9];
    assert mem[9..17][..4] == mem[9..13] && mem[9..17][4..] == mem[13..17];
    LeFour(mem[1..5]);
    LeFour(mem[5..9]);
    LeFour(mem[9..13]);
    LeFour(mem[13..17]);
    LeFour(mem[17..21]);
    LeFour(mem[21..25]);
  }

  /** The 32-bit number at a position. */
  function Word(mem: seq<byte>, at: nat): nat
    requires at + 4 <= |mem|
  {
    mem[at] as int + 0x100 * mem[at + 1] as int + 0x1_0000 * mem[at + 2] as int + 0x100_0000 * mem[at + 3] as int
  }

  /** What is left of the length for keys: without 3 bytes, or 27 for a vault, in one byte. */
  lemma SectionNumbers(messageLength: nat, accountType: byte)
    ensures KeySection(messageLength, accountType)
         == if accountType == 4 then (messageLength - 27) % 256 else (messageLength - 3) % 256
    ensures KeysAt(accountType) == if accountType == 4 then 27 else 3
  {
  }

  /** Where the participant list starts: behind the vault's numbers for a vault. */
  function AccountOffset(accountType: byte): nat {
    if accountType == VAULT then 1 + VAULT_INFO_SIZE else 1
  }

  /** The length of the key section, as the code keeps it: in one byte. */
  function KeySection(messageLength: nat, accountType: byte): nat {
    (messageLength - (AccountOffset(accountType) + 2)) % 256
  }

  /** The index the j-th external key has to carry: participants in order, without the device's. */
  function ExternalIndex(j: nat, internalIndex: nat): nat {
    if j < internalIndex then j else j + 1
  }

  /** The first n participants other than the device are the first keys, in order. */
  predicate InOrder(account: GenericAccount, internalIndex: nat, n: nat)
    requires TenSlots(account) && n <= 10
  {
    forall j :: 0 <= j < n ==> account.keys[j].index as nat == ExternalIndex(j, internalIndex)
  }

  /** How many external keys the loop looks at for a number of participants. */
  function Looked(participants: nat, internalIndex: nat): nat {
    if internalIndex < participants then participants - 1 else participants
  }

  /** The section holds whole keys, one fewer than participants: the indices are checked. */
  predicate Counted(account: GenericAccount, section: nat) {
    section % PUBKEY_ITEM_SIZE == 0 && section / PUBKEY_ITEM_SIZE + 1 == account.participants as nat
  }

  /** What makes a request acceptable. */
  predicate Acceptable(account: GenericAccount, internalIndex: nat, section: nat)
    requires TenSlots(account) && section < 256
  {
    && Counted(account, section)
    && Looked(account.participants, internalIndex) <= 10
    && InOrder(account, internalIndex, Looked(account.participants, internalIndex))
  }

  /** r slots are read by a check of n: all of them if they are in order, else those up to the
      first that is not. */
  predicate ReadsSlots(account: GenericAccount, internalIndex: nat, n: nat, r: nat)
    requires TenSlots(account) && n <= 10
  {
    if InOrder(account, internalIndex, n) then r == n
    else
      0 < r <= n && InOrder(account, internalIndex, r - 1)
      && account.keys[r - 1].index as nat != ExternalIndex(r - 1, internalIndex)
  }

  // ---------- Requests as they are sent ----------

  function PrintItems(keys: seq<PubkeyItem>): (r: seq<byte>)
    ensures |r| == PUBKEY_ITEM_SIZE * |keys|
  {
    if keys == [] then []
    else
      var last := keys[|keys| - 1];
      PrintItems(keys[..|keys| - 1]) + ([last.index] + last.pubkey)
  }

  /** The device's index, a vault's numbers if any, the two counts and the external keys. */
  function PrintRequest(internalIndex: byte, info: seq<byte>, approvers: byte, participants: byte,
                        keys: seq<PubkeyItem>): seq<byte>
  {
    [internalIndex] + info + [approvers, participants] + PrintItems(keys)
  }

  lemma {:induction false} ItemOfPrinted(head: seq<byte>, keys: seq<PubkeyItem>, tail: seq<byte>, i: nat)
    requires i < |keys|
    ensures ItemAt(head + PrintItems(keys) + tail, |head| + 33 * i) == keys[i]
    decreases |keys|
  {
    var n := |keys| - 1;
    var front, last := PrintItems(keys[..n]), [keys[n].index] + keys[n].pubkey;
    var mem := head + PrintItems(keys) + tail;
    assert mem == head + front + (last + tail);
    if i < n {
      ItemOfPrinted(head, keys[..n], last + tail, i);
    } else {
      assert mem[|head + front|..] == last + tail;
      assert mem[|head + front| + 1..|head + front| + 33] == keys[n].pubkey;
    }
  }

  /** The overlaid structure shows the counts and keys of the request that was sent. */
  lemma AccountOfPrinted(internalIndex: byte, info: seq<byte>, approvers: byte, participants: byte,
                         keys: seq<PubkeyItem>, tail: seq<byte>)
    requires |keys| <= 10
    requires |PrintRequest(internalIndex, info, approvers, participants, keys) + tail| >= 1 + |info| + 332
    ensures var mem := PrintRequest(internalIndex, info, approvers, participants, keys) + tail;
      var account := AccountAt(mem, 1 + |info|);
      && mem[0] == internalIndex && account.approvers == approvers && account.participants == participants
      && account.keys[..|keys|] == keys
  {
    hide PrintItems, ItemAt;
    var head := [internalIndex] + info + [approvers, participants];
    var mem := head + PrintItems(keys) + tail;
    forall i | 0 <= i < |keys|
      ensures AccountAt(mem, 1 + |info|).keys[i] == keys[i]
    {
      ItemOfPrinted(head, keys, tail, i);
    }
  }

  /** The key slots read for a request: none if the counts are refused first. */
  predicate SlotsOf(account: GenericAccount, internalIndex: nat, section: nat, slots: nat)
    requires TenSlots(account) && section < 256
  {
    if Counted(account, section) && Looked(account.participants, internalIndex) <= 10
    then ReadsSlots(account, internalIndex, Looked(account.participants, internalIndex), slots)
    else slots == 0
  }

  class AddressRequests {
    var accountType: nat
    var internalIndex: nat
    var optionalNumberOfPubkeys: nat
    var account: GenericAccount
    var vault: VaultAccount

    constructor ()
      ensures accountType == UNKNOWN
    {
      accountType, internalIndex, optionalNumberOfPubkeys := UNKNOWN, 0, 0;
      account := GenericAccount(0, 0, []);
      vault := VaultAccount(0, 0, 0, 0, GenericAccount(0, 0, []));
    }

    /** clearAddressRequest */
    method Clear()
      modifies this
      ensures accountType == UNKNOWN && optionalNumberOfPubkeys == 0
      ensures internalIndex == old(internalIndex) && account == old(account) && vault == old(vault)
    {
      accountType := UNKNOWN;
      optionalNumberOfPubkeys := 0;
    }

    /** The validation loop: every participant but the device has its key next in line. The
        ghost result counts the key slots that were read. */
    method IndicesInOrder(n: nat) returns (ok: bool, ghost slots: nat)
      requires TenSlots(account) && n <= 8
      ensures Looked(n, internalIndex) <= 8
      ensures ok <==> InOrder(account, internalIndex, Looked(n, internalIndex))
      ensures ReadsSlots(account, internalIndex, Looked(n, internalIndex), slots)
    {
      var indexAux := 0;
      var i := 0;
      slots := 0;
      while i < n
        invariant i <= n && indexAux == slots == Looked(i, internalIndex)
        invariant InOrder(account, internalIndex, indexAux)
      {
        if i != internalIndex {
          slots := slots + 1;
          if i == account.keys[indexAux].index as nat {
            indexAux := indexAux + 1;
          } else {
            ok := false;
            return;
          }
        }
        i := i + 1;
      }
      ok := true;
    }

    /** readAddressRequest on the uploaded message. The ghost result counts the key slots that
        the check of the indices read. */
    method Read(mem: seq<byte>, messageLength: nat, wanted: byte) returns (e: ZxError, ghost slots: nat)
      requires |mem| >= OVERLAY_SIZE && messageLength <= |mem| && messageLength < 0x1_0000
      modifies this
      ensures old(accountType) != UNKNOWN || wanted == UNKNOWN ==> e == ZxUnknown
      ensures old(accountType) == UNKNOWN && wanted !in {UNKNOWN, MULTISIG, VESTING, VAULT} ==> e == ZxEncodingFailed
      ensures old(accountType) == UNKNOWN && wanted in {MULTISIG, VESTING, VAULT} ==>
        e == if Acceptable(AccountAt(mem, AccountOffset(wanted)), mem[0] as nat, KeySection(messageLength, wanted))
             then ZxOk else ZxInvalidCryptoSettings
      ensures accountType == if e == ZxOk then wanted as nat else old(accountType)
      ensures e == ZxOk ==> internalIndex == mem[0] as nat && account == AccountAt(mem, AccountOffset(wanted))
      ensures e == ZxOk && wanted == VAULT ==> vault == VaultAt(mem, 1)
      ensures e == ZxOk ==> optionalNumberOfPubkeys + 1 == account.participants as nat
      ensures old(accountType) == UNKNOWN && wanted in {MULTISIG, VESTING, VAULT} ==>
        SlotsOf(AccountAt(mem, AccountOffset(wanted)), mem[0], KeySection(messageLength, wanted), slots)
    {
      slots := 0;
      if accountType != UNKNOWN || wanted == UNKNOWN {
        e := ZxUnknown;
        return;
      }
      if wanted !in {MULTISIG, VESTING, VAULT} {
        e := ZxEncodingFailed;
        return;
      }
      hide AccountAt, ReadsSlots, InOrder, VaultAt;
      internalIndex := mem[0];
      account := AccountAt(mem, AccountOffset(wanted));
      if wanted == VAULT {
        vault := VaultAt(mem, 1);
      }
      var pubkeysBuffSize := KeySection(messageLength, wanted);
      e := ZxInvalidCryptoSettings;
      if pubkeysBuffSize % PUBKEY_ITEM_SIZE != 0 {
        return;
      }
      optionalNumberOfPubkeys := pubkeysBuffSize / PUBKEY_ITEM_SIZE;
      if optionalNumberOfPubkeys + 1 != account.participants as nat {
        return;
      }
      var ok;
      ok, slots := IndicesInOrder(optionalNumberOfPubkeys + 1);
      if !ok {
        return;
      }
      accountType := wanted;
      e := ZxOk;
    }

    /** getPublicKey: the key shown for a participant. */
    method GetPublicKey(index: nat, devicePubkey: Pubkey) returns (pubkey: Pubkey)
      requires TenSlots(account) && index < 10 && internalIndex < 256
      ensures index < account.participants as nat <= 10 ==>
        pubkey == Merged(account, PubkeyItem(internalIndex, devicePubkey))[index]
    {
      if index == internalIndex {
        return devicePubkey;
      }
      var tmpIndex := if index > internalIndex then index - 1 else index;
      pubkey := account.keys[tmpIndex].pubkey;
    }
  }

  // ---------- The three traversals ----------

  /** For an accepted request whose device is among the participants, for every participant i:
      the key shown for i is the i-th key hashed, and an external one carries the index i. */
  lemma TraversalsAgree(account: GenericAccount, internal: PubkeyItem, section: nat, i: nat)
    requires TenSlots(account) && section < 256 && Acceptable(account, internal.index, section)
    requires internal.index < account.participants && i < account.participants as nat
    ensures account.participants <= 8
    ensures Merged(account, internal)[i] == KeyAt(account, internal, i)
    ensures i == internal.index as nat ==> Merged(account, internal)[i] == internal.pubkey
    ensures i != internal.index as nat ==>
      exists j: nat :: j < account.participants as nat - 1
        && account.keys[j].index as nat == i && Merged(account, internal)[i] == account.keys[j].pubkey
  {
  }

  /** The one-byte key section loses the larger requests: a complete request, with its external
      keys in order, is accepted if and only if it has at most eight participants, not ten. */
  lemma CompleteRequestAccepted(internalIndex: byte, info: seq<byte>, approvers: byte, participants: byte,
                                keys: seq<PubkeyItem>, tail: seq<byte>, accountType: byte)
    requires 1 + |info| == AccountOffset(accountType) && internalIndex < participants <= 10
    requires |keys| == participants as nat - 1
    requires forall j :: 0 <= j < |keys| ==> keys[j].index as nat == ExternalIndex(j, internalIndex)
    requires |PrintRequest(internalIndex, info, approvers, participants, keys) + tail| >= OVERLAY_SIZE
    ensures var request := PrintRequest(internalIndex, info, approvers, participants, keys);
      participants <= 8 <==>
        Acceptable(AccountAt(request + tail, AccountOffset(accountType)), internalIndex, KeySection(|request|, accountType))
  {
    hide AccountAt, PrintItems;
    AccountOfPrinted(internalIndex, info, approvers, participants, keys, tail);
    var request := PrintRequest(internalIndex, info, approvers, participants, keys);
    var account := AccountAt(request + tail, AccountOffset(accountType));
    assert forall j :: 0 <= j < |keys| ==> account.keys[j] == account.keys[..|keys|][j];
    SectionOf(|keys|, |request|, accountType);
  }

  lemma SectionOf(k: nat, messageLength: nat, accountType: byte)
    requires k <= 9 && messageLength == AccountOffset(accountType) + 2 + PUBKEY_ITEM_SIZE * k
    ensures KeySection(messageLength, accountType) == if k <= 7 then 33 * k else if k == 8 then 8 else 41
  {
    assert messageLength - (AccountOffset(accountType) + 2) == 33 * k;
  }

  // ---------- What was looked at, and what was sent ----------

  /** Where the external keys start in an upload. */
  function KeysAt(accountType: byte): nat {
    AccountOffset(accountType) + 2
  }

  /** An accepted message holds exactly the external keys of the announced participants if and
      only if its key section is not negative and fits its byte. */
  lemma AcceptedLength(account: GenericAccount, internalIndex: nat, messageLength: nat, accountType: byte)
    requires TenSlots(account)
    requires Acceptable(account, internalIndex, KeySection(messageLength, accountType))
    ensures messageLength == KeysAt(accountType) + PUBKEY_ITEM_SIZE * (account.participants - 1)
       <==> KeysAt(accountType) <= messageLength <= KeysAt(accountType) + 255
  {
    hide InOrder, Looked, AccountOffset;
    SectionWraps(messageLength - KeysAt(accountType), KeySection(messageLength, accountType), account.participants - 1);
  }

  /** A length and what one byte keeps of it. */
  lemma SectionWraps(len: int, section: nat, n: int)
    requires section == len % 256 && section % PUBKEY_ITEM_SIZE == 0 && section / PUBKEY_ITEM_SIZE == n
    ensures section == PUBKEY_ITEM_SIZE * n && (len == section <==> 0 <= len <= 255) && (len >= 256 ==> len >= 256 + section)
  {
  }

  /** The check of the indices reads only bytes that were sent if and only if the fixed part was
      sent and: the device is one of the participants, or the key section wrapped around, or one
      of the keys that were sent is already out of order. */
  lemma LooksWithinMessage(account: GenericAccount, internalIndex: nat, messageLength: nat, accountType: byte, slots: nat)
    requires TenSlots(account) && Counted(account, KeySection(messageLength, accountType))
    requires SlotsOf(account, internalIndex, KeySection(messageLength, accountType), slots)
    ensures KeysAt(accountType) + PUBKEY_ITEM_SIZE * slots <= messageLength
       <==> KeysAt(accountType) <= messageLength
            && (internalIndex < account.participants as nat
                || messageLength >= KeysAt(accountType) + 256
                || !InOrder(account, internalIndex, account.participants as nat - 1))
  {
    hide InOrder, AccountOffset;
    SectionWraps(messageLength - KeysAt(accountType), KeySection(messageLength, accountType), account.participants - 1);
    SlotsBound(account, internalIndex, account.participants as nat, slots);
  }

  /** For a device that is no participant the check goes one past the keys sent, unless one of
      them stops it. */
  lemma SlotsBound(account: GenericAccount, internalIndex: nat, participants: nat, slots: nat)
    requires TenSlots(account) && 1 <= participants <= 8
    requires ReadsSlots(account, internalIndex, Looked(participants, internalIndex), slots)
    ensures slots <= Looked(participants, internalIndex)
    ensures internalIndex >= participants ==>
      (slots == participants <==> InOrder(account, internalIndex, participants - 1))
  {
    if internalIndex >= participants && slots > 0 && slots < participants {
      assert !InOrder(account, internalIndex, participants - 1) by {
        assert account.keys[slots - 1].index as nat != ExternalIndex(slots - 1, internalIndex);
      }
    }
  }

  /** Of the messages shorter than the fixed part exactly one kind is accepted: two bytes for a
      vault, when the storage behind them shows eight participants in order. */
  lemma AcceptedWithoutCounts(account: GenericAccount, internalIndex: nat, messageLength: nat, accountType: byte)
    requires TenSlots(account) && messageLength < KeysAt(accountType)
    ensures Acceptable(account, internalIndex, KeySection(messageLength, accountType))
       <==> accountType == VAULT && messageLength == 2 && account.participants == 8
            && InOrder(account, internalIndex, Looked(8, internalIndex))
  {
    hide InOrder;
    var section := KeySection(messageLength, accountType);
    assert section == messageLength + 256 - KeysAt(accountType);
    assert section % 33 == 0 <==> section == 231;
  }

  /** A device index that is no participant's: with one key sent, the slot behind it is taken
      for a key if it starts with the index that is next in line. */
  lemma LooksPastTheKeys(key: Pubkey, tail: seq<byte>)
    requires |tail| >= OVERLAY_SIZE && tail[0] == 1
    ensures var request := PrintRequest(5, [], 1, 2, [PubkeyItem(0, key)]);
      && |request| == 36
      && Acceptable(AccountAt(request + tail, 1), 5, KeySection(36, MULTISIG))
      && KeysAt(MULTISIG) + PUBKEY_ITEM_SIZE * Looked(2, 5) == 69
  {
    hide AccountAt, PrintItems;
    var keys := [PubkeyItem(0, key)];
    var request := PrintRequest(5, [], 1, 2, keys);
    var account := AccountAt(request + tail, 1);
    AccountOfPrinted(5, [], 1, 2, keys, tail);
    assert account.keys[0] == account.keys[..1][0];
    SlotAt(request + tail, 1, 1);
    assert (request + tail)[36] == tail[0];
  }

  lemma SlotAt(mem: seq<byte>, at: nat, i: nat)
    requires at + 332 <= |mem| && i < 10
    ensures AccountAt(mem, at).keys[i].index == mem[at + 2 + 33 * i]
  {
  }

  /** After any complete vault request for eight participants, in order, an upload of just two
      bytes that repeats the device's index is accepted: the counts and keys are still those of
      the request before. */
  lemma TwoByteVaultAccepted(internalIndex: byte, info: seq<byte>, approvers: byte, keys: seq<PubkeyItem>,
                             tail: seq<byte>, second: byte)
    requires |info| == VAULT_INFO_SIZE && internalIndex < 8 && |keys| == 7
    requires forall j :: 0 <= j < 7 ==> keys[j].index as nat == ExternalIndex(j, internalIndex)
    requires |PrintRequest(internalIndex, info, approvers, 8, keys) + tail| >= OVERLAY_SIZE
    ensures var storage := PrintRequest(internalIndex, info, approvers, 8, keys) + tail;
      var storage' := [internalIndex, second] + storage[2..];
      && AccountAt(storage', AccountOffset(VAULT)) == AccountAt(storage, AccountOffset(VAULT))
      && Acceptable(AccountAt(storage', AccountOffset(VAULT)), internalIndex, KeySection(2, VAULT))
  {
    hide AccountAt, PrintItems, Acceptable;
    var request := PrintRequest(internalIndex, info, approvers, 8, keys);
    CompleteRequestAccepted(internalIndex, info, approvers, 8, keys, tail, VAULT);
    SectionOf(7, |request|, VAULT);
    SameAccount(request + tail, [internalIndex, second] + (request + tail)[2..], AccountOffset(VAULT));
  }

  lemma SameAccount(mem: seq<byte>, mem': seq<byte>, at: nat)
    requires at + 332 <= |mem| == |mem'| && mem[at..] == mem'[at..]
    ensures AccountAt(mem, at) == AccountAt(mem', at)
  {
    hide ItemAt;
    assert mem[at] == mem[at..][0] && mem[at + 1] == mem[at..][1];
    forall i | 0 <= i < 10
      ensures ItemAt(mem, at + 2 + 33 * i) == ItemAt(mem', at + 2 + 33 * i)
    {
      SameItem(mem, mem', at, 2 + 33 * i);
    }
  }

  lemma SameItem(mem: seq<byte>, mem': seq<byte>, at: nat, k: nat)
    requires at + k + 33 <= |mem| == |mem'| && mem[at..] == mem'[at..]
    ensures ItemAt(mem, at + k) == ItemAt(mem', at + k)
  {
    assert mem[at + k] == mem[at..][k] && mem[at + k + 1..at + k + 33] == mem[at..][k + 1..k + 33];
    assert mem'[at + k] == mem'[at..][k] && mem'[at + k + 1..at + k + 33] == mem'[at..][k + 1..k + 33];
  }
}
