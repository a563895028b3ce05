/** Message signing: the parser of length-prefixed messages and what it makes the device sign. */
module Message {
  import opened Bytes
  import opened Errors
  import opened Scale
  import opened TxParser

  const PARSER_MESSAGE_PREFIX_LEN: nat := 2
  const PARSER_MESSAGE_MESSAGE_LEN: nat := 2

  /** A message as it is sent. */
  datatype Msg = Msg(prefix: seq<byte>, domain: nat, message: seq<byte>)

  /** Bytes_t: not bytes but a place in the upload storage. A null one has no length. */
  datatype Slice = Slice(off: nat, len: nat)

  /** parser_message_tx_t. Nothing clears it between parses. */
  datatype Fields = Fields(prefix: Slice, domain: nat, message: Slice)

  const ZERO_FIELDS: Fields := Fields(Slice(0, 0), 0, Slice(0, 0))

  /** ATX, PROPOSAL, BALLOT, HARE, POET, BEACON_FIRST_MSG, BEACON_FOLLOWUP_MSG */
  predicate ListedDomain(d: nat) {
    d in {0, 1, 2, 3, 4, 10, 11}
  }

  // ---------- Specification ----------

  /** The bytes a field shows: read off the storage as it is now, not as it was when the field
      was set. None when they lie past its end. */
  function Shown(storage: seq<byte>, f: Slice): Option<seq<byte>> {
    if f.len == 0 then Some([])
    else if f.off + f.len <= |storage| then Some(storage[f.off..f.off + f.len])
    else None
  }

  predicate Shows(storage: seq<byte>, f: Fields, m: Msg) {
    Shown(storage, f.prefix) == Some(m.prefix) && f.domain == m.domain && Shown(storage, f.message) == Some(m.message)
  }

  function TakeUInt(s: seq<byte>, n: nat): Parsed<nat> {
    if |s| < n then Fail(UnexpectedBufferEnd) else Done(Le(s[..n]), s[n..])
  }

  datatype Part = Part(error: ParserError, field: Slice, at: nat)

  /** A part that is only read when it is not empty; else the field stays as it was. The field
      is set before it is known whether all its bytes are there. */
  function ReadPart(s: seq<byte>, at: nat, n: nat, before: Slice): Part {
    if n == 0 then Part(ParserOk, before, at)
    else if at >= |s| then Part(UnexpectedBufferEnd, before, at)
    else if at + n > |s| then Part(UnexpectedBufferEnd, Slice(at, n), at)
    else Part(ParserOk, Slice(at, n), at + n)
  }

  /** The result of a parse and what it leaves in the object, refused or not. */
  function ReadMsg(s: seq<byte>, before: Fields): (ParserError, Fields) {
    if |s| < 4 then (UnexpectedBufferEnd, before)
    else
      var p := ReadPart(s, 4, Le(s[..2]), before.prefix);
      var f := before.(prefix := p.field);
      if p.error != ParserOk then (p.error, f) else ReadBody(s, p.at, Le(s[2..4]), f)
  }

  /** Domain byte and message. */
  function ReadBody(s: seq<byte>, at: nat, messageLen: nat, before: Fields): (ParserError, Fields) {
    if at >= |s| then (UnexpectedBufferEnd, before)
    else
      var f := before.(domain := s[at]);
      if !ListedDomain(s[at]) then (UnexpectedValue, f)
      else
        var m := ReadPart(s, at + 1, messageLen, f.message);
        (if m.error == ParserOk && m.at != |s| then UnexpectedUnparsedBytes else m.error, f.(message := m.field))
  }

  /** Two little-endian lengths, then prefix, domain byte and message. */
  function PrintMsg(m: Msg): seq<byte>
    requires m.domain < 256
  {
    LeBytes(|m.prefix|, 2) + LeBytes(|m.message|, 2) + Signed(m)
  }

  /** The bytes that are signed. */
  function Signed(m: Msg): seq<byte>
    requires m.domain < 256
  {
    m.prefix + [m.domain] + m.message
  }

  predicate MsgOk(m: Msg) {
    |m.prefix| < 0x1_0000 && |m.message| < 0x1_0000 && ListedDomain(m.domain)
  }

  lemma LeTwo(s: seq<byte>)
    requires |s| == 2
    ensures Le(s) < 0x1_0000 && LeBytes(Le(s), 2) == s
  {
    hide *;
    LeUnfold(s[0], s[1..]);
    LeUnfold(s[1], s[2..]);
    LeEmpty();
    assert s == [s[0]] + s[1..] && s[1..] == [s[1]] + s[2..];
    LeBytesTwo(Le(s));
  }

  lemma LeBytesTwoBack(n: nat)
    requires n < 0x1_0000
    ensures Le(LeBytes(n, 2)) == n
  {
    Pow256Values();
    LeRoundTrip(n, 2);
  }

  lemma DomainBelow256(d: nat)
    requires ListedDomain(d)
    ensures d < 256
  {
  }

  /** The parts of a serialisation, by position. */
  lemma PrintedParts(m: Msg)
    requires MsgOk(m)
    ensures m.domain < 256
    ensures var s, p := PrintMsg(m), |m.prefix|;
      && |s| == 5 + p + |m.message| && Le(s[..2]) == p && Le(s[2..4]) == |m.message|
      && s[4..4 + p] == m.prefix && s[4 + p] == m.domain && s[5 + p..] == m.message && s[4..] == Signed(m)
  {
    hide Le, LeBytes, ListedDomain;
    DomainBelow256(m.domain);
    LeBytesTwoBack(|m.prefix|);
    LeBytesTwoBack(|m.message|);
    assert PrintMsg(m)[..2] == LeBytes(|m.prefix|, 2) && PrintMsg(m)[2..4] == LeBytes(|m.message|, 2);
  }

  /** What reading a serialisation leaves in the object: an empty prefix or message keeps the
      place that was there before. */
  lemma ReadPrinted(m: Msg, before: Fields)
    requires MsgOk(m)
    ensures m.domain < 256
    ensures ReadMsg(PrintMsg(m), before) == (ParserOk, Fields(
      if m.prefix == [] then before.prefix else Slice(4, |m.prefix|),
      m.domain,
      if m.message == [] then before.message else Slice(5 + |m.prefix|, |m.message|)))
  {
    hide Le, PrintMsg;
    PrintedParts(m);
  }

  /** The message an accepted buffer spells. */
  lemma AcceptedIsPrinted(s: seq<byte>, before: Fields) returns (m: Msg)
    requires ReadMsg(s, before).0 == ParserOk
    ensures MsgOk(m) && s == PrintMsg(m)
  {
    hide Le, LeBytes, ListedDomain;
    LeTwo(s[..2]);
    LeTwo(s[2..4]);
    var p := Le(s[..2]);
    m := Msg(s[4..4 + p], s[4 + p], s[5 + p..]);
  }

  /** Whatever the object held, the parser accepts exactly the serialisations of messages with a
      listed domain. */
  lemma AcceptedIff(s: seq<byte>, before: Fields)
    ensures ReadMsg(s, before).0 == ParserOk <==> exists m :: MsgOk(m) && s == PrintMsg(m)
  {
    hide ReadMsg, PrintMsg;
    if ReadMsg(s, before).0 == ParserOk {
      var m := AcceptedIsPrinted(s, before);
    }
    if m :| MsgOk(m) && s == PrintMsg(m) {
      ReadPrinted(m, before);
    }
  }

  /** The bytes of a message: its lengths, low byte first, and then prefix, domain and text. */
  lemma MessageBytes(m: Msg)
    requires |m.prefix| < 0x1_0000 && |m.message| < 0x1_0000 && m.domain < 256
    ensures PrintMsg(m) == [|m.prefix| % 256, |m.prefix| / 256, |m.message| % 256, |m.message| / 256]
                           + m.prefix + [m.domain] + m.message
  {
    LeBytesTwo(|m.prefix|);
    LeBytesTwo(|m.message|);
  }

  /** Whatever the domain byte is: seven of them are accepted, every other one refused. */
  lemma DomainDecides(prefix: seq<byte>, domain: byte, message: seq<byte>, before: Fields)
    requires |prefix| < 0x1_0000 && |message| < 0x1_0000
    ensures ReadMsg([|prefix| % 256, |prefix| / 256, |message| % 256, |message| / 256]
                    + prefix + [domain] + message, before).0
         == if domain <= 4 || domain == 10 || domain == 11 then ParserOk else UnexpectedValue
  {
    var m := Msg(prefix, domain, message);
    MessageBytes(m);
    if domain <= 4 || domain == 10 || domain == 11 {
      ReadPrinted(m, before);
    } else {
      hide Le, LeBytes, ReadMsg;
      var s := PrintMsg(m);
      PrintedLengths(prefix, domain, message);
      UnlistedDomain(s, before, |prefix|);
    }
  }

  lemma PrintedLengths(prefix: seq<byte>, domain: byte, message: seq<byte>)
    requires |prefix| < 0x1_0000 && |message| < 0x1_0000
    ensures var s := PrintMsg(Msg(prefix, domain, message));
      |s| == 5 + |prefix| + |message| && Le(s[..2]) == |prefix| && s[4 + |prefix|] == domain
  {
    hide Le, LeBytes;
    LeBytesTwoBack(|prefix|);
    var m := Msg(prefix, domain, message);
    assert PrintMsg(m)[..2] == LeBytes(|prefix|, 2);
  }

  lemma UnlistedDomain(s: seq<byte>, before: Fields, n: nat)
    requires |s| >= 5 + n && Le(s[..2]) == n && !ListedDomain(s[4 + n])
    ensures ReadMsg(s, before).0 == UnexpectedValue
  {
    hide Le;
  }

  /** Cut short anywhere, or followed by anything, a message is refused for just that. */
  lemma CutOrExtended(m: Msg, before: Fields, k: nat, more: seq<byte>)
    requires MsgOk(m) && m.domain < 256
    ensures k < |PrintMsg(m)| ==> ReadMsg(PrintMsg(m)[..k], before).0 == UnexpectedBufferEnd
    ensures more != [] ==> ReadMsg(PrintMsg(m) + more, before).0 == UnexpectedUnparsedBytes
  {
    hide Le, PrintMsg;
    PrintedParts(m);
    var s := PrintMsg(m);
    if k < |s| && k >= 4 {
      assert s[..k][..2] == s[..2] && s[..k][2..4] == s[2..4];
    }
    assert (s + more)[..2] == s[..2] && (s + more)[2..4] == s[2..4];
  }

  /** Into a zeroed object: accepted and shown as m, whatever lies behind the upload, if and only
      if the buffer is the serialisation of m. */
  lemma ReadMsgIff(s: seq<byte>, m: Msg, tail: seq<byte>)
    ensures ReadMsg(s, ZERO_FIELDS).0 == ParserOk && Shows(s + tail, ReadMsg(s, ZERO_FIELDS).1, m)
       <==> MsgOk(m) && s == PrintMsg(m)
  {
    hide ReadMsg, PrintMsg, Shows;
    if MsgOk(m) && s == PrintMsg(m) {
      StaleFields(m, ZERO_FIELDS, tail);
      ReadPrinted(m, ZERO_FIELDS);
    }
    if ReadMsg(s, ZERO_FIELDS).0 == ParserOk && Shows(s + tail, ReadMsg(s, ZERO_FIELDS).1, m) {
      var sent := AcceptedIsPrinted(s, ZERO_FIELDS);
      StaleFields(sent, ZERO_FIELDS, tail);
      ShowsOne(s + tail, ReadMsg(s, ZERO_FIELDS).1, m, sent);
    }
  }

  lemma ShowsOne(storage: seq<byte>, f: Fields, m: Msg, n: Msg)
    requires Shows(storage, f, m) && Shows(storage, f, n)
    ensures m == n
  {
  }

  // ---------- Leftovers ----------

  /** An accepted message is shown as it was sent, which is how it is signed, if and only if no
      empty part meets a leftover place. */
  lemma StaleFields(m: Msg, before: Fields, tail: seq<byte>)
    requires MsgOk(m)
    ensures m.domain < 256
    ensures Shows(PrintMsg(m) + tail, ReadMsg(PrintMsg(m), before).1, m) <==>
      (m.prefix != [] || before.prefix.len == 0) && (m.message != [] || before.message.len == 0)
  {
    hide ReadMsg, PrintMsg, Le;
    ReadPrinted(m, before);
    PrintedParts(m);
    SlicesOf(PrintMsg(m), tail, 4, |m.prefix|);
    SlicesOf(PrintMsg(m), tail, 5 + |m.prefix|, |m.message|);
    assert PrintMsg(m)[5 + |m.prefix|..5 + |m.prefix| + |m.message|] == PrintMsg(m)[5 + |m.prefix|..];
  }

  lemma SlicesOf(s: seq<byte>, tail: seq<byte>, off: nat, len: nat)
    requires off + len <= |s|
    ensures (s + tail)[off..off + len] == s[off..off + len]
  {
  }

  /** What a leftover prefix of n bytes shows next to a message with an empty prefix: the domain
      byte of that very message, then its text, then what is left of earlier uploads. */
  lemma StalePrefix(m: Msg, before: Fields, tail: seq<byte>)
    requires MsgOk(m) && m.prefix == [] && before.prefix.off == 4 && before.prefix.len > 0
    ensures m.domain < 256
    ensures var behind, n := [m.domain] + m.message + tail, before.prefix.len;
      Shown(PrintMsg(m) + tail, ReadMsg(PrintMsg(m), before).1.prefix)
      == if n <= |behind| then Some(behind[..n]) else None
  {
    hide ReadMsg, PrintMsg, Le, Shown;
    ReadPrinted(m, before);
    PrintedParts(m);
    var storage, behind, n := PrintMsg(m) + tail, [m.domain] + m.message + tail, before.prefix.len;
    assert storage[4..] == behind;
    ShownBehind(storage, behind, 0, n);
  }

  /** What a leftover message shows next to an empty one: the same place of the new upload, or
      of earlier ones where that is shorter. */
  lemma StaleMessage(m: Msg, before: Fields, tail: seq<byte>)
    requires MsgOk(m) && m.message == [] && before.message.off >= 4 && before.message.len > 0
    ensures m.domain < 256
    ensures var behind, off, n := m.prefix + [m.domain] + tail, before.message.off - 4, before.message.len;
      Shown(PrintMsg(m) + tail, ReadMsg(PrintMsg(m), before).1.message)
      == if off + n <= |behind| then Some(behind[off..off + n]) else None
  {
    hide ReadMsg, PrintMsg, Le, Shown;
    ReadPrinted(m, before);
    PrintedParts(m);
    var storage := PrintMsg(m) + tail;
    var behind, off, n := m.prefix + [m.domain] + tail, before.message.off - 4, before.message.len;
    assert storage[4..] == behind;
    ShownBehind(storage, behind, off, n);
  }

  /** A place behind the two lengths. */
  lemma ShownBehind(storage: seq<byte>, behind: seq<byte>, off: nat, n: nat)
    requires |storage| >= 4 && storage[4..] == behind && n > 0
    ensures Shown(storage, Slice(4 + off, n)) == if off + n <= |behind| then Some(behind[off..off + n]) else None
  {
    if off + n <= |behind| {
      SliceOfDrop(storage, 4, off, n);
    }
  }

  lemma SliceOfDrop(s: seq<byte>, k: nat, off: nat, n: nat)
    requires k + off + n <= |s|
    ensures s[k..][off..off + n] == s[k + off..k + off + n]
  {
    var t := s[k..];
    var shown, part := t[off..off + n], s[k + off..k + off + n];
    forall i | 0 <= i < n
      ensures shown[i] == part[i]
    {
      assert t[off + i] == s[k + (off + i)];
    }
  }

  /** An upload that goes to the front of the storage, parsed as a message or not. */
  datatype Upload = Upload(bytes: seq<byte>, asMessage: bool)

  datatype Device = Device(storage: seq<byte>, fields: Fields)

  function Store(storage: seq<byte>, bytes: seq<byte>): seq<byte> {
    if |bytes| <= |storage| then bytes + storage[|bytes|..] else bytes
  }

  /** The device after some uploads. */
  function After(storage: seq<byte>, uploads: seq<Upload>): Device {
    if uploads == [] then Device(storage, ZERO_FIELDS)
    else
      var d, u := After(storage, uploads[..|uploads| - 1]), uploads[|uploads| - 1];
      Device(Store(d.storage, u.bytes), if u.asMessage then ReadMsg(u.bytes, d.fields).1 else d.fields)
  }

  /** In every run the places are those a prefix or message can have: never in the lengths. */
  lemma {:induction false} PlacesKept(storage: seq<byte>, uploads: seq<Upload>)
    ensures var f := After(storage, uploads).fields;
      (f.prefix.len > 0 ==> f.prefix.off == 4) && (f.message.len > 0 ==> f.message.off >= 5)
  {
    hide Le, ListedDomain;
    if uploads != [] {
      PlacesKept(storage, uploads[..|uploads| - 1]);
    }
  }

  /** Over every run: the next message, if it is accepted, is shown as it was sent and signed if
      and only if it has no empty part whose field an earlier upload, accepted or refused, has
      set; a stale prefix then starts with the domain byte of the message itself. */
  lemma ShownAfterRun(storage: seq<byte>, uploads: seq<Upload>, m: Msg)
    requires MsgOk(m)
    ensures m.domain < 256
    ensures var d := After(storage, uploads);
      var d' := After(storage, uploads + [Upload(PrintMsg(m), true)]);
      && (Shows(d'.storage, d'.fields, m) <==>
          (m.prefix != [] || d.fields.prefix.len == 0) && (m.message != [] || d.fields.message.len == 0))
      && (m.prefix == [] && d.fields.prefix.len > 0 && Shown(d'.storage, d'.fields.prefix).Some? ==>
          [m.domain] <= Shown(d'.storage, d'.fields.prefix).value)
  {
    hide ReadMsg, PrintMsg, Shows, MsgOk, Shown;
    DomainOf(m);
    var d, u := After(storage, uploads), Upload(PrintMsg(m), true);
    AfterOneMore(storage, uploads, u);
    var tail := if |u.bytes| <= |d.storage| then d.storage[|u.bytes|..] else [];
    assert Store(d.storage, u.bytes) == u.bytes + tail;
    StaleFields(m, d.fields, tail);
    PlacesKept(storage, uploads);
    if m.prefix == [] && d.fields.prefix.len > 0 {
      StalePrefix(m, d.fields, tail);
    }
  }

  lemma DomainOf(m: Msg)
    requires MsgOk(m)
    ensures m.domain < 256
  {
  }

  /** A refused upload sets the prefix all the same, and may set it past its own end. */
  lemma RefusedLeavesPrefix(s: seq<byte>, before: Fields)
    requires 4 < |s| < 4 + Le(s[..2])
    ensures ReadMsg(s, before) == (UnexpectedBufferEnd, before.(prefix := Slice(4, Le(s[..2]))))
  {
  }

  /** Two messages in a row: the second one, with an empty prefix, shows its own domain byte as
      the prefix. */
  lemma StaleExample(tail: seq<byte>)
    ensures var first, second := Msg([65], 0, [66]), Msg([], 0, [67]);
      var d := After(PrintMsg(first) + tail, [Upload(PrintMsg(first), true), Upload(PrintMsg(second), true)]);
      && PrintMsg(first) == [1, 0, 1, 0, 65, 0, 66] && PrintMsg(second) == [0, 0, 1, 0, 0, 67]
      && Shows(d.storage, d.fields, Msg([0], 0, [67]))
  {
    hide After, ReadMsg;
    var first, second := Msg([65], 0, [66]), Msg([], 0, [67]);
    PrintSmall(first);
    PrintSmall(second);
    TwoUploads(first, second, tail);
    hide *;
    var rest := (PrintMsg(first) + tail)[6..];
    PlaceShown([0, 0, 1, 0, 0, 67] + rest, [0, 0, 1, 0], [0], [67] + rest);
    PlaceShown([0, 0, 1, 0, 0, 67] + rest, [0, 0, 1, 0, 0], [67], rest);
    ShowsBoth([0, 0, 1, 0, 0, 67] + rest, Fields(Slice(4, 1), 0, Slice(5, 1)), Msg([0], 0, [67]));
  }

  /** After a longer prefix it shows its text too, and bytes of the first upload behind its end. */
  lemma StaleExamplePastTheEnd(tail: seq<byte>)
    ensures var first, second := Msg([65, 65, 65, 65], 0, [66]), Msg([], 0, [67]);
      var d := After(PrintMsg(first) + tail, [Upload(PrintMsg(first), true), Upload(PrintMsg(second), true)]);
      && PrintMsg(first) == [4, 0, 1, 0, 65, 65, 65, 65, 0, 66] && PrintMsg(second) == [0, 0, 1, 0, 0, 67]
      && Shows(d.storage, d.fields, Msg([0, 67, 65, 65], 0, [67]))
  {
    hide After, ReadMsg;
    var first, second := Msg([65, 65, 65, 65], 0, [66]), Msg([], 0, [67]);
    PrintSmall(first);
    PrintSmall(second);
    TwoUploads(first, second, tail);
    hide *;
    var rest := (PrintMsg(first) + tail)[6..];
    assert rest == [65, 65] + ([0, 66] + tail);
    PlaceShown([0, 0, 1, 0, 0, 67] + rest, [0, 0, 1, 0], [0, 67, 65, 65], [0, 66] + tail);
    PlaceShown([0, 0, 1, 0, 0, 67] + rest, [0, 0, 1, 0, 0], [67], rest);
    ShowsBoth([0, 0, 1, 0, 0, 67] + rest, Fields(Slice(4, 4), 0, Slice(5, 1)), Msg([0, 67, 65, 65], 0, [67]));
  }

  lemma PlaceShown(storage: seq<byte>, front: seq<byte>, part: seq<byte>, rest: seq<byte>)
    requires storage == front + part + rest
    ensures Shown(storage, Slice(|front|, |part|)) == Some(part)
  {
  }

  lemma ShowsBoth(storage: seq<byte>, f: Fields, m: Msg)
    requires Shown(storage, f.prefix) == Some(m.prefix) && f.domain == m.domain
    requires Shown(storage, f.message) == Some(m.message)
    ensures Shows(storage, f, m)
  {
  }

  lemma PrintSmall(m: Msg)
    requires |m.prefix| < 256 && |m.message| < 256 && m.domain < 256
    ensures PrintMsg(m) == [|m.prefix|, 0, |m.message|, 0] + m.prefix + [m.domain] + m.message
  {
    LeBytesTwo(|m.prefix|);
    LeBytesTwo(|m.message|);
  }

  lemma AfterOneMore(storage: seq<byte>, uploads: seq<Upload>, u: Upload)
    ensures var d := After(storage, uploads);
      After(storage, uploads + [u])
      == Device(Store(d.storage, u.bytes), if u.asMessage then ReadMsg(u.bytes, d.fields).1 else d.fields)
  {
    hide ReadMsg, Store;
    assert (uploads + [u])[..|uploads|] == uploads;
  }

  lemma TwoUploads(a: Msg, b: Msg, tail: seq<byte>)
    requires MsgOk(a) && MsgOk(b) && a.prefix != [] && a.message != [] && b.prefix == [] && b.message != []
    requires b.domain < 256 && a.domain < 256 && |PrintMsg(b)| <= |PrintMsg(a)|
    ensures var s := PrintMsg(a) + tail;
      After(s, [Upload(PrintMsg(a), true), Upload(PrintMsg(b), true)])
      == Device(PrintMsg(b) + s[|PrintMsg(b)|..], Fields(Slice(4, |a.prefix|), b.domain, Slice(5, |b.message|)))
  {
    hide *;
    var p, q := PrintMsg(a), PrintMsg(b);
    AfterTwo(p + tail, p, q);
    ReadPrinted(a, ZERO_FIELDS);
    ReadPrinted(b, ReadMsg(p, ZERO_FIELDS).1);
    StoredAlready(p, tail);
    StoredOver(p + tail, q);
  }

  lemma AfterTwo(storage: seq<byte>, p: seq<byte>, q: seq<byte>)
    ensures After(storage, [Upload(p, true), Upload(q, true)])
         == Device(Store(Store(storage, p), q), ReadMsg(q, ReadMsg(p, ZERO_FIELDS).1).1)
  {
    hide *;
    var u, v := Upload(p, true), Upload(q, true);
    AfterNone(storage);
    AfterOneMore(storage, [], u);
    AfterOneMore(storage, [u], v);
    assert [] + [u] == [u] && [u] + [v] == [u, v];
  }

  lemma StoredAlready(a: seq<byte>, tail: seq<byte>)
    ensures Store(a + tail, a) == a + tail
  {
  }

  lemma StoredOver(storage: seq<byte>, b: seq<byte>)
    requires |b| <= |storage|
    ensures Store(storage, b) == b + storage[|b|..]
  {
  }

  lemma AfterNone(storage: seq<byte>)
    ensures After(storage, []) == Device(storage, ZERO_FIELDS)
  {
  }

  /** What is signed after an accepted parse is prefix, domain byte and message as they were sent. */
  lemma SignedBytes(s: seq<byte>, before: Fields) returns (m: Msg)
    requires ReadMsg(s, before).0 == ParserOk
    ensures MsgOk(m) && s == PrintMsg(m) && |s| > 4 == PARSER_MESSAGE_PREFIX_LEN + PARSER_MESSAGE_MESSAGE_LEN
    ensures s[4..] == m.prefix + [m.domain] + m.message
  {
    hide ReadMsg, PrintMsg, MsgOk;
    m := AcceptedIsPrinted(s, before);
    PrintedParts(m);
    DomainOf(m);
  }

  // ---------- The parser as it runs ----------

  /** The little-endian readers: one byte at a time; on a short buffer the offset stops at the end. */
  method ReadUInt(ctx: ParserContext, n: nat) returns (e: ParserError, value: nat)
    requires ctx.Valid()
    modifies ctx
    ensures ctx.Valid() && old(ctx.offset) <= ctx.offset
    ensures Agrees(TakeUInt(old(ctx.Rest()), n), e, value, ctx.Rest())
  {
    hide Le;
    value := 0;
    var scale: nat := 1;
    var i := 0;
    ghost var start := ctx.offset;
    LeEmpty();
    assert ctx.buffer[start..start] == [];
    while i < n
      invariant i <= n && ctx.Valid() && ctx.offset == start + i
      invariant scale == Shift(i) && value == Le(ctx.buffer[start..ctx.offset])
    {
      if ctx.offset >= |ctx.buffer| {
        return UnexpectedBufferEnd, value;
      }
      ghost var before := ctx.buffer[start..ctx.offset];
      LeAppend(before, ctx.buffer[ctx.offset]);
      value := value + ctx.buffer[ctx.offset] * scale;
      scale := scale * 256;
      i := i + 1;
      ctx.offset := ctx.offset + 1;
      assert ctx.buffer[start..ctx.offset] == before + [ctx.buffer[ctx.offset - 1]];
    }
    assert old(ctx.Rest())[..n] == ctx.buffer[start..ctx.offset] && old(ctx.Rest())[n..] == ctx.Rest();
    e := ParserOk;
  }

  /** The factor by which byte i of a number counts. */
  ghost function Shift(i: nat): nat {
    if i == 0 then 1 else 256 * Shift(i - 1)
  }

  lemma {:induction false} LeAppend(bytes: seq<byte>, b: byte)
    ensures Le(bytes + [b]) == Le(bytes) + b as int * Shift(|bytes|)
  {
    if bytes == [] {
      assert bytes + [b] == [b] + [];
      LeUnfold(b, []);
    } else {
      var rest := bytes[1..];
      assert bytes == [bytes[0]] + rest && bytes + [b] == [bytes[0]] + (rest + [b]);
      LeUnfold(bytes[0], rest);
      LeUnfold(bytes[0], rest + [b]);
      LeAppend(rest, b);
      MulOut(b, Shift(|rest|));
    }
  }

  lemma MulOut(b: nat, s: nat)
    ensures 256 * (b * s) == b * (256 * s)
  {
  }

  class MessageObject {
    var domain: nat
    var prefix: Slice
    var message: Slice

    constructor ()
      ensures Value() == ZERO_FIELDS
    {
      domain, prefix, message := 0, Slice(0, 0), Slice(0, 0);
    }

    function Value(): Fields
      reads this
    {
      Fields(prefix, domain, message)
    }
  }

  /** readFixedArray into a field of the object, when there is something to read. */
  method ReadSlice(ctx: ParserContext, size: nat, before: Slice) returns (e: ParserError, field: Slice)
    requires ctx.Valid()
    modifies ctx
    ensures ctx.Valid() && old(ctx.offset) <= ctx.offset
    ensures Part(e, field, ctx.offset) == ReadPart(ctx.buffer, old(ctx.offset), size, before)
  {
    field := before;
    if size > 0 {
      if ctx.offset + 1 > |ctx.buffer| {
        return UnexpectedBufferEnd, field;
      }
      field := Slice(ctx.offset, size);
      if ctx.offset + size > |ctx.buffer| {
        return UnexpectedBufferEnd, field;
      }
      ctx.offset := ctx.offset + size;
    }
    e := ParserOk;
  }

  /** _readDomain: the byte is stored before it is looked at. */
  method ReadDomain(ctx: ParserContext, v: MessageObject) returns (e: ParserError)
    requires ctx.Valid()
    modifies ctx, v`domain
    ensures ctx.Valid() && old(ctx.offset) <= ctx.offset
    ensures var at := old(ctx.offset);
      if at >= |ctx.buffer| then e == UnexpectedBufferEnd && v.domain == old(v.domain)
      else v.domain == ctx.buffer[at] as nat && ctx.offset == at + 1
           && e == if ListedDomain(ctx.buffer[at]) then ParserOk else UnexpectedValue
  {
    hide Le;
    if ctx.offset + 1 > |ctx.buffer| {
      return UnexpectedBufferEnd;
    }
    LeOne(ctx.Rest()[..1]);
    e, v.domain := ReadUInt(ctx, 1);
    if v.domain !in {0, 1, 2, 3, 4, 10, 11} {
      e := UnexpectedValue;
    }
  }

  lemma LeOne(s: seq<byte>)
    requires |s| == 1
    ensures Le(s) == s[0]
  {
  }

  lemma SameRest(s: seq<byte>, a: nat, b: nat)
    requires a <= |s| && b <= |s| && s[a..] == s[b..]
    ensures a == b
  {
  }

  /** The two lengths. */
  method ReadLengths(ctx: ParserContext) returns (e: ParserError, prefixLen: nat, messageLen: nat)
    requires ctx.Valid() && ctx.offset == 0
    modifies ctx
    ensures ctx.Valid()
    ensures if |ctx.buffer| < 4 then e == UnexpectedBufferEnd
      else e == ParserOk && ctx.offset == 4 && prefixLen == Le(ctx.buffer[..2]) && messageLen == Le(ctx.buffer[2..4])
  {
    hide Le;
    messageLen := 0;
    assert ctx.Rest() == ctx.buffer;
    e, prefixLen := ReadUInt(ctx, 2);
    if e == ParserOk {
      SameRest(ctx.buffer, ctx.offset, 2);
      e, messageLen := ReadUInt(ctx, 2);
      if e == ParserOk {
        assert ctx.buffer[2..][2..] == ctx.buffer[4..] && ctx.buffer[2..][..2] == ctx.buffer[2..4];
        SameRest(ctx.buffer, ctx.offset, 4);
      }
    }
  }

  /** parser_message_read: fills the object; an empty prefix or message leaves its field alone,
      and what a refused parse has stored stays. */
  method ReadMessage(ctx: ParserContext, v: MessageObject) returns (e: ParserError)
    requires ctx.Valid() && ctx.offset == 0
    modifies ctx, v
    ensures ctx.Valid()
    ensures (e, v.Value()) == ReadMsg(ctx.buffer, old(v.Value()))
  {
    hide Le, ListedDomain;
    var prefixLen, messageLen;
    e, prefixLen, messageLen := ReadLengths(ctx);
    if e != ParserOk { return; }
    e, v.prefix := ReadSlice(ctx, prefixLen, v.prefix);
    if e != ParserOk { return; }
    e := ReadDomain(ctx, v);
    if e != ParserOk { return; }
    e, v.message := ReadSlice(ctx, messageLen, v.message);
    if e != ParserOk { return; }
    if ctx.offset != |ctx.buffer| {
      return UnexpectedUnparsedBytes;
    }
  }

  /** parser_message_parse: the empty message is refused before anything is read. */
  method ParseMessage(data: seq<byte>, v: MessageObject) returns (e: ParserError)
    requires |data| < 0x1_0000
    modifies v
    ensures data == [] ==> e == InitContextEmpty && v.Value() == old(v.Value())
    ensures data != [] ==> (e, v.Value()) == ReadMsg(data, old(v.Value()))
  {
    hide ReadMsg;
    if data == [] {
      return InitContextEmpty;
    }
    var ctx := new ParserContext(data);
    e := ReadMessage(ctx, v);
  }
}
