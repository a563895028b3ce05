/** Chunked uploads as a step system over received commands, and what every run keeps. */
module ApduSpec {
  import opened Bytes

  const CLA: byte := 0x45
  const APDU_MIN_LENGTH: nat := 5
  const OFFSET_DATA: nat := 5
  const HDPATH_BYTES: nat := 20

  const INS_GET_VERSION: byte := 0
  const INS_GET_ADDR: byte := 1
  const INS_SIGN: byte := 2
  const INS_SIGN_MESSAGE: byte := 6

  const P1_INIT: byte := 0
  const P1_ADD: byte := 1
  const P1_LAST: byte := 2

  const HDPATH_0_DEFAULT: nat := 0x8000_002c
  const HDPATH_1_DEFAULT: nat := 0x8000_021c
  const HDPATH_1_TESTNET: nat := 0x8000_0001

  /** A received command, with what the surroundings contribute: whether the device is locked,
      how many bytes the buffering library takes of an appended chunk, and the byte the exchange
      before left at the front of the buffer. */
  datatype Event = Event(apdu: seq<byte>, locked: bool, room: nat, stale: byte) {
    /** The class byte is looked at before the length is: an empty command has a stale one. */
    function ClassByte(): byte {
      if apdu == [] then stale else apdu[0]
    }

    function Data(): seq<byte> {
      if |apdu| < OFFSET_DATA then [] else apdu[OFFSET_DATA..]
    }

    /** Bytes the append takes: a prefix of the data. */
    function Taken(): (n: nat)
      ensures n <= |Data()|
    {
      if room <= |Data()| then room else |Data()|
    }
  }

  datatype Status =
    | Ok | WrongLength | DataInvalid | TxNotInitialized | OutputBufferTooSmall | InvalidP1P2
    | ClaNotSupported | InsNotSupported | Locked

  /** A status thrown to the command loop, or a complete upload handed on to its parser. */
  datatype Reply = Thrown(status: Status) | Uploaded(ins: byte, path: seq<nat>, data: seq<byte>)

  /** The handler's static state and the upload buffer. */
  datatype State = State(txInitialized: bool, hdPath: seq<nat>, buffer: seq<byte>)

  const INITIAL: State := State(false, [0, 0, 0, 0, 0], [])

  function PathOf(d: seq<byte>): (p: seq<nat>)
    requires |d| == HDPATH_BYTES
    ensures |p| == 5
  {
    [Le(d[..4]), Le(d[4..8]), Le(d[8..12]), Le(d[12..16]), Le(d[16..20])]
  }

  predicate ValidPath(p: seq<nat>) {
    |p| == 5 && p[0] == HDPATH_0_DEFAULT && p[1] in {HDPATH_1_DEFAULT, HDPATH_1_TESTNET}
  }

  /** The path is the 20 bytes as five numbers, in order, least significant byte first. */
  predicate IsPath(p: seq<nat>, d: seq<byte>) {
    && |p| == 5 && |d| == 20
    && p[0] == d[0] as int + 0x100 * d[1] as int + 0x1_0000 * d[2] as int + 0x100_0000 * d[3] as int
    && p[1] == d[4] as int + 0x100 * d[5] as int + 0x1_0000 * d[6] as int + 0x100_0000 * d[7] as int
    && p[2] == d[8] as int + 0x100 * d[9] as int + 0x1_0000 * d[10] as int + 0x100_0000 * d[11] as int
    && p[3] == d[12] as int + 0x100 * d[13] as int + 0x1_0000 * d[14] as int + 0x100_0000 * d[15] as int
    && p[4] == d[16] as int + 0x100 * d[17] as int + 0x1_0000 * d[18] as int + 0x100_0000 * d[19] as int
  }

  lemma PathWords(d: seq<byte>)
    requires |d| == 20
    ensures IsPath(PathOf(d), d)
  {
    hide Le;
    LeFour(d[..4]);
    LeFour(d[4..8]);
    LeFour(d[8..12]);
    LeFour(d[12..16]);
    LeFour(d[16..20]);
  }

  /** The paths that are accepted, by their first eight bytes: 44' and 540' on mainnet, or 44' and
      1' on testnet. */
  predicate PathBytes(d: seq<byte>) {
    && |d| == 20 && d[..4] == [0x2c, 0, 0, 0x80]
    && (d[4..8] == [0x1c, 2, 0, 0x80] || d[4..8] == [1, 0, 0, 0x80])
  }

  lemma ExtractOkIff(d: seq<byte>)
    ensures ExtractOk(d) <==> PathBytes(d)
  {
    hide PathOf, PathBytes;
    if |d| == 20 {
      PathWords(d);
      Word44(d[0], d[1], d[2], d[3]);
      Word540(d[4], d[5], d[6], d[7]);
      PathBytesAt(d);
    } else {
      PathBytesLength(d);
    }
  }

  lemma PathBytesLength(d: seq<byte>)
    requires |d| != 20
    ensures !PathBytes(d)
  {
  }

  lemma PathBytesAt(d: seq<byte>)
    requires |d| == 20
    ensures PathBytes(d) <==>
      d[0] == 0x2c && d[1] == 0 && d[2] == 0 && d[3] == 0x80
      && ((d[4] == 0x1c && d[5] == 2 && d[6] == 0 && d[7] == 0x80) || (d[4] == 1 && d[5] == 0 && d[6] == 0 && d[7] == 0x80))
  {
    assert d[..4] == [d[0], d[1], d[2], d[3]] && d[4..8] == [d[4], d[5], d[6], d[7]];
  }

  lemma Word44(a: byte, b: byte, c: byte, d: byte)
    ensures a as int + 0x100 * b as int + 0x1_0000 * c as int + 0x100_0000 * d as int == HDPATH_0_DEFAULT
       <==> a == 0x2c && b == 0 && c == 0 && d == 0x80
  {
  }

  lemma Word540(a: byte, b: byte, c: byte, d: byte)
    ensures a as int + 0x100 * b as int + 0x1_0000 * c as int + 0x100_0000 * d as int == HDPATH_1_DEFAULT
       <==> a == 0x1c && b == 2 && c == 0 && d == 0x80
    ensures a as int + 0x100 * b as int + 0x1_0000 * c as int + 0x100_0000 * d as int == HDPATH_1_TESTNET
       <==> a == 1 && b == 0 && c == 0 && d == 0x80
  {
  }

  /** What a command asks for, as far as uploads are concerned. */
  datatype Request = Other | Init | Add | Last | GetAddr

  function RequestOf(e: Event): Request {
    if |e.apdu| < APDU_MIN_LENGTH || e.apdu[0] != CLA || e.locked then Other
    else if e.apdu[1] == INS_GET_ADDR then GetAddr
    else if INS_SIGN <= e.apdu[1] <= INS_SIGN_MESSAGE then
      if e.apdu[2] == P1_INIT then Init
      else if e.apdu[2] == P1_ADD then Add
      else if e.apdu[2] == P1_LAST then Last
      else Other
    else Other
  }

  /** The commands in bytes: class 0x45 and at least five bytes, instruction 1 for an address, 2 to 6
      for uploads, and for these 0, 1 and 2 in the third byte to begin, go on and end. */
  lemma RequestBytes(e: Event)
    ensures RequestOf(e) == GetAddr <==> |e.apdu| >= 5 && e.apdu[0] == 0x45 && !e.locked && e.apdu[1] == 1
    ensures RequestOf(e) == Init <==>
      |e.apdu| >= 5 && e.apdu[0] == 0x45 && !e.locked && 2 <= e.apdu[1] <= 6 && e.apdu[2] == 0
    ensures RequestOf(e) == Add <==>
      |e.apdu| >= 5 && e.apdu[0] == 0x45 && !e.locked && 2 <= e.apdu[1] <= 6 && e.apdu[2] == 1
    ensures RequestOf(e) == Last <==>
      |e.apdu| >= 5 && e.apdu[0] == 0x45 && !e.locked && 2 <= e.apdu[1] <= 6 && e.apdu[2] == 2
    ensures |e.apdu| >= 5 ==> e.Data() == e.apdu[5..]
  {
  }

  /** extractHDPath: the path is overwritten before it is checked. */
  function Extract(s: State, d: seq<byte>): State {
    if |d| != HDPATH_BYTES then s.(txInitialized := false)
    else s.(txInitialized := false, hdPath := PathOf(d))
  }

  predicate ExtractOk(d: seq<byte>) {
    |d| == HDPATH_BYTES && ValidPath(PathOf(d))
  }

  function Step(s: State, e: Event): State {
    match RequestOf(e)
    case Other => s
    case GetAddr => Extract(s, e.Data())
    case Init => Extract(s.(buffer := []), e.Data()).(txInitialized := ExtractOk(e.Data()))
    case Add =>
      if !s.txInitialized then s
      else State(e.Taken() == |e.Data()|, s.hdPath, s.buffer + e.Data()[..e.Taken()])
    case Last =>
      if !s.txInitialized then s
      else State(false, s.hdPath, s.buffer + e.Data()[..e.Taken()])
  }

  /** process_chunk returns true: the upload is complete and goes to the parser. */
  predicate Completes(s: State, e: Event) {
    RequestOf(e) == Last && s.txInitialized && e.Taken() == |e.Data()|
  }

  function Run(es: seq<Event>): State {
    if es == [] then INITIAL else Step(Run(es[..|es| - 1]), es[|es| - 1])
  }

  // ---------- What happened since the last INIT ----------

  /** A command that leaves an upload in progress: a chunk that was taken whole, or nothing to
      do with uploads. */
  predicate Continues(e: Event) {
    RequestOf(e) == Other || (RequestOf(e) == Add && e.Taken() == |e.Data()|)
  }

  /** The data of the chunks added by some commands, in order. */
  function ChunkData(es: seq<Event>): seq<byte> {
    if es == [] then []
    else
      var e := es[|es| - 1];
      ChunkData(es[..|es| - 1]) + (if RequestOf(e) == Add then e.Data() else [])
  }

  /** es[k] is an INIT with a valid path and nothing since has ended its upload. */
  predicate OpenedAt(es: seq<Event>, k: nat) {
    && k < |es| && RequestOf(es[k]) == Init && ExtractOk(es[k].Data())
    && forall j :: k < j < |es| ==> Continues(es[j])
  }

  lemma OpenedAtGrows(es: seq<Event>, k: nat)
    requires 0 < |es|
    ensures var last := |es| - 1;
      OpenedAt(es, k) <==>
        (k == last && RequestOf(es[k]) == Init && ExtractOk(es[k].Data()))
        || (k < last && OpenedAt(es[..last], k) && Continues(es[last]))
  {
  }

  /** In every run: an upload opened at k is in progress, on the path of that INIT, and the
      buffer is the data of all chunks since, in order. */
  lemma {:induction false} OpenUpload(es: seq<Event>, k: nat)
    requires OpenedAt(es, k)
    ensures Run(es).txInitialized && ValidPath(Run(es).hdPath)
    ensures |es[k].Data()| == HDPATH_BYTES && Run(es).hdPath == PathOf(es[k].Data())
    ensures IsPath(Run(es).hdPath, es[k].Data()) && PathBytes(es[k].Data())
    ensures Run(es).buffer == ChunkData(es[k + 1..])
    decreases |es|
  {
    hide PathOf, ValidPath, OpenedAt, IsPath, PathBytes;
    var last := |es| - 1;
    assert k < |es| by { OpenedAtWithin(es, k); }
    OpenedAtGrows(es, k);
    if k == last {
      ExtractOkIff(es[k].Data());
      PathWords(es[k].Data());
    }
    if k < last {
      OpenUpload(es[..last], k);
      assert es[..last][k] == es[k];
      assert es[k + 1..][..last - k - 1] == es[..last][k + 1..];
    }
  }

  lemma OpenedAtWithin(es: seq<Event>, k: nat)
    requires OpenedAt(es, k)
    ensures k < |es|
  {
  }

  lemma {:induction false} InitializedWasOpened(es: seq<Event>) returns (k: nat)
    requires Run(es).txInitialized
    ensures OpenedAt(es, k)
    decreases |es|
  {
    hide PathOf, ExtractOk, OpenedAt;
    var last := |es| - 1;
    var s := Run(es[..last]);
    if RequestOf(es[last]) == Init {
      k := last;
    } else {
      k := InitializedWasOpened(es[..last]);
      OpenedAtWithin(es[..last], k);
    }
    OpenedAtGrows(es, k);
  }

  /** Over every run: an upload is in progress if and only if some INIT with a valid path was
      not followed by anything that ends its upload. */
  lemma InitializedIff(es: seq<Event>)
    ensures Run(es).txInitialized <==> exists k :: OpenedAt(es, k)
  {
    hide Run, OpenedAt;
    if Run(es).txInitialized {
      var k := InitializedWasOpened(es);
    }
    if k :| OpenedAt(es, k) {
      OpenUpload(es, k);
    }
  }

  /** Over every run: a complete upload is exactly the data sent since the most recent INIT, in
      order, on the path of that INIT, which is a mainnet or testnet path. */
  lemma CompleteUpload(es: seq<Event>, e: Event) returns (k: nat)
    requires Completes(Run(es), e)
    ensures OpenedAt(es, k) && k < |es| && |es[k].Data()| == HDPATH_BYTES
    ensures forall j :: k < j < |es| ==> RequestOf(es[j]) != Init
    ensures Step(Run(es), e).buffer == ChunkData(es[k + 1..]) + e.Data()
    ensures Step(Run(es), e).hdPath == PathOf(es[k].Data()) && ValidPath(PathOf(es[k].Data()))
    ensures IsPath(Step(Run(es), e).hdPath, es[k].Data()) && PathBytes(es[k].Data())
    ensures !Step(Run(es), e).txInitialized
  {
    hide Run, ChunkData, PathOf, ValidPath, IsPath, PathBytes;
    k := InitializedWasOpened(es);
    OpenUpload(es, k);
    assert e.Data()[..e.Taken()] == e.Data();
  }

  /** A chunk that was not taken whole, an address request or a finished upload ends the upload
      for good: nothing completes afterwards without a new INIT. */
  lemma EndedUploadsStayEnded(es: seq<Event>, j: nat, e: Event) returns (k: nat)
    requires j < |es| && !Continues(es[j]) && RequestOf(es[j]) != Init
    requires Completes(Run(es), e)
    ensures j < k < |es| && RequestOf(es[k]) == Init
  {
    hide Run, Continues, RequestOf;
    k := InitializedWasOpened(es);
  }
}
