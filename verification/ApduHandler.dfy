/** The command handler: static upload state, changed command by command. */
module ApduHandler {
  import opened Bytes
  import opened Errors
  import opened ApduSpec

  function PathStatus(d: seq<byte>): Status {
    if ExtractOk(d) then Ok else if |d| != HDPATH_BYTES then WrongLength else DataInvalid
  }

  /** The status of an upload command that does not complete. */
  function UploadStatus(s: State, e: Event): Status {
    match RequestOf(e)
    case Init => PathStatus(e.Data())
    case Add => if !s.txInitialized then TxNotInitialized else if e.Taken() < |e.Data()| then OutputBufferTooSmall else Ok
    case Last => if !s.txInitialized then TxNotInitialized else OutputBufferTooSmall
    case GetAddr => PathStatus(e.Data())
    case Other => InvalidP1P2
  }

  /** The status thrown for a command: class first, then length, instruction, lock, and what
      the command itself finds. */
  function StatusOf(s: State, e: Event): Status {
    if e.ClassByte() != CLA then ClaNotSupported
    else if |e.apdu| < APDU_MIN_LENGTH then WrongLength
    else if e.apdu[1] == INS_GET_VERSION then Ok
    else if e.apdu[1] > INS_SIGN_MESSAGE then InsNotSupported
    else if e.locked then Locked
    else UploadStatus(s, e)
  }

  /** The statuses in bytes, in the order in which they are found: class, length, version, unknown
      instruction, lock, and then the command itself. */
  lemma Statuses(s: State, e: Event)
    ensures e.apdu == [] ==> StatusOf(s, e) == if e.stale != 0x45 then ClaNotSupported else WrongLength
    ensures e.apdu != [] && e.apdu[0] != 0x45 ==> StatusOf(s, e) == ClaNotSupported
    ensures e.apdu != [] && e.apdu[0] == 0x45 && |e.apdu| < 5 ==> StatusOf(s, e) == WrongLength
    ensures |e.apdu| >= 5 && e.apdu[0] == 0x45 && e.apdu[1] == 0 ==> StatusOf(s, e) == Ok
    ensures |e.apdu| >= 5 && e.apdu[0] == 0x45 && e.apdu[1] > 6 ==> StatusOf(s, e) == InsNotSupported
    ensures |e.apdu| >= 5 && e.apdu[0] == 0x45 && 1 <= e.apdu[1] <= 6 && e.locked ==> StatusOf(s, e) == Locked
    ensures |e.apdu| >= 5 && e.apdu[0] == 0x45 && 2 <= e.apdu[1] <= 6 && !e.locked ==>
      (e.apdu[2] in {1, 2} && !s.txInitialized ==> StatusOf(s, e) == TxNotInitialized)
      && (e.apdu[2] > 2 ==> StatusOf(s, e) == InvalidP1P2)
      && (e.apdu[2] in {1, 2} && s.txInitialized && e.room < |e.apdu| - 5 ==> StatusOf(s, e) == OutputBufferTooSmall)
      && (e.apdu[2] == 1 && s.txInitialized && e.room >= |e.apdu| - 5 ==> StatusOf(s, e) == Ok)
      && (e.apdu[2] == 2 ==> (Completes(s, e) <==> s.txInitialized && e.room >= |e.apdu| - 5))
    ensures |e.apdu| >= 5 && e.apdu[0] == 0x45 && !e.locked && (e.apdu[1] == 1 || (2 <= e.apdu[1] <= 6 && e.apdu[2] == 0)) ==>
      StatusOf(s, e) == if PathBytes(e.Data()) then Ok else if |e.Data()| != 20 then WrongLength else DataInvalid
  {
    hide ExtractOk, PathBytes;
    ExtractOkIff(e.Data());
  }

  /** What a command is answered with: a completed upload under the instruction of this very
      command, else a status. */
  function ReplyTo(s: State, e: Event): Reply {
    if Completes(s, e) then Uploaded(e.apdu[1], Step(s, e).hdPath, Step(s, e).buffer)
    else Thrown(StatusOf(s, e))
  }

  class Handler {
    var txInitialized: bool
    var requireConfirmation: bool
    var hdPath: seq<nat>
    var buffer: seq<byte>

    constructor ()
      ensures View() == INITIAL
    {
      txInitialized, requireConfirmation, hdPath, buffer := false, false, [0, 0, 0, 0, 0], [];
    }

    function View(): State
      reads this
    {
      State(txInitialized, hdPath, buffer)
    }

    /** extractHDPath: None if it returns, else the status it throws. */
    method ExtractHDPath(d: seq<byte>) returns (thrown: Option<Status>)
      modifies `txInitialized, `hdPath
      ensures View() == Extract(old(View()), d)
      ensures thrown == None <==> ExtractOk(d)
      ensures thrown == None <==> PathBytes(d)
      ensures |d| == 20 ==> IsPath(hdPath, d)
      ensures thrown.Some? ==> thrown.value == if |d| != HDPATH_BYTES then WrongLength else DataInvalid
    {
      hide PathOf, PathBytes, IsPath;
      txInitialized := false;
      ExtractOkIff(d);
      if |d| != HDPATH_BYTES {
        return Some(WrongLength);
      }
      hdPath := PathOf(d);
      PathWords(d);
      var mainnet := hdPath[0] == HDPATH_0_DEFAULT && hdPath[1] == HDPATH_1_DEFAULT;
      var testnet := hdPath[0] == HDPATH_0_DEFAULT && hdPath[1] == HDPATH_1_TESTNET;
      thrown := if !mainnet && !testnet then Some(DataInvalid) else None;
    }

    /** tx_append takes some first bytes of the data and says how many. */
    method Append(e: Event) returns (added: nat)
      modifies `buffer
      ensures added == e.Taken() && buffer == old(buffer) + e.Data()[..added]
    {
      added := e.Taken();
      buffer := buffer + e.Data()[..added];
    }

    /** process_chunk: the upload when it is complete, else the status thrown. */
    method ProcessChunk(e: Event) returns (r: Reply)
      requires |e.apdu| >= APDU_MIN_LENGTH && e.apdu[0] == CLA && !e.locked && INS_SIGN <= e.apdu[1] <= INS_SIGN_MESSAGE
      modifies this
      ensures View() == Step(old(View()), e)
      ensures r.Uploaded? <==> Completes(old(View()), e)
      ensures r.Uploaded? ==> r == Uploaded(e.apdu[1], hdPath, buffer)
      ensures r.Thrown? ==> r.status == UploadStatus(old(View()), e)
      ensures requireConfirmation ==
        if RequestOf(e) == Init && ExtractOk(e.Data()) then e.apdu[2] != 0 else old(requireConfirmation)
    {
      hide Extract, ExtractOk;
      var payloadType := e.apdu[2];
      if payloadType == P1_INIT {
        buffer := [];
        var thrown := ExtractHDPath(e.Data());
        ExtractKeepsBuffer(old(View()), e.Data());
        if thrown.Some? {
          return Thrown(thrown.value);
        }
        requireConfirmation := e.apdu[2] != 0;
        txInitialized := true;
        return Thrown(Ok);
      } else if payloadType == P1_ADD {
        if !txInitialized {
          return Thrown(TxNotInitialized);
        }
        var added := Append(e);
        if added != |e.Data()| {
          txInitialized := false;
          return Thrown(OutputBufferTooSmall);
        }
        return Thrown(Ok);
      } else if payloadType == P1_LAST {
        if !txInitialized {
          return Thrown(TxNotInitialized);
        }
        var added := Append(e);
        txInitialized := false;
        if added != |e.Data()| {
          return Thrown(OutputBufferTooSmall);
        }
        return Uploaded(e.apdu[1], hdPath, buffer);
      }
      r := Thrown(InvalidP1P2);
    }

    /** handleApdu: dispatch on class, length and instruction. */
    method HandleApdu(e: Event) returns (r: Reply)
      modifies this
      ensures View() == Step(old(View()), e)
      ensures r == ReplyTo(old(View()), e)
      ensures r.Uploaded? <==> Completes(old(View()), e)
      ensures requireConfirmation ==
        if RequestOf(e) in {Init, GetAddr} && ExtractOk(e.Data()) then e.apdu[2] != 0 else old(requireConfirmation)
    {
      hide Extract, ExtractOk;
      if e.ClassByte() != CLA {
        return Thrown(ClaNotSupported);
      }
      if |e.apdu| < APDU_MIN_LENGTH {
        return Thrown(WrongLength);
      }
      var ins := e.apdu[1];
      if ins == INS_GET_VERSION {
        return Thrown(Ok);
      } else if ins == INS_GET_ADDR {
        if e.locked {
          return Thrown(Locked);
        }
        var thrown := ExtractHDPath(e.Data());
        if thrown.Some? {
          return Thrown(thrown.value);
        }
        requireConfirmation := e.apdu[2] != 0;
        return Thrown(Ok);
      } else if INS_SIGN <= ins <= INS_SIGN_MESSAGE {
        if e.locked {
          return Thrown(Locked);
        }
        r := ProcessChunk(e);
        return;
      }
      r := Thrown(InsNotSupported);
    }
  }

  lemma ExtractKeepsBuffer(s: State, d: seq<byte>)
    ensures var t := Extract(s.(buffer := []), d);
      t.buffer == [] && !t.txInitialized
  {
  }

  // ---------- The instruction of an upload ----------

  predicate Chunked(ins: byte) {
    INS_SIGN <= ins <= INS_SIGN_MESSAGE
  }

  /** The same command, or the same upload command under another chunked instruction. */
  predicate UpToInstruction(e: Event, e': Event) {
    e == e' || (|e.apdu| >= 2 && Chunked(e.apdu[1]) && exists ins: byte :: e' == Under(e, ins) && Chunked(ins))
  }

  function Under(e: Event, ins: byte): Event
    requires |e.apdu| >= 2
  {
    e.(apdu := e.apdu[1 := ins])
  }

  lemma SameUnder(s: State, e: Event, ins: byte)
    requires |e.apdu| >= 2 && Chunked(e.apdu[1]) && Chunked(ins)
    ensures Step(s, Under(e, ins)) == Step(s, e)
    ensures Completes(s, Under(e, ins)) <==> Completes(s, e)
    ensures !Completes(s, e) ==> ReplyTo(s, Under(e, ins)) == ReplyTo(s, e)
    ensures Completes(s, e) ==> ReplyTo(s, Under(e, ins)) == Uploaded(ins, Step(s, e).hdPath, Step(s, e).buffer)
  {
    hide Extract, ExtractOk;
    var e' := Under(e, ins);
    if |e.apdu| >= OFFSET_DATA {
      assert e'.apdu[OFFSET_DATA..] == e.apdu[OFFSET_DATA..];
    }
    assert RequestOf(e') == RequestOf(e) && e'.Data() == e.Data() && e'.Taken() == e.Taken();
  }

  /** Over every run: no state depends on which of the chunked instructions the upload commands
      came under. An upload opened under one may be continued and finished under others. */
  lemma {:induction false} InstructionsAreForgotten(es: seq<Event>, es': seq<Event>)
    requires |es| == |es'| && forall i :: 0 <= i < |es| ==> UpToInstruction(es[i], es'[i])
    ensures Run(es) == Run(es')
  {
    hide Step;
    if es != [] {
      var last := |es| - 1;
      InstructionsAreForgotten(es[..last], es'[..last]);
      assert UpToInstruction(es[last], es'[last]);
      if es[last] != es'[last] {
        var ins: byte :| es'[last] == Under(es[last], ins) && Chunked(ins);
        SameUnder(Run(es[..last]), es[last], ins);
      }
    }
  }

  /** Over every run: a completed upload is the data since its INIT, on the path of that INIT,
      under the instruction of its last command, whichever the INIT came under. */
  lemma UploadInstruction(es: seq<Event>, e: Event) returns (k: nat)
    requires Completes(Run(es), e)
    ensures OpenedAt(es, k) && k < |es| && |es[k].Data()| == HDPATH_BYTES
    ensures ReplyTo(Run(es), e) == Uploaded(e.apdu[1], PathOf(es[k].Data()), ChunkData(es[k + 1..]) + e.Data())
  {
    hide Run, ChunkData, PathOf, ValidPath, Step;
    k := CompleteUpload(es, e);
  }

  /** A transaction upload that ends as a message: opened to be signed as one, handed on as the
      other, with the path and data sent. */
  lemma MixedRun(data: seq<byte>, room: nat)
    requires room >= |data|
    ensures var path: seq<byte> := [0x2c, 0, 0, 0x80, 0x1c, 2, 0, 0x80, 0, 0, 0, 0x80, 0, 0, 0, 0x80, 0, 0, 0, 0x80];
      var init := Event([CLA, INS_SIGN, P1_INIT, 0, 20] + path, false, 0, 0);
      var last := Event([CLA, INS_SIGN_MESSAGE, P1_LAST, 0, 0] + data, false, room, 0);
      && Completes(Run([init]), last)
      && ReplyTo(Run([init]), last)
      == Uploaded(INS_SIGN_MESSAGE, [HDPATH_0_DEFAULT, HDPATH_1_DEFAULT, 0x8000_0000, 0x8000_0000, 0x8000_0000], data)
  {
    hide PathOf;
    var path: seq<byte> := [0x2c, 0, 0, 0x80, 0x1c, 2, 0, 0x80, 0, 0, 0, 0x80, 0, 0, 0, 0x80, 0, 0, 0, 0x80];
    var init := Event([CLA, INS_SIGN, P1_INIT, 0, 20] + path, false, 0, 0);
    var last := Event([CLA, INS_SIGN_MESSAGE, P1_LAST, 0, 0] + data, false, room, 0);
    assert init.Data() == path && last.Data() == data && data[..last.Taken()] == data;
    PathNumbers(path);
    assert [init][..0] == [];
    assert Run([init]) == Step(Run([init][..0]), init);
  }

  lemma PathNumbers(path: seq<byte>)
    requires path == [0x2c, 0, 0, 0x80, 0x1c, 2, 0, 0x80, 0, 0, 0, 0x80, 0, 0, 0, 0x80, 0, 0, 0, 0x80]
    ensures PathOf(path) == [HDPATH_0_DEFAULT, HDPATH_1_DEFAULT, 0x8000_0000, 0x8000_0000, 0x8000_0000]
  {
    hide Le;
    LeFour(path[..4]);
    LeFour(path[4..8]);
    LeFour(path[8..12]);
    LeFour(path[12..16]);
    LeFour(path[16..20]);
  }
}
