// C/Master/Src/SCIMasterTransfer.c: the master's side of a transfer. It
// starts a request and, for each parsed response frame, calls the result
// callbacks, accumulates the values of a multi-frame COMMAND result and the
// bytes of an upstream, and re-issues the request until everything arrived.
// The callbacks are a record of which ones are set, the values they return
// are parameters, and every call is appended to an event log.
module MasterTransfer {
  import opened Base
  import opened Protocol

  /** `tsREQUEST`: number, kind, the argument values and their count. */
  datatype Request = Request(num: int16, reqType: ReqType, vals: seq<uint32>, valArrLen: uint8)

  /** `tsREQUEST_DEFAULTS`: every field zero, no arguments. */
  const REQUEST_DEFAULTS: Request := Request(0, ReqNone, [], 0)

  /**
   * `tsRESPONSE` as the dataframe layer hands it over: number, kind,
   * acknowledge, the raw upstream bytes and the values of the frame, the data
   * length and the error number of its header.
   */
  datatype Response = Response(num: int16, reqType: ReqType, ack: Ack, upstream: seq<uint8>,
                               vals: seq<uint32>, datLen: uint32, error: uint16)

  /**
   * `tsTRANSFER_INFO`: the stored request, the count of data in the frame at
   * hand (set by the dataframe layer), the expected and received counts, the
   * number of DAT frames so far, and the result and upstream buffers while
   * they are allocated.
   */
  datatype Info = Info(req: Request, msgCnt: uint8, expected: uint32, received: uint32, transferCnt: uint32,
                       results: Option<seq<uint32>>, upstreamBuf: Option<seq<uint8>>)

  /** `tsTRANSFER_INFO_DEFAULTS`. */
  const TRANSFER_INFO_DEFAULTS: Info := Info(REQUEST_DEFAULTS, 0, 0, 0, 0, None, None)

  /** Which of the optional callbacks are set; `RequestCB` and the stream and release callbacks are always called. */
  datatype Callbacks = Callbacks(hasSetVar: bool, hasGetVar: bool, hasCommand: bool, hasUpstream: bool)

  /** A callback invocation, with its arguments. */
  datatype Event =
    | SetVarCalled(ack: Ack, num: int16, error: uint16)
    | GetVarCalled(ack: Ack, num: int16, val: uint32, error: uint16)
    | CommandCalled(ack: Ack, num: int16, data: seq<uint32>, count: uint8, error: uint16)
    | UpstreamCalled(num: int16, bytes: seq<uint8>, length: uint32)
    | RequestSent(req: Request)
    | StreamInitiated(expected: uint32)
    | StreamFinished
    | Released

  // ---------------------------------------------------------------------------
  // `SCITransferStart`

  /**
   * `SCITransferStart` as written: `false` when `RequestCB` rejects the
   * request; on acceptance the function ends without a return statement, so
   * the value the caller sees is not defined (`None`).
   */
  function StartAsWritten(accepted: bool): (r: Option<bool>)
    ensures r.Some? <==> !accepted
  {
    if !accepted then Some(false) else None
  }

  /** An accepted request gives the caller no defined result. */
  lemma StartAcceptedHasNoResult()
    ensures StartAsWritten(true) == None
  {
  }

  /**
   * `SCITransferStart` with the evident `return true`: the request is offered to
   * `RequestCB`, stored only when accepted, and the result says whether it was.
   */
  function Start(s: Info, req: Request, accepted: bool): (r: (Info, bool))
    ensures r.1 == accepted && StartAsWritten(accepted) in {None, Some(r.1)}
    ensures r.0 == (if accepted then s.(req := req) else s)
  {
    if !accepted then (s, false) else (s.(req := req), true)
  }

  // ---------------------------------------------------------------------------
  // `SCITransferControl`, one frame.

  /** The release call, unless the callback asked for the request to be repeated. */
  function ReleaseUnless(a: TransferAck): (e: seq<Event>)
    ensures e == [] <==> a == RepeatRequest
  {
    if a != RepeatRequest then [Released] else []
  }

  /** `memcpy` of `src` into `buf` at offset `at`. */
  function Copied<T>(buf: seq<T>, at: nat, src: seq<T>): (r: seq<T>)
    requires at + |src| <= |buf|
    ensures |r| == |buf| && r[..at] == buf[..at] && r[at..at + |src|] == src && r[at + |src|..] == buf[at + |src|..]
  {
    buf[..at] + src + buf[at + |src|..]
  }

  /** A freshly allocated buffer of `n` entries (its contents are not read before they are written). */
  function Allocated<T>(n: nat, z: T): (r: seq<T>)
    ensures |r| == n
  {
    seq(n, _ => z)
  }

  /**
   * The memory a frame's copies and reads touch exists: the GETVAR value, the
   * `ui8MessageDataCnt` entries of a DAT frame and room for them at the
   * received count, and the same for the bytes of an UPSTREAM frame.
   */
  predicate Fits(s: Info, cbs: Callbacks, rsp: Response)
  {
    (rsp.reqType == GetVar && cbs.hasGetVar ==> |rsp.vals| >= 1) &&
    (rsp.reqType == Command && rsp.ack == SuccessData ==>
       s.msgCnt <= |rsp.vals| &&
       (s.transferCnt == 0 ==> s.received + s.msgCnt <= rsp.datLen) &&
       (s.transferCnt != 0 ==> s.results.Some? && s.received + s.msgCnt <= |s.results.value|)) &&
    (rsp.reqType == Upstream ==>
       s.upstreamBuf.Some? && s.msgCnt <= |rsp.upstream| && s.received + s.msgCnt <= |s.upstreamBuf.value|)
  }

  /** One call of `SCITransferControl`: the new transfer info, the result, and the callbacks it made. */
  datatype Outcome = Outcome(info: Info, ok: bool, events: seq<Event>)

  /**
   * The SETVAR guard as written tests `GetVarCB` before calling `SetVarCB`
   * (line 58): whether `SetVarCB` is called.
   */
  function SetVarGuardAsWritten(cbs: Callbacks): (called: bool)
    ensures called == cbs.hasGetVar
  {
    cbs.hasGetVar
  }

  /**
   * With only `SetVarCB` set, the guard as written never calls it; with only
   * `GetVarCB` set, it calls the missing `SetVarCB`.
   */
  lemma SetVarGuardMismatch()
    ensures !SetVarGuardAsWritten(Callbacks(true, false, false, false))
    ensures SetVarGuardAsWritten(Callbacks(false, true, false, false))
  {
  }

  /** SETVAR and GETVAR answers (lines 57-80), with the SETVAR guard testing `SetVarCB`. */
  function VarAnswer(cbs: Callbacks, rsp: Response, cbAck: TransferAck): (e: seq<Event>)
    requires rsp.reqType == SetVar || rsp.reqType == GetVar
    requires rsp.reqType == GetVar && cbs.hasGetVar ==> |rsp.vals| >= 1
  {
    if rsp.reqType == SetVar then
      if cbs.hasSetVar then [SetVarCalled(rsp.ack, rsp.num, rsp.error)] + ReleaseUnless(cbAck)
      else ReleaseUnless(Abort)
    else
      if cbs.hasGetVar then [GetVarCalled(rsp.ack, rsp.num, rsp.vals[0], rsp.error)] + ReleaseUnless(cbAck)
      else ReleaseUnless(Abort)
  }

  /**
   * The copy of a DAT frame as written (lines 103-105): `ui32DatLen` entries of
   * the frame into the result buffer at the received count, while the count
   * then advances by `ui8MessageDataCnt`. `None` where the copy reads past the
   * frame's values or writes past the buffer.
   */
  function DatCopyAsWritten(buf: seq<uint32>, received: nat, rsp: Response): (r: Option<seq<uint32>>)
    ensures r.Some? <==> rsp.datLen <= |rsp.vals| && received + rsp.datLen <= |buf|
  {
    if rsp.datLen <= |rsp.vals| && received + rsp.datLen <= |buf| then
      Some(Copied(buf, received, rsp.vals[..rsp.datLen]))
    else None
  }

  /**
   * A DAT frame (lines 86-145), copying `ui8MessageDataCnt` values: the first
   * one sets the expected count to the announced length and allocates the
   * result buffer (failing with `false` when that fails); the values are
   * copied at the received count; when all arrived, `CommandCB` gets the buffer
   * and the counters are reset, otherwise the stored request is re-issued
   * without arguments.
   */
  function DatStep(s: Info, cbs: Callbacks, rsp: Response, cbAck: TransferAck, allocOk: bool): (o: Outcome)
    requires rsp.reqType == Command && rsp.ack == SuccessData && Fits(s, cbs, rsp)
    ensures !o.ok <==> s.transferCnt == 0 && !allocOk
  {
    var s1 := if s.transferCnt == 0 then s.(expected := rsp.datLen) else s;
    if s.transferCnt == 0 && !allocOk then Outcome(s1, false, [])
    else
      var buf := if s.transferCnt == 0 then Allocated<uint32>(rsp.datLen, 0) else s.results.value;
      var buf' := Copied(buf, s.received, rsp.vals[..s.msgCnt]);
      var received := ToUint32(s.received + s.msgCnt);
      if s1.expected == received then
        var events := if cbs.hasCommand
                      then [CommandCalled(rsp.ack, rsp.num, buf', ToUint8(received), rsp.error)] + ReleaseUnless(cbAck)
                      else ReleaseUnless(Abort);
        Outcome(s1.(results := None, received := 0, transferCnt := 0, expected := 0, msgCnt := 0), true, events)
      else
        var req := s.req.(valArrLen := 0);
        Outcome(s1.(results := Some(buf'), received := received, transferCnt := ToUint32(s.transferCnt + 1), req := req),
                true, [Released, RequestSent(req)])
  }

  /**
   * A UPS acknowledge (lines 148-175): allocates the upstream buffer (failing
   * with `false`), expects the announced length, switches the receiver to
   * stream mode and replaces the stored request by an UPSTREAM request with
   * the same number.
   */
  function UpsStep(s: Info, rsp: Response, allocOk: bool): (o: Outcome)
  {
    if !allocOk then Outcome(s, false, [])
    else
      var up := REQUEST_DEFAULTS.(reqType := Upstream, num := s.req.num);
      Outcome(s.(upstreamBuf := Some(Allocated<uint8>(rsp.datLen, 0)), expected := rsp.datLen, req := up), true,
              [StreamInitiated(rsp.datLen), Released, RequestSent(up)])
  }

  /**
   * An UPSTREAM frame (lines 191-229): its bytes are copied at the received
   * count; while fewer than expected arrived the request is re-issued,
   * otherwise the stream ends, `UpstreamCB` gets the buffer and the counters
   * are reset.
   */
  function UpstreamStep(s: Info, cbs: Callbacks, rsp: Response): (o: Outcome)
    requires rsp.reqType == Upstream && Fits(s, cbs, rsp)
    ensures o.ok
  {
    var buf' := Copied(s.upstreamBuf.value, s.received, rsp.upstream[..s.msgCnt]);
    var received := ToUint32(s.received + s.msgCnt);
    if received < s.expected then
      Outcome(s.(upstreamBuf := Some(buf'), received := received), true, [RequestSent(s.req)])
    else
      Outcome(s.(upstreamBuf := None, received := 0, transferCnt := 0, expected := 0), true,
              [StreamFinished] + (if cbs.hasUpstream then [UpstreamCalled(s.req.num, buf', received)] else []) + [Released])
  }

  /** `SCITransferControl` for the frame `rsp`. */
  function Control(s: Info, cbs: Callbacks, rsp: Response, cbAck: TransferAck, allocOk: bool): (o: Outcome)
    requires Fits(s, cbs, rsp)
  {
    match rsp.reqType
    case SetVar => Outcome(s, true, VarAnswer(cbs, rsp, cbAck))
    case GetVar => Outcome(s, true, VarAnswer(cbs, rsp, cbAck))
    case Command =>
      if rsp.ack == SuccessData then DatStep(s, cbs, rsp, cbAck, allocOk)
      else if rsp.ack == SuccessUpstream then UpsStep(s, rsp, allocOk)
      else Outcome(s, true, (if cbs.hasCommand then [CommandCalled(rsp.ack, rsp.num, [], 0, rsp.error)] else []) + [Released])
    case Upstream => UpstreamStep(s, cbs, rsp)
    case _ => Outcome(s, true, [])
  }

  // ---------------------------------------------------------------------------
  // `tsSCI_TRANSFER`

  /** `tsSCI_TRANSFER`: the transfer info, the set callbacks, and the calls made so far. */
  class Transfer {
    var info: Info
    const cbs: Callbacks
    var events: seq<Event>

    constructor(cbs: Callbacks)
      ensures info == TRANSFER_INFO_DEFAULTS && this.cbs == cbs && events == []
    {
      info := TRANSFER_INFO_DEFAULTS;
      this.cbs := cbs;
      events := [];
    }

    /** `SCITransferStart` (lines 35-48); `accepted` is what `RequestCB` returns. */
    method TransferStart(reqType: ReqType, num: int16, vals: seq<uint32>, argNum: uint8, accepted: bool)
      returns (ok: bool)
      modifies this
      ensures var r := Start(old(info), Request(num, reqType, vals, argNum), accepted);
              info == r.0 && ok == r.1
      ensures events == old(events) + [RequestSent(Request(num, reqType, vals, argNum))]
    {
      var req := REQUEST_DEFAULTS;
      req := req.(reqType := reqType, num := num, vals := vals, valArrLen := argNum);
      events := events + [RequestSent(req)];
      if !accepted {
        return false;
      }
      info := info.(req := req);
      return true;
    }

    /**
     * `SCITransferControl` (lines 50-236) for the frame `rsp`; `cbAck` is what
     * the result callback returns if one is called, `allocOk` whether `malloc`
     * succeeds if it is called.
     */
    method TransferControl(rsp: Response, cbAck: TransferAck, allocOk: bool) returns (ok: bool)
      requires Fits(info, cbs, rsp)
      modifies this
      ensures var o := Control(old(info), cbs, rsp, cbAck, allocOk);
              info == o.info && ok == o.ok && events == old(events) + o.events
    {
      ok := true;
      match rsp.reqType {
        case SetVar =>
          var ack := Abort;
          if cbs.hasSetVar {
            ack := cbAck;
            events := events + [SetVarCalled(rsp.ack, rsp.num, rsp.error)];
          }
          if ack != RepeatRequest {
            events := events + [Released];
          }
        case GetVar =>
          var ack := Abort;
          if cbs.hasGetVar {
            ack := cbAck;
            events := events + [GetVarCalled(rsp.ack, rsp.num, rsp.vals[0], rsp.error)];
          }
          if ack != RepeatRequest {
            events := events + [Released];
          }
        case Command =>
          if rsp.ack == SuccessData {
            ok := DatFrame(rsp, cbAck, allocOk);
          } else if rsp.ack == SuccessUpstream {
            ok := UpsAck(rsp, allocOk);
          } else {
            if cbs.hasCommand {
              events := events + [CommandCalled(rsp.ack, rsp.num, [], 0, rsp.error)];
            }
            events := events + [Released];
          }
        case Upstream =>
          UpstreamFrame(rsp);
        case _ =>
      }
    }

    /** The SUCCESS_DATA branch (lines 86-145). */
    method DatFrame(rsp: Response, cbAck: TransferAck, allocOk: bool) returns (ok: bool)
      requires rsp.reqType == Command && rsp.ack == SuccessData && Fits(info, cbs, rsp)
      modifies this
      ensures var o := DatStep(old(info), cbs, rsp, cbAck, allocOk);
              info == o.info && ok == o.ok && events == old(events) + o.events
    {
      if info.transferCnt == 0 {
        info := info.(expected := rsp.datLen);
        if !allocOk {
          return false;
        }
        info := info.(results := Some(Allocated<uint32>(rsp.datLen, 0)));
      }
      info := info.(results := Some(Copied(info.results.value, info.received, rsp.vals[..info.msgCnt])));
      info := info.(received := ToUint32(info.received + info.msgCnt));
      info := info.(transferCnt := ToUint32(info.transferCnt + 1));
      if info.expected == info.received {
        var ack := Abort;
        if cbs.hasCommand {
          ack := cbAck;
          events := events + [CommandCalled(rsp.ack, rsp.num, info.results.value, ToUint8(info.received), rsp.error)];
        }
        info := info.(results := None);
        info := info.(received := 0, transferCnt := 0, expected := 0, msgCnt := 0);
        if ack != RepeatRequest {
          events := events + [Released];
        }
      } else {
        info := info.(req := info.req.(valArrLen := 0));
        events := events + [Released, RequestSent(info.req)];
      }
      ok := true;
    }

    /** The SUCCESS_UPSTREAM branch (lines 148-175). */
    method UpsAck(rsp: Response, allocOk: bool) returns (ok: bool)
      modifies this
      ensures var o := UpsStep(old(info), rsp, allocOk);
              info == o.info && ok == o.ok && events == old(events) + o.events
    {
      var up := REQUEST_DEFAULTS;
      if !allocOk {
        return false;
      }
      info := info.(upstreamBuf := Some(Allocated<uint8>(rsp.datLen, 0)));
      info := info.(expected := rsp.datLen);
      events := events + [StreamInitiated(info.expected)];
      up := up.(reqType := Upstream, num := info.req.num);
      events := events + [Released, RequestSent(up)];
      info := info.(req := up);
      ok := true;
    }

    /** The UPSTREAM branch (lines 191-229). */
    method UpstreamFrame(rsp: Response)
      requires rsp.reqType == Upstream && Fits(info, cbs, rsp)
      modifies this
      ensures var o := UpstreamStep(old(info), cbs, rsp);
              info == o.info && events == old(events) + o.events
    {
      info := info.(upstreamBuf := Some(Copied(info.upstreamBuf.value, info.received, rsp.upstream[..info.msgCnt])));
      info := info.(received := ToUint32(info.received + info.msgCnt));
      if info.received < info.expected {
        events := events + [RequestSent(info.req)];
      } else {
        events := events + [StreamFinished];
        if cbs.hasUpstream {
          events := events + [UpstreamCalled(info.req.num, info.upstreamBuf.value, info.received)];
        }
        info := info.(received := 0, transferCnt := 0, expected := 0);
        info := info.(upstreamBuf := None);
        events := events + [Released];
      }
    }
  }

  // ---------------------------------------------------------------------------
  // Properties of one frame.

  /**
   * A SETVAR or GETVAR answer leaves the transfer info alone; its callback is
   * called exactly when it is set, and the protocol is released unless that
   * callback asked for a repeat.
   */
  lemma VarAnswerReleases(s: Info, cbs: Callbacks, rsp: Response, cbAck: TransferAck, allocOk: bool)
    requires (rsp.reqType == SetVar || rsp.reqType == GetVar) && Fits(s, cbs, rsp)
    ensures var o := Control(s, cbs, rsp, cbAck, allocOk);
            var called := if rsp.reqType == SetVar then cbs.hasSetVar else cbs.hasGetVar;
            o.info == s && o.ok &&
            (Released in o.events <==> !(called && cbAck == RepeatRequest)) &&
            (called <==> |o.events| >= 1 && !o.events[0].Released?)
  {
  }

  /** Only a failed allocation, on the first DAT frame or on a UPS acknowledge, makes the result `false`. */
  lemma ControlFailsOnlyOnAllocation(s: Info, cbs: Callbacks, rsp: Response, cbAck: TransferAck, allocOk: bool)
    requires Fits(s, cbs, rsp)
    ensures !Control(s, cbs, rsp, cbAck, allocOk).ok <==>
              rsp.reqType == Command && !allocOk &&
              ((rsp.ack == SuccessData && s.transferCnt == 0) || rsp.ack == SuccessUpstream)
  {
  }

  /**
   * A DAT frame that does not complete the result extends the received values
   * by the frame's values, counts the frame, and re-issues the stored request
   * without arguments after releasing the protocol.
   */
  lemma DatFrameContinues(s: Info, cbs: Callbacks, rsp: Response, cbAck: TransferAck)
    requires rsp.reqType == Command && rsp.ack == SuccessData && Fits(s, cbs, rsp)
    requires s.transferCnt != 0 && s.received + s.msgCnt < s.expected
    ensures var o := Control(s, cbs, rsp, cbAck, true);
            o.info.received == s.received + s.msgCnt && o.info.transferCnt == ToUint32(s.transferCnt + 1) &&
            o.info.results.Some? &&
            o.info.results.value[..o.info.received] == s.results.value[..s.received] + rsp.vals[..s.msgCnt] &&
            o.info.req == s.req.(valArrLen := 0) && o.events == [Released, RequestSent(o.info.req)]
  {
    var buf' := Copied(s.results.value, s.received, rsp.vals[..s.msgCnt]);
    assert buf'[..s.received + s.msgCnt] == buf'[..s.received] + buf'[s.received..s.received + s.msgCnt];
  }

  /** A UPS acknowledge turns the stored request into an UPSTREAM request for the same number. */
  lemma UpsAckRequestsStream(s: Info, cbs: Callbacks, rsp: Response, cbAck: TransferAck)
    requires rsp.reqType == Command && rsp.ack == SuccessUpstream
    ensures var o := Control(s, cbs, rsp, cbAck, true);
            o.ok && o.info.expected == rsp.datLen && o.info.req.reqType == Upstream &&
            o.info.req.num == s.req.num && o.info.req.valArrLen == 0 &&
            o.events == [StreamInitiated(rsp.datLen), Released, RequestSent(o.info.req)] &&
            o.info.upstreamBuf.Some? && |o.info.upstreamBuf.value| == rsp.datLen
  {
  }

  // ---------------------------------------------------------------------------
  // Whole transfers.

  /** `n` DAT frames' worth of re-issues: each releases the protocol and sends `req` again. */
  function Reissues(req: Request, n: nat): (r: seq<Event>)
    ensures |r| == 2 * n
  {
    if n == 0 then [] else [Released, RequestSent(req)] + Reissues(req, n - 1)
  }

  /** `n` UPSTREAM frames' worth of re-sends of `req`. */
  function Resends(req: Request, n: nat): (r: seq<Event>)
    ensures |r| == n
  {
    if n == 0 then [] else [RequestSent(req)] + Resends(req, n - 1)
  }

  /** Every part holds between 1 and 255 entries. */
  predicate PartsFit<T>(parts: seq<seq<T>>)
    decreases |parts|
  {
    parts == [] || (1 <= |parts[0]| < TWO_8 && PartsFit(parts[1..]))
  }

  /** The length of the parts one after the other is at least their number. */
  lemma {:induction false} ConcatLength<T>(parts: seq<seq<T>>)
    requires PartsFit(parts)
    ensures |Concat(parts)| >= |parts|
    decreases |parts|
  {
    if parts != [] {
      ConcatLength(parts[1..]);
    }
  }

  /** Copying `src` behind the first `at` entries extends them by `src`. */
  lemma CopiedExtends<T>(buf: seq<T>, at: nat, src: seq<T>, done: seq<T>)
    requires at + |src| <= |buf| && buf[..at] == done
    ensures Copied(buf, at, src)[..at + |src|] == done + src
  {
    var r := Copied(buf, at, src);
    assert r[..at + |src|] == r[..at] + r[at..at + |src|];
  }

  // DAT frames.

  /** The DAT frame of a COMMAND result `num` carrying `part`, announcing `total` values. */
  function DatResponse(num: int16, part: seq<uint32>, total: uint32): (rsp: Response)
    ensures rsp.reqType == Command && rsp.ack == SuccessData && rsp.vals == part
  {
    Response(num, Command, SuccessData, [], part, total, 0)
  }

  /**
   * The calls made for DAT frames carrying `parts`, one after the other, each
   * handed over with `ui8MessageDataCnt` set to its count by the dataframe
   * layer, with `CommandCB` returning success and allocation succeeding.
   * Stops at a frame whose copy would not fit.
   */
  function FeedDat(s: Info, cbs: Callbacks, num: int16, parts: seq<seq<uint32>>, total: uint32): (e: seq<Event>)
    decreases |parts|
  {
    if parts == [] || |parts[0]| >= TWO_8 then []
    else
      var s0 := s.(msgCnt := |parts[0]|);
      var rsp := DatResponse(num, parts[0], total);
      if !Fits(s0, cbs, rsp) then []
      else
        var o := DatStep(s0, cbs, rsp, TransferSuccess, true);
        o.events + FeedDat(o.info, cbs, num, parts[1..], total)
  }

  /**
   * A COMMAND result sent as DAT frames, the first announcing the total, is
   * handed to `CommandCB` complete and in order once the last frame arrived;
   * every earlier frame re-issues the request without arguments. The count
   * passed along is the total truncated to the callback's 8-bit parameter.
   */
  lemma FeedDatDelivers(s: Info, cbs: Callbacks, num: int16, parts: seq<seq<uint32>>)
    requires cbs.hasCommand && |parts| >= 1 && PartsFit(parts) && |Concat(parts)| < TWO_32
    requires s.transferCnt == 0 && s.received == 0
    ensures var total := |Concat(parts)|;
            FeedDat(s, cbs, num, parts, total) ==
              Reissues(s.req.(valArrLen := 0), |parts| - 1) +
              [CommandCalled(SuccessData, num, Concat(parts), ToUint8(total), 0), Released]
  {
    assert [] + Concat(parts) == Concat(parts);
    FeedDatRest(s, cbs, num, [], parts, |Concat(parts)|, Concat(parts), s.req.(valArrLen := 0));
  }

  /** The values `done` of a COMMAND result of `total` values have been received. */
  predicate DatInProgress(s: Info, done: seq<uint32>, total: uint32)
  {
    s.received == |done| && s.transferCnt <= |done| && (s.transferCnt == 0 ==> done == []) &&
    (s.transferCnt != 0 ==> s.expected == total && s.results.Some? && |s.results.value| == total &&
                            |done| <= total && s.results.value[..|done|] == done)
  }

  /**
   * The induction step of `FeedDatDelivers`: with the values `done` received,
   * the frames carrying `rest` complete the result `whole`.
   */
  lemma {:induction false} FeedDatRest(s: Info, cbs: Callbacks, num: int16, done: seq<uint32>, rest: seq<seq<uint32>>,
                                        total: uint32, whole: seq<uint32>, req0: Request)
    requires cbs.hasCommand && |rest| >= 1 && PartsFit(rest) && whole == done + Concat(rest) && total == |whole|
    requires DatInProgress(s, done, total) && s.req.(valArrLen := 0) == req0
    ensures FeedDat(s, cbs, num, rest, total) ==
              Reissues(req0, |rest| - 1) + [CommandCalled(SuccessData, num, whole, ToUint8(total), 0), Released]
    decreases |rest|, 1
  {
    ConcatLength(rest);
    var buf := if s.transferCnt == 0 then Allocated<uint32>(total, 0) else s.results.value;
    CopiedExtends(buf, s.received, rest[0], done);
    if |rest| == 1 {
      assert rest == [rest[0]] && Concat(rest) == rest[0] + Concat([]);
      var buf' := Copied(buf, s.received, rest[0]);
      assert buf' == buf'[..s.received + |rest[0]|] == whole;
      FeedDatLast(s, cbs, num, rest[0], total);
      assert Reissues(req0, 0) == [];
    } else {
      FeedDatMore(s, cbs, num, done, rest, total, whole, req0);
    }
  }

  /** `FeedDatRest` for a frame that leaves values outstanding. */
  lemma {:induction false} FeedDatMore(s: Info, cbs: Callbacks, num: int16, done: seq<uint32>, rest: seq<seq<uint32>>,
                                        total: uint32, whole: seq<uint32>, req0: Request)
    requires cbs.hasCommand && |rest| >= 2 && PartsFit(rest) && whole == done + Concat(rest) && total == |whole|
    requires DatInProgress(s, done, total) && s.req.(valArrLen := 0) == req0
    ensures FeedDat(s, cbs, num, rest, total) ==
              Reissues(req0, |rest| - 1) + [CommandCalled(SuccessData, num, whole, ToUint8(total), 0), Released]
    decreases |rest|, 0
  {
    var tail := [CommandCalled(SuccessData, num, whole, ToUint8(total), 0), Released];
    var s' := DatNext(s, rest[0], total);
    var later := rest[1..];
    var first := [Released, RequestSent(req0)];
    assert FeedDat(s, cbs, num, rest, total) == first + FeedDat(s', cbs, num, later, total) by {
      DatNextInProgress(s, done, rest, total, whole);
      FeedDatNext(s, cbs, num, rest, total);
    }
    assert FeedDat(s', cbs, num, later, total) == Reissues(req0, |rest| - 2) + tail by {
      DatNextInProgress(s, done, rest, total, whole);
      FeedDatRest(s', cbs, num, done + rest[0], later, total, whole, req0);
    }
    assert first + Reissues(req0, |rest| - 2) == Reissues(req0, |rest| - 1);
    AppendAssoc(first, Reissues(req0, |rest| - 2), tail);
  }

  /** The info after a DAT frame carrying `p` that leaves values outstanding. */
  function DatNext(s: Info, p: seq<uint32>, total: uint32): (s': Info)
    requires |p| < TWO_8 && s.received + |p| < TWO_32 && s.transferCnt + 1 < TWO_32
    requires s.transferCnt == 0 ==> s.received + |p| <= total
    requires s.transferCnt != 0 ==> s.results.Some? && s.received + |p| <= |s.results.value|
    ensures s'.received == s.received + |p| && s'.transferCnt == s.transferCnt + 1 && s'.expected == total
    ensures s'.req == s.req.(valArrLen := 0)
    ensures s'.results == Some(Copied(if s.transferCnt == 0 then Allocated<uint32>(total, 0) else s.results.value,
                                      s.received, p))
  {
    var buf := if s.transferCnt == 0 then Allocated<uint32>(total, 0) else s.results.value;
    s.(msgCnt := |p|, expected := total, results := Some(Copied(buf, s.received, p)), received := s.received + |p|,
       transferCnt := s.transferCnt + 1, req := s.req.(valArrLen := 0))
  }

  /** After a DAT frame that leaves values outstanding, its values follow those received before. */
  lemma DatNextInProgress(s: Info, done: seq<uint32>, rest: seq<seq<uint32>>, total: uint32, whole: seq<uint32>)
    requires |rest| >= 2 && PartsFit(rest) && whole == done + Concat(rest) && total == |whole|
    requires DatInProgress(s, done, total)
    ensures 1 <= |rest[0]| < TWO_8 && s.received + |rest[0]| < total && s.transferCnt + 1 < TWO_32
    ensures s.transferCnt != 0 ==> s.results.Some? && |s.results.value| == total && s.expected == total
    ensures DatInProgress(DatNext(s, rest[0], total), done + rest[0], total)
    ensures whole == (done + rest[0]) + Concat(rest[1..])
  {
    ConcatLength(rest[1..]);
    assert Concat(rest) == rest[0] + Concat(rest[1..]);
    var buf := if s.transferCnt == 0 then Allocated<uint32>(total, 0) else s.results.value;
    if s.transferCnt == 0 {
      assert buf[..s.received] == [] == done;
    }
    assert |buf| == total;
    CopiedExtends(buf, s.received, rest[0], done);
  }

  /**
   * One DAT frame carrying the `1..255` values of `p`, the first of a result
   * when no frame was counted yet.
   */
  lemma DatFrameStep(s: Info, cbs: Callbacks, num: int16, p: seq<uint32>, total: uint32)
    requires 1 <= |p| < TWO_8 && s.transferCnt + 1 < TWO_32 && s.received + |p| < TWO_32
    requires s.transferCnt == 0 ==> s.received + |p| <= total
    requires s.transferCnt != 0 ==> s.results.Some? && s.received + |p| <= |s.results.value|
    ensures var s0 := s.(msgCnt := |p|);
            var rsp := DatResponse(num, p, total);
            var s1 := if s.transferCnt == 0 then s0.(expected := total) else s0;
            var buf := if s.transferCnt == 0 then Allocated<uint32>(total, 0) else s.results.value;
            var buf' := Copied(buf, s.received, p);
            Fits(s0, cbs, rsp) &&
            DatStep(s0, cbs, rsp, TransferSuccess, true) ==
              if s1.expected == s.received + |p| then
                Outcome(s1.(results := None, received := 0, transferCnt := 0, expected := 0, msgCnt := 0), true,
                        (if cbs.hasCommand then [CommandCalled(SuccessData, num, buf', ToUint8(s.received + |p|), 0)] else []) +
                        [Released])
              else
                Outcome(s1.(results := Some(buf'), received := s.received + |p|, transferCnt := s.transferCnt + 1,
                            req := s.req.(valArrLen := 0)), true, [Released, RequestSent(s.req.(valArrLen := 0))])
  {
    assert p[..|p|] == p;
  }

  /** A DAT frame that leaves values outstanding re-issues the request and feeds on. */
  lemma FeedDatNext(s: Info, cbs: Callbacks, num: int16, parts: seq<seq<uint32>>, total: uint32)
    requires |parts| >= 1 && 1 <= |parts[0]| < TWO_8 && s.transferCnt + 1 < TWO_32
    requires s.transferCnt == 0 ==> s.received + |parts[0]| < total
    requires s.transferCnt != 0 ==> s.results.Some? && s.received + |parts[0]| <= |s.results.value| < TWO_32 &&
                                    s.received + |parts[0]| != s.expected && s.expected == total
    ensures FeedDat(s, cbs, num, parts, total) ==
              [Released, RequestSent(s.req.(valArrLen := 0))] + FeedDat(DatNext(s, parts[0], total), cbs, num, parts[1..], total)
  {
    DatFrameStep(s, cbs, num, parts[0], total);
  }

  /** The DAT frame that completes the result hands the buffer to `CommandCB`. */
  lemma FeedDatLast(s: Info, cbs: Callbacks, num: int16, p: seq<uint32>, total: uint32)
    requires 1 <= |p| < TWO_8 && s.transferCnt + 1 < TWO_32 && cbs.hasCommand
    requires s.transferCnt == 0 ==> s.received + |p| == total
    requires s.transferCnt != 0 ==> s.results.Some? && s.received + |p| <= |s.results.value| < TWO_32 &&
                                    s.received + |p| == s.expected
    ensures var buf := if s.transferCnt == 0 then Allocated<uint32>(total, 0) else s.results.value;
            FeedDat(s, cbs, num, [p], total) ==
              [CommandCalled(SuccessData, num, Copied(buf, s.received, p), ToUint8(s.received + |p|), 0), Released]
  {
    DatFrameStep(s, cbs, num, p, total);
    assert [p][1..] == [];
  }

  // UPSTREAM frames.

  /** The UPSTREAM frame carrying `chunk` for the request `num`. */
  function UpstreamResponse(num: int16, chunk: seq<uint8>): (rsp: Response)
    ensures rsp.reqType == Upstream && rsp.upstream == chunk
  {
    Response(num, Upstream, Success, chunk, [], 0, 0)
  }

  /**
   * The calls made for UPSTREAM frames carrying `chunks`, one after the other,
   * each handed over with `ui8MessageDataCnt` set to its length by the
   * dataframe layer. Stops at a frame whose copy would not fit.
   */
  function FeedUpstream(s: Info, cbs: Callbacks, chunks: seq<seq<uint8>>): (e: seq<Event>)
    decreases |chunks|
  {
    if chunks == [] || |chunks[0]| >= TWO_8 then []
    else
      var s0 := s.(msgCnt := |chunks[0]|);
      var rsp := UpstreamResponse(s.req.num, chunks[0]);
      if !Fits(s0, cbs, rsp) then []
      else
        var o := UpstreamStep(s0, cbs, rsp);
        o.events + FeedUpstream(o.info, cbs, chunks[1..])
  }

  /**
   * An upstream whose buffer was allocated for `total` bytes is handed to
   * `UpstreamCB` complete and in order once its last frame arrived; every
   * earlier frame re-issues the UPSTREAM request.
   */
  lemma UpstreamDelivers(s: Info, cbs: Callbacks, chunks: seq<seq<uint8>>)
    requires cbs.hasUpstream && |chunks| >= 1 && PartsFit(chunks) && |Concat(chunks)| < TWO_32
    requires s.received == 0 && s.expected == |Concat(chunks)|
    requires s.upstreamBuf.Some? && |s.upstreamBuf.value| == |Concat(chunks)|
    ensures FeedUpstream(s, cbs, chunks) ==
              Resends(s.req, |chunks| - 1) +
              [StreamFinished, UpstreamCalled(s.req.num, Concat(chunks), |Concat(chunks)|), Released]
  {
    assert [] + Concat(chunks) == Concat(chunks);
    FeedUpstreamRest(s, cbs, [], chunks, Concat(chunks));
  }

  /**
   * The induction step of `UpstreamDelivers`: with the bytes `done` received,
   * the frames carrying `rest` complete the upstream `whole`.
   */
  lemma {:induction false} FeedUpstreamRest(s: Info, cbs: Callbacks, done: seq<uint8>, rest: seq<seq<uint8>>,
                                             whole: seq<uint8>)
    requires cbs.hasUpstream && |rest| >= 1 && PartsFit(rest) && whole == done + Concat(rest) && |whole| < TWO_32
    requires s.expected == |whole| && s.received == |done|
    requires s.upstreamBuf.Some? && |s.upstreamBuf.value| == |whole| && s.upstreamBuf.value[..|done|] == done
    ensures FeedUpstream(s, cbs, rest) ==
              Resends(s.req, |rest| - 1) + [StreamFinished, UpstreamCalled(s.req.num, whole, |whole|), Released]
    decreases |rest|, 1
  {
    ConcatLength(rest);
    CopiedExtends(s.upstreamBuf.value, s.received, rest[0], done);
    if |rest| == 1 {
      assert rest == [rest[0]] && Concat(rest) == rest[0] + Concat([]);
      var buf' := Copied(s.upstreamBuf.value, s.received, rest[0]);
      assert buf' == buf'[..s.received + |rest[0]|] == whole;
      FeedUpstreamLast(s, cbs, rest[0]);
      assert Resends(s.req, 0) == [];
    } else {
      FeedUpstreamMore(s, cbs, done, rest, whole);
    }
  }

  /** `FeedUpstreamRest` for a frame that leaves bytes outstanding. */
  lemma {:induction false} FeedUpstreamMore(s: Info, cbs: Callbacks, done: seq<uint8>, rest: seq<seq<uint8>>,
                                             whole: seq<uint8>)
    requires cbs.hasUpstream && |rest| >= 2 && PartsFit(rest) && whole == done + Concat(rest) && |whole| < TWO_32
    requires s.expected == |whole| && s.received == |done|
    requires s.upstreamBuf.Some? && |s.upstreamBuf.value| == |whole| && s.upstreamBuf.value[..|done|] == done
    ensures FeedUpstream(s, cbs, rest) ==
              Resends(s.req, |rest| - 1) + [StreamFinished, UpstreamCalled(s.req.num, whole, |whole|), Released]
    decreases |rest|, 0
  {
    var tail := [StreamFinished, UpstreamCalled(s.req.num, whole, |whole|), Released];
    UpstreamNextInProgress(s, done, rest, whole);
    FeedUpstreamRest(UpstreamNext(s, rest[0]), cbs, done + rest[0], rest[1..], whole);
    FeedUpstreamNext(s, cbs, rest);
    assert [RequestSent(s.req)] + (Resends(s.req, |rest| - 2) + tail) == Resends(s.req, |rest| - 1) + tail;
  }

  /** The info after an UPSTREAM frame carrying `c` that leaves bytes outstanding. */
  function UpstreamNext(s: Info, c: seq<uint8>): (s': Info)
    requires |c| < TWO_8 && s.upstreamBuf.Some? && s.received + |c| <= |s.upstreamBuf.value| < TWO_32
    ensures s'.received == s.received + |c| && s'.expected == s.expected && s'.req == s.req
    ensures s'.upstreamBuf == Some(Copied(s.upstreamBuf.value, s.received, c))
  {
    s.(msgCnt := |c|, upstreamBuf := Some(Copied(s.upstreamBuf.value, s.received, c)), received := s.received + |c|)
  }

  /** After an UPSTREAM frame that leaves bytes outstanding, its bytes follow those received before. */
  lemma UpstreamNextInProgress(s: Info, done: seq<uint8>, rest: seq<seq<uint8>>, whole: seq<uint8>)
    requires |rest| >= 2 && PartsFit(rest) && whole == done + Concat(rest) && |whole| < TWO_32
    requires s.expected == |whole| && s.received == |done|
    requires s.upstreamBuf.Some? && |s.upstreamBuf.value| == |whole| && s.upstreamBuf.value[..|done|] == done
    ensures s.received + |rest[0]| < s.expected
    ensures var s' := UpstreamNext(s, rest[0]);
            s'.upstreamBuf.value[..|done + rest[0]|] == done + rest[0] && s'.received == |done + rest[0]|
    ensures whole == (done + rest[0]) + Concat(rest[1..])
  {
    ConcatLength(rest[1..]);
    assert Concat(rest) == rest[0] + Concat(rest[1..]);
    CopiedExtends(s.upstreamBuf.value, s.received, rest[0], done);
  }

  /** One UPSTREAM frame carrying the `1..255` bytes of `c`, in place. */
  lemma UpstreamFrameStep(s: Info, cbs: Callbacks, c: seq<uint8>)
    requires 1 <= |c| < TWO_8 && s.upstreamBuf.Some? && s.received + |c| <= |s.upstreamBuf.value| < TWO_32
    ensures var s0 := s.(msgCnt := |c|);
            var rsp := UpstreamResponse(s.req.num, c);
            var buf' := Copied(s.upstreamBuf.value, s.received, c);
            Fits(s0, cbs, rsp) &&
            UpstreamStep(s0, cbs, rsp) ==
              if s.received + |c| < s.expected then
                Outcome(s0.(upstreamBuf := Some(buf'), received := s.received + |c|), true, [RequestSent(s.req)])
              else
                Outcome(s0.(upstreamBuf := None, received := 0, transferCnt := 0, expected := 0), true,
                        [StreamFinished] + (if cbs.hasUpstream then [UpstreamCalled(s.req.num, buf', s.received + |c|)] else []) +
                        [Released])
  {
    assert c[..|c|] == c;
  }

  /** An UPSTREAM frame that leaves bytes outstanding re-issues the request and feeds on. */
  lemma FeedUpstreamNext(s: Info, cbs: Callbacks, chunks: seq<seq<uint8>>)
    requires |chunks| >= 1 && 1 <= |chunks[0]| < TWO_8 && s.upstreamBuf.Some?
    requires s.received + |chunks[0]| < s.expected && s.received + |chunks[0]| <= |s.upstreamBuf.value| < TWO_32
    ensures FeedUpstream(s, cbs, chunks) == [RequestSent(s.req)] + FeedUpstream(UpstreamNext(s, chunks[0]), cbs, chunks[1..])
  {
    UpstreamFrameStep(s, cbs, chunks[0]);
  }

  /** The UPSTREAM frame that completes the upstream hands the buffer to `UpstreamCB`. */
  lemma FeedUpstreamLast(s: Info, cbs: Callbacks, c: seq<uint8>)
    requires 1 <= |c| < TWO_8 && s.upstreamBuf.Some? && cbs.hasUpstream
    requires s.received + |c| >= s.expected && s.received + |c| <= |s.upstreamBuf.value| < TWO_32
    ensures FeedUpstream(s, cbs, [c]) ==
              [StreamFinished, UpstreamCalled(s.req.num, Copied(s.upstreamBuf.value, s.received, c), s.received + |c|), Released]
  {
    UpstreamFrameStep(s, cbs, c);
    assert [c][1..] == [];
  }

  /**
   * The frames of a two-part result: the first DAT frame announces three values
   * and carries two, the second carries the third. The copy as written reads
   * three values from the first frame, past the two it holds; copying the
   * frame's own count delivers all three in order.
   */
  lemma DatCopyOverread(s: Info, cbs: Callbacks, num: int16, a: uint32, b: uint32, c: uint32)
    requires cbs.hasCommand && s.transferCnt == 0 && s.received == 0
    ensures DatCopyAsWritten(Allocated<uint32>(3, 0), 0, DatResponse(num, [a, b], 3)) == None
    ensures FeedDat(s, cbs, num, [[a, b], [c]], 3) ==
              [Released, RequestSent(s.req.(valArrLen := 0)), CommandCalled(SuccessData, num, [a, b, c], 3, 0), Released]
  {
    var parts := [[a, b], [c]];
    assert Concat(parts) == [a, b, c] by {
      assert Concat(parts[1..]) == [c] + Concat(parts[2..]);
    }
    FeedDatDelivers(s, cbs, num, parts);
  }
}
