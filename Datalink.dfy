// The byte-at-a-time link layer of Datalink.c: STX/ETX framing of received
// bytes into the receive FIFO, the "Dbg<d>" debug-function activation that
// runs between frames, and the transmit state machine that hands STX, the
// transmit buffer and ETX to the transmit callback.
module Datalink {
  import opened Base
  import opened Fifo

  const STX_BYTE: uint8 := 0x02
  const ETX_BYTE: uint8 := 0x03
  /** Number of entries of `dbgFcnArray`. */
  const DBG_FCN_COUNT: nat := 10

  datatype RState = RIdle | RBusy | RPending
  datatype DbgState = DbgIdle | DbgS1 | DbgS2 | DbgS3
  datatype TState = TIdle | SendStx | SendBuffer | SendEtx | Ready

  predicate IsFraming(b: uint8)
  {
    b == STX_BYTE || b == ETX_BYTE
  }

  // ---------------------------------------------------------------------------
  // Receive side, as a function of the state it reads and writes

  /**
   * Everything `receive` reads or changes: frame state, debug-activation state,
   * the FIFO's contents, capacity and overflow flag, and the debug functions
   * called so far.
   */
  datatype RxView = RxView(rState: RState, dbg: DbgState, data: seq<uint8>, cap: nat, ovfl: bool, calls: seq<nat>)
  {
    ghost predicate Fits() { |data| <= cap }
  }

  function NextRState(r: RState, b: uint8): RState
  {
    if b == STX_BYTE then (if r == RIdle then RBusy else RIdle)
    else if b == ETX_BYTE then (if r == RBusy then RPending else RIdle)
    else r
  }

  /** The index the S3 state computes, `(int8_t)(b - '0')`. */
  function DbgDigit(b: uint8): int8
  {
    ToInt8(b - '0' as int)
  }

  /** Debug-activation state after byte `b`, given the frame state `r` after `b`. */
  function NextDbg(r: RState, d: DbgState, b: uint8): DbgState
  {
    if r != RIdle then DbgIdle
    else match d
      case DbgIdle => if b == 'D' as int then DbgS1 else DbgIdle
      case DbgS1 => if b == 'b' as int then DbgS2 else DbgIdle
      case DbgS2 => if b == 'g' as int then DbgS3 else DbgIdle
      case DbgS3 => DbgIdle
  }

  /** The debug function byte `b` calls, if any (`present` tells which slots are non-null). */
  function DbgCall(r: RState, d: DbgState, b: uint8, present: seq<bool>): Option<nat>
    requires |present| == DBG_FCN_COUNT
  {
    var k := DbgDigit(b);
    if r == RIdle && d == DbgS3 && 0 <= k < 10 && present[k] then Some(k) else None
  }

  /** One call of `receive` (Datalink.c:23-93). */
  function ReceiveStep(v: RxView, b: uint8, present: seq<bool>): (w: RxView)
    requires v.Fits() && |present| == DBG_FCN_COUNT
    ensures w.Fits() && w.cap == v.cap
  {
    var r := NextRState(v.rState, b);
    var fifo: (seq<uint8>, bool) :=
      if b == STX_BYTE && v.rState == RIdle then ([], false)
      else if !IsFraming(b) && v.rState == RBusy then
        (if |v.data| < v.cap then v.data + [b] else v.data, v.ovfl || |v.data| == v.cap)
      else (v.data, v.ovfl);
    var call := DbgCall(r, v.dbg, b, present);
    RxView(r, NextDbg(r, v.dbg, b), fifo.0, v.cap, fifo.1, v.calls + (if call.Some? then [call.value] else []))
  }

  function ReceiveAll(v: RxView, bs: seq<uint8>, present: seq<bool>): (w: RxView)
    requires v.Fits() && |present| == DBG_FCN_COUNT
    ensures w.Fits() && w.cap == v.cap
    decreases |bs|
  {
    if bs == [] then v else ReceiveAll(ReceiveStep(v, bs[0], present), bs[1..], present)
  }

  lemma {:induction false} ReceiveAllAppend(v: RxView, a: seq<uint8>, b: seq<uint8>, present: seq<bool>)
    requires v.Fits() && |present| == DBG_FCN_COUNT
    ensures ReceiveAll(v, a + b, present) == ReceiveAll(ReceiveAll(v, a, present), b, present)
    decreases |a|
  {
    if a != [] {
      var v' := ReceiveStep(v, a[0], present);
      assert (a + b)[0] == a[0] && (a + b)[1..] == a[1..] + b;
      ReceiveAllAppend(v', a[1..], b, present);
      calc {
        ReceiveAll(v, a + b, present);
        ReceiveAll(v', a[1..] + b, present);
        ReceiveAll(ReceiveAll(v', a[1..], present), b, present);
        ReceiveAll(ReceiveAll(v, a, present), b, present);
      }
    } else {
      assert a + b == b;
    }
  }

  /**
   * Inside a frame every non-framing byte is stored while there is room and sets
   * the overflow flag otherwise; no debug function can fire.
   */
  lemma {:induction false} ReceiveBody(v: RxView, p: seq<uint8>, present: seq<bool>)
    requires v.Fits() && |present| == DBG_FCN_COUNT
    requires v.rState == RBusy
    requires forall i :: 0 <= i < |p| ==> !IsFraming(p[i])
    ensures ReceiveAll(v, p, present) ==
      v.(dbg := if p == [] then v.dbg else DbgIdle,
         data := (v.data + p)[..Min(|v.data| + |p|, v.cap)],
         ovfl := v.ovfl || |v.data| + |p| > v.cap)
    decreases |p|
  {
    if p != [] {
      var w := ReceiveStep(v, p[0], present);
      ReceiveBody(w, p[1..], present);
      if |v.data| < v.cap {
        assert w.data + p[1..] == v.data + p;
      } else {
        assert (w.data + p[1..])[..v.cap] == (v.data + p)[..v.cap];
      }
    }
  }

  /**
   * Framing: from the idle state, STX, a payload free of STX/ETX, and ETX leave the
   * frame pending with the payload in the FIFO (cut at its capacity, with the
   * overflow flag raised exactly when the payload did not fit), and call no
   * debug function.
   */
  lemma FrameReceived(v: RxView, payload: seq<uint8>, present: seq<bool>)
    requires v.Fits() && |present| == DBG_FCN_COUNT
    requires v.rState == RIdle
    requires forall i :: 0 <= i < |payload| ==> !IsFraming(payload[i])
    ensures ReceiveAll(v, [STX_BYTE] + payload + [ETX_BYTE], present) ==
      v.(rState := RPending, dbg := DbgIdle,
         data := payload[..Min(|payload|, v.cap)], ovfl := |payload| > v.cap)
  {
    var w := ReceiveStep(v, STX_BYTE, present);
    assert w == v.(rState := RBusy, dbg := DbgIdle, data := [], ovfl := false);
    ReceiveAllAppend(v, [STX_BYTE] + payload, [ETX_BYTE], present);
    ReceiveAllAppend(v, [STX_BYTE], payload, present);
    ReceiveBody(w, payload, present);
    assert ([] + payload) == payload;
  }

  /**
   * Debug activation: between frames, 'D','b','g' and a digit call that digit's
   * debug function when it is present, and leave the debug state idle again.
   */
  lemma DebugActivation(v: RxView, digit: uint8, present: seq<bool>)
    requires v.Fits() && |present| == DBG_FCN_COUNT
    requires v.rState == RIdle && v.dbg == DbgIdle
    requires '0' as int <= digit <= '9' as int
    ensures var k := digit - '0' as int;
      ReceiveAll(v, ['D' as int, 'b' as int, 'g' as int, digit], present) ==
      v.(calls := v.calls + (if present[k] then [k] else []))
  {
    var bs: seq<uint8> := ['D' as int, 'b' as int, 'g' as int, digit];
    var k := digit - '0' as int;
    var v1 := ReceiveStep(v, bs[0], present);
    assert v1 == v.(dbg := DbgS1);
    var v2 := ReceiveStep(v1, bs[1], present);
    assert v2 == v.(dbg := DbgS2);
    var v3 := ReceiveStep(v2, bs[2], present);
    assert v3 == v.(dbg := DbgS3);
    assert DbgDigit(digit) == k;
    var v4 := ReceiveStep(v3, digit, present);
    assert v4 == v.(calls := v.calls + (if present[k] then [k] else []));
    assert bs[1..][0] == bs[1] && bs[1..][1..] == bs[2..];
    assert bs[2..][0] == bs[2] && bs[2..][1..] == bs[3..];
    assert bs[3..][0] == bs[3] && bs[3..][1..] == [];
    calc {
      ReceiveAll(v, bs, present);
      ReceiveAll(v1, bs[1..], present);
      ReceiveAll(v2, bs[2..], present);
      ReceiveAll(v3, bs[3..], present);
      ReceiveAll(v4, [], present);
    }
  }

  /** A wrong byte in the activation sequence sends the debug state back to idle. */
  lemma DebugReset(v: RxView, b: uint8, present: seq<bool>)
    requires v.Fits() && |present| == DBG_FCN_COUNT
    requires v.rState == RIdle && !IsFraming(b)
    requires (v.dbg == DbgIdle && b != 'D' as int) || (v.dbg == DbgS1 && b != 'b' as int) ||
             (v.dbg == DbgS2 && b != 'g' as int)
    ensures ReceiveStep(v, b, present) == v.(dbg := DbgIdle)
  {
  }

  // ---------------------------------------------------------------------------
  // Transmit side, as a function of the state it reads and writes

  /**
   * Everything `transmitStateMachine` reads or changes: the transmit state, the
   * offset and remaining length of the buffer being sent, and the bytes the
   * transmit callback has put on the line.
   */
  datatype TxView = TxView(tState: TState, off: nat, len: uint8, wire: seq<uint8>)

  /**
   * What one call of the state machine is told by its callbacks: the two busy
   * queries (the second only asked when the first says busy) and the byte count
   * the transmit callback reports for a buffer chunk.
   */
  datatype TxInput = TxInput(busy1: bool, busy2: bool, sent: uint8)

  /** Before and while the buffer is sent, the remaining chunk lies inside the buffer. */
  predicate TxFits(v: TxView, n: nat)
  {
    (v.tState == SendStx || v.tState == SendBuffer) ==> v.off + v.len <= n
  }

  /** One call of `transmitStateMachine` (Datalink.c:124-162) over buffer `data`. */
  function TxStep(v: TxView, i: TxInput, data: seq<uint8>): (w: Option<TxView>)
    requires TxFits(v, |data|)
    ensures w.Some? ==> TxFits(w.value, |data|)
  {
    if i.busy1 && i.busy2 then Some(v)
    else match v.tState
      case SendStx => Some(v.(tState := SendBuffer, wire := v.wire + [STX_BYTE]))
      case SendBuffer =>
        // A callback that reports more bytes than it was handed is outside the model.
        if i.sent > v.len then None
        else
          var rest := v.len - i.sent;
          Some(TxView(if rest == 0 then SendEtx else SendBuffer, v.off + i.sent, rest,
                      v.wire + data[v.off..v.off + i.sent]))
      case SendEtx => Some(v.(tState := Ready, wire := v.wire + [ETX_BYTE]))
      case _ => Some(v)
  }

  function TxRun(v: TxView, ins: seq<TxInput>, data: seq<uint8>): (w: Option<TxView>)
    requires TxFits(v, |data|)
    decreases |ins|
  {
    if ins == [] then Some(v)
    else match TxStep(v, ins[0], data)
      case None => None
      case Some(v') => TxRun(v', ins[1..], data)
  }

  /** READY is only left through `acknowledgeTx`: the state machine does nothing there. */
  lemma {:induction false} TxRunReady(v: TxView, ins: seq<TxInput>, data: seq<uint8>)
    requires v.tState == Ready
    ensures TxRun(v, ins, data) == Some(v)
    decreases |ins|
  {
    if ins != [] {
      TxRunReady(v, ins[1..], data);
    }
  }

  lemma {:induction false} TxRunFromBuffer(v: TxView, ins: seq<TxInput>, data: seq<uint8>, n: nat)
    requires v.tState in {SendBuffer, SendEtx, Ready}
    requires v.tState == SendBuffer ==> v.off + v.len == n <= |data|
    requires v.tState != SendBuffer ==> v.off == n <= |data|
    requires TxRun(v, ins, data).Some? && TxRun(v, ins, data).value.tState == Ready
    ensures v.tState == SendBuffer ==> TxRun(v, ins, data).value.wire == v.wire + data[v.off..n] + [ETX_BYTE]
    ensures v.tState == SendEtx ==> TxRun(v, ins, data).value.wire == v.wire + [ETX_BYTE]
    ensures v.tState == Ready ==> TxRun(v, ins, data).value.wire == v.wire
    decreases |ins|
  {
    if ins == [] {
    } else {
      var w := TxStep(v, ins[0], data).value;
      TxRunFromBuffer(w, ins[1..], data, n);
      if v.tState == SendBuffer && !(ins[0].busy1 && ins[0].busy2) {
        assert data[v.off..n] == data[v.off..w.off] + data[w.off..n];
      }
    }
  }

  /**
   * Transmission: whatever the busy answers and chunk sizes, a run that starts at
   * SEND_STX with `n` buffered bytes and reaches READY has put STX, those `n`
   * bytes in order, and ETX on the line, and nothing else.
   */
  lemma FrameTransmitted(v: TxView, ins: seq<TxInput>, data: seq<uint8>)
    requires v.tState == SendStx && v.off == 0 && v.len <= |data|
    requires TxRun(v, ins, data).Some? && TxRun(v, ins, data).value.tState == Ready
    ensures TxRun(v, ins, data).value.wire == v.wire + [STX_BYTE] + data[..v.len] + [ETX_BYTE]
  {
    var k := 0;
    var u := v;
    while k < |ins| && TxStep(u, ins[k], data).value.tState == SendStx
      invariant 0 <= k <= |ins| && u == v
      invariant TxRun(v, ins, data) == TxRun(u, ins[k..], data)
      decreases |ins| - k
    {
      assert ins[k..][1..] == ins[k + 1..];
      k := k + 1;
    }
    assert k < |ins|;
    var w := TxStep(u, ins[k], data).value;
    assert ins[k..][1..] == ins[k + 1..];
    assert TxRun(v, ins, data) == TxRun(w, ins[k + 1..], data);
    TxRunFromBuffer(w, ins[k + 1..], data, v.len);
  }

  // ---------------------------------------------------------------------------
  // The link instance (`DATALINK`)

  class Link {
    var rState: RState
    var dbgState: DbgState
    var tState: TState
    /** `txInfo.pui8_buf`: the buffer being sent and the offset reached in it. */
    var txArr: array<uint8>
    var txOff: nat
    /** `txInfo.ui8_bufLen`: bytes still to send. */
    var txLen: uint8
    /** Which entries of `dbgFcnArray` are non-null. */
    var dbgPresent: seq<bool>
    var hasTxCallback: bool
    var hasBusyCallback: bool
    /** Event log: debug functions called, in order. */
    var dbgCalls: seq<nat>
    /** Event log: bytes the transmit callback has put on the line. */
    var wire: seq<uint8>

    ghost predicate Valid()
      reads this
    {
      |dbgPresent| == DBG_FCN_COUNT &&
      TxFits(TxOf(), txArr.Length)
    }

    ghost function RxOf(rx: FifoBuf): RxView
      reads this, rx, rx.buf
      requires rx.Valid() && rx.Consistent()
    {
      RxView(rState, dbgState, rx.Contents(), rx.bufLen, rx.ovfl, dbgCalls)
    }

    ghost function TxOf(): TxView
      reads this
    {
      TxView(tState, txOff, txLen, wire)
    }

    constructor (present: seq<bool>, hasTx: bool, hasBusy: bool, arr: array<uint8>)
      requires |present| == DBG_FCN_COUNT
      ensures Valid() && rState == RIdle && dbgState == DbgIdle && tState == TIdle
      ensures dbgPresent == present && hasTxCallback == hasTx && hasBusyCallback == hasBusy
      ensures dbgCalls == [] && wire == []
    {
      rState, dbgState, tState := RIdle, DbgIdle, TIdle;
      txArr, txOff, txLen := arr, 0, 0;
      dbgPresent := present;
      hasTxCallback, hasBusyCallback := hasTx, hasBusy;
      dbgCalls, wire := [], [];
    }

    /** `receive` (Datalink.c:23-93). */
    method Receive(rx: FifoBuf, b: uint8)
      requires Valid() && rx.Valid() && rx.Consistent()
      modifies this, rx, rx.buf
      ensures Valid() && rx.Valid() && rx.Consistent() && rx.buf == old(rx.buf)
      ensures RxOf(rx) == ReceiveStep(old(RxOf(rx)), b, dbgPresent)
      ensures dbgPresent == old(dbgPresent) && TxOf() == old(TxOf()) && txArr == old(txArr)
    {
      ghost var w := ReceiveStep(RxOf(rx), b, dbgPresent);
      ReceiveFraming(rx, b);
      DebugActivationStep(b);
      assert rx.Contents() == w.data && rx.ovfl == w.ovfl && rx.bufLen == w.cap;
    }

    /** The frame half of `receive` (Datalink.c:25-56). */
    method ReceiveFraming(rx: FifoBuf, b: uint8)
      requires Valid() && rx.Valid() && rx.Consistent()
      modifies this`rState, rx, rx.buf
      ensures Valid() && rx.Valid() && rx.Consistent() && rx.buf == old(rx.buf)
      ensures var w := ReceiveStep(old(RxOf(rx)), b, dbgPresent);
        rState == w.rState && rx.Contents() == w.data && rx.ovfl == w.ovfl
    {
      if b == STX_BYTE {
        if rState == RIdle {
          rx.FlushBuf();
          rState := RBusy;
        } else {
          rState := RIdle;
        }
      } else if b == ETX_BYTE {
        if rState == RBusy {
          rState := RPending;
        } else {
          rState := RIdle;
        }
      } else if rState == RBusy {
        rx.PutElem(b);
      }
    }

    /**
     * The debug-activation half of `receive` (Datalink.c:58-92), run on the frame
     * state the byte has just produced.
     */
    method DebugActivationStep(b: uint8)
      requires Valid()
      modifies this`dbgState, this`dbgCalls
      ensures Valid()
      ensures dbgState == NextDbg(rState, old(dbgState), b)
      ensures var call := DbgCall(rState, old(dbgState), b, dbgPresent);
        dbgCalls == old(dbgCalls) + (if call.Some? then [call.value] else [])
    {
      if rState == RIdle {
        match dbgState
        case DbgIdle =>
          dbgState := if b == 'D' as int then DbgS1 else DbgIdle;
        case DbgS1 =>
          dbgState := if b == 'b' as int then DbgS2 else DbgIdle;
        case DbgS2 =>
          dbgState := if b == 'g' as int then DbgS3 else DbgIdle;
        case DbgS3 =>
          var parsed: int8 := ToInt8(b - '0' as int);
          if 0 <= parsed < 10 {
            if dbgPresent[parsed] {
              dbgCalls := dbgCalls + [parsed];
            }
          }
          dbgState := DbgIdle;
      } else {
        dbgState := DbgIdle;
      }
    }

    /**
     * `transmit` (Datalink.c:108-121): refuses without both callbacks; from the idle
     * state it captures the transmit FIFO's contents and starts with STX.
     */
    method Transmit(tx: FifoBuf) returns (ok: bool)
      requires Valid() && tx.Valid() && tx.Consistent()
      modifies this
      ensures Valid() && ok == (hasTxCallback && hasBusyCallback)
      ensures ok && old(tState) == TIdle ==>
        tState == SendStx && txArr == tx.buf && txOff == 0 && txLen == |tx.Contents()|
      ensures !(ok && old(tState) == TIdle) ==>
        tState == old(tState) && txArr == old(txArr) && txOff == old(txOff) && txLen == old(txLen)
      ensures rState == old(rState) && dbgState == old(dbgState) && dbgCalls == old(dbgCalls)
      ensures wire == old(wire) && dbgPresent == old(dbgPresent)
      ensures hasTxCallback == old(hasTxCallback) && hasBusyCallback == old(hasBusyCallback)
    {
      if !hasTxCallback || !hasBusyCallback {
        return false;
      }
      if tState == TIdle {
        var size, start := tx.ReadBuf();
        txArr := tx.buf;
        txOff := start;
        txLen := size;
        tState := SendStx;
      }
      return true;
    }

    /**
     * `transmitStateMachine` (Datalink.c:124-162). `busy1`/`busy2` are the answers of
     * the busy callback (asked twice); `sent` is what the transmit callback reports
     * for a buffer chunk, at most what it was handed.
     */
    method TransmitStateMachine(busy1: bool, busy2: bool, sent: uint8)
      requires Valid() && hasTxCallback && hasBusyCallback
      requires tState == SendBuffer ==> sent <= txLen
      modifies this
      ensures Valid() && txArr == old(txArr)
      ensures TxStep(old(TxOf()), TxInput(busy1, busy2, sent), txArr[..]) == Some(TxOf())
      ensures rState == old(rState) && dbgState == old(dbgState) && dbgCalls == old(dbgCalls)
      ensures dbgPresent == old(dbgPresent)
      ensures hasTxCallback == old(hasTxCallback) && hasBusyCallback == old(hasBusyCallback)
    {
      if busy1 {
        if busy2 {
          return;
        }
      }
      match tState
      case SendStx =>
        wire := wire + [STX_BYTE];
        tState := SendBuffer;
      case SendBuffer =>
        wire := wire + txArr[txOff..txOff + sent];
        txLen := txLen - sent;
        txOff := txOff + sent;
        if txLen == 0 {
          tState := SendEtx;
        }
      case SendEtx =>
        wire := wire + [ETX_BYTE];
        tState := Ready;
      case _ =>
    }

    /** `acknowledgeTx` (Datalink.c:165-168). */
    method AcknowledgeTx()
      requires Valid()
      modifies this
      ensures Valid() && tState == TIdle
      ensures rState == old(rState) && dbgState == old(dbgState) && dbgCalls == old(dbgCalls)
      ensures wire == old(wire) && dbgPresent == old(dbgPresent)
      ensures txArr == old(txArr) && txOff == old(txOff) && txLen == old(txLen)
      ensures hasTxCallback == old(hasTxCallback) && hasBusyCallback == old(hasBusyCallback)
    {
      tState := TIdle;
    }
  }
}
