/**
 * The session of `BematechDrv` (usbdriver.cpp:42-378) as functions on the
 * driver's fields and the library: each operation maps a `Session` and a
 * `UsbState` to its result, the fields after it and the library after it.
 * The class in module Driver follows these functions step by step; the
 * properties of the driver are the lemmas of this module.
 */
module Lifecycle {
  import opened Wrappers
  import opened Usb
  import opened Scanner
  import opened Transport

  // Default endpoints of a new driver (usbdriver.cpp:36-37).
  const EP_OUT := 0x01
  const EP_IN := 0x82
  /** The third endpoint `close` clears, a literal in the source. */
  const EP_AUX := 0x83
  /** Seconds `reset` waits for product 3 to restart. */
  const RESET_WAIT := 7

  // Printer commands.
  const SET_MODE: seq<byte> := [0x1D, 0xF9, 0x35, 0x00]
  const RESET_PRINTER: seq<byte> := [0x1B, 0x40]
  const RESTORE_MODE: seq<byte> := [0x1D, 0xF9, 0x1F, 0x31]
  const PRODUCT_RESET: seq<byte> := [0x1D, 0xF8, 0x46]
  const GET_COMMAND_SET: seq<byte> := [0x1D, 0xF9, 0x43, 0x00]

  /**
   * The driver's fields (usbdriver.h:46-50). `dev` is the handle, 0 for
   * none; `endPointRead` is `Indeterminate` after a scan that found no
   * bulk-IN endpoint.
   */
  datatype Session = Session(dev: int, productId: int, interfaceId: int,
                             endPointWrite: int, endPointRead: EpAddr)

  /** A result, the fields after the operation and the library after it. */
  datatype Outcome<+T> = Outcome(result: T, session: Session, usb: UsbState)

  /** The fields and the library after an operation without a result. */
  datatype Transition = Transition(session: Session, usb: UsbState)

  function Send(s: Session, u: UsbState, data: seq<byte>): Step<bool> {
    SendCommandStep(u, s.dev, s.endPointWrite, data)
  }

  function Control(s: Session, u: UsbState, request: int, value: int): Step<int> {
    ControlMessageStep(u, s.dev, request, value, s.interfaceId, [])
  }

  // ---------------------------------------------------------------------
  // sendPreCommand, sendPostCommand, initialize.

  /** `sendPreCommand` (usbdriver.cpp:259-274): set the mode, then reset the printer. */
  function PreCommandStep(s: Session, u: UsbState): Step<bool> {
    var mode := Send(s, u, SET_MODE);
    if !mode.result then Step(false, mode.usb) else Send(s, mode.usb, RESET_PRINTER)
  }

  /** `sendPostCommand` (usbdriver.cpp:276-284): restore the mode. */
  function PostCommandStep(s: Session, u: UsbState): Step<bool> {
    Send(s, u, RESTORE_MODE)
  }

  /**
   * The pre-command writes the set-mode command, and the reset command only
   * after set-mode succeeded; it succeeds exactly when both writes did, and
   * a failed set-mode ends it without any write of the reset. Each command
   * goes out whole first; a refused first write ends it there, false; two
   * writes taken whole complete it.
   */
  lemma PreCommandOrder(s: Session, u: UsbState)
    ensures var r := PreCommandStep(s, u);
      var modeRun := Chunked(SET_MODE, u.writes);
      var rest := Drop(u.writes, |modeRun.chunks|);
      var resetRun := Chunked(RESET_PRINTER, rest);
      var modeCalls := u.trace + WriteCalls(s.dev, s.endPointWrite, modeRun.chunks);
      var mode := BulkWrite(s.dev, s.endPointWrite, SET_MODE, TRANSFER_TIMEOUT);
      var reset := BulkWrite(s.dev, s.endPointWrite, RESET_PRINTER, TRANSFER_TIMEOUT);
      (r.result <==> modeRun.ok && resetRun.ok) &&
      (!modeRun.ok ==> r.usb == u.(writes := rest, trace := modeCalls)) &&
      (modeRun.ok ==>
        r.usb == u.(writes := Drop(rest, |resetRun.chunks|),
                    trace := modeCalls + WriteCalls(s.dev, s.endPointWrite, resetRun.chunks)) &&
        |resetRun.chunks| > 0 && resetRun.chunks[0] == RESET_PRINTER) &&
      |r.usb.trace| > |u.trace| && r.usb.trace[|u.trace|] == mode &&
      (AnswerAt(u.writes, 0, WRITE_TIMED_OUT) < 0 ==>
        r == Step(false, u.(writes := Drop(u.writes, 1), trace := u.trace + [mode]))) &&
      (AnswerAt(u.writes, 0, WRITE_TIMED_OUT) >= |SET_MODE| &&
       AnswerAt(u.writes, 1, WRITE_TIMED_OUT) >= |RESET_PRINTER| ==>
        r == Step(true, u.(writes := Drop(u.writes, 2), trace := u.trace + [mode, reset])))
  {
    ShortCommand(SET_MODE, u.writes);
    var m := Send(s, u, SET_MODE);
    ShortCommand(RESET_PRINTER, m.usb.writes);
    PreCommandRuns(s, u);
    assert (u.trace + WriteCalls(s.dev, s.endPointWrite, Chunked(SET_MODE, u.writes).chunks))[|u.trace|]
      == BulkWrite(s.dev, s.endPointWrite, SET_MODE, TRANSFER_TIMEOUT);
    if AnswerAt(u.writes, 0, WRITE_TIMED_OUT) >= |SET_MODE| {
      assert m.usb.writes == Drop(u.writes, 1);
      assert AnswerAt(m.usb.writes, 0, WRITE_TIMED_OUT) == AnswerAt(u.writes, 1, WRITE_TIMED_OUT);
      if AnswerAt(u.writes, 1, WRITE_TIMED_OUT) >= |RESET_PRINTER| {
        assert Drop(m.usb.writes, 1) == Drop(u.writes, 2);
        assert WriteCalls(s.dev, s.endPointWrite, [SET_MODE]) ==
          [BulkWrite(s.dev, s.endPointWrite, SET_MODE, TRANSFER_TIMEOUT)];
        assert WriteCalls(s.dev, s.endPointWrite, [RESET_PRINTER]) ==
          [BulkWrite(s.dev, s.endPointWrite, RESET_PRINTER, TRANSFER_TIMEOUT)];
      }
    } else if AnswerAt(u.writes, 0, WRITE_TIMED_OUT) < 0 {
      assert WriteCalls(s.dev, s.endPointWrite, [SET_MODE]) ==
        [BulkWrite(s.dev, s.endPointWrite, SET_MODE, TRANSFER_TIMEOUT)];
    }
  }

  /** The pre-command as the two write runs of its commands. */
  lemma PreCommandRuns(s: Session, u: UsbState)
    ensures var r := PreCommandStep(s, u);
      var modeRun := Chunked(SET_MODE, u.writes);
      var rest := Drop(u.writes, |modeRun.chunks|);
      var resetRun := Chunked(RESET_PRINTER, rest);
      var modeCalls := u.trace + WriteCalls(s.dev, s.endPointWrite, modeRun.chunks);
      (r.result <==> modeRun.ok && resetRun.ok) &&
      (!modeRun.ok ==> r.usb == u.(writes := rest, trace := modeCalls)) &&
      (modeRun.ok ==>
        r.usb == u.(writes := Drop(rest, |resetRun.chunks|),
                    trace := modeCalls + WriteCalls(s.dev, s.endPointWrite, resetRun.chunks)))
  {
  }

  /**
   * The pre-command succeeds exactly when no write of set-mode and no write
   * of the reset that follows it was answered negatively.
   */
  lemma PreCommandResult(s: Session, u: UsbState)
    ensures var modeRun := Chunked(SET_MODE, u.writes);
      var rest := Drop(u.writes, |modeRun.chunks|);
      var resetRun := Chunked(RESET_PRINTER, rest);
      PreCommandStep(s, u).result <==>
        (forall k :: 0 <= k < |modeRun.chunks| ==> AnswerAt(u.writes, k, WRITE_TIMED_OUT) >= 0) &&
        (forall k :: 0 <= k < |resetRun.chunks| ==> AnswerAt(rest, k, WRITE_TIMED_OUT) >= 0)
  {
    var modeRun := Chunked(SET_MODE, u.writes);
    PreCommandRuns(s, u);
    ChunkedResult(SET_MODE, u.writes);
    ChunkedResult(RESET_PRINTER, Drop(u.writes, |modeRun.chunks|));
  }

  /** `initialize` (usbdriver.cpp:238-257), branch by branch as written. */
  function InitializeStep(s: Session, u: UsbState): Step<bool> {
    if s.productId == 1 then
      var first := Control(s, u, 0x0000, 0xFFFF);
      if first.result < 0 then Step(false, first.usb)
      else
        var second := Control(s, first.usb, 0x01, 0x0007);
        if second.result < 0 then Step(false, second.usb) else PreCommandStep(s, second.usb)
    else if s.productId == 3 then
      var only := Control(s, u, 0x22, 0x0003);
      if only.result < 0 then Step(false, only.usb) else PreCommandStep(s, only.usb)
    else PreCommandStep(s, u)
  }

  /** The (request, value) pairs of the control handshake of each product. */
  function HandshakeRequests(productId: int): seq<(int, int)> {
    if productId == 1 then [(0x0000, 0xFFFF), (0x01, 0x0007)]
    else if productId == 3 then [(0x22, 0x0003)]
    else []
  }

  /** Reference handshake: the requests in order, stopping at the first failure; true when all pass. */
  function RunHandshake(s: Session, u: UsbState, requests: seq<(int, int)>): Step<bool>
    decreases |requests|
  {
    if requests == [] then Step(true, u)
    else
      var c := Control(s, u, requests[0].0, requests[0].1);
      if c.result < 0 then Step(false, c.usb) else RunHandshake(s, c.usb, requests[1..])
  }

  function ControlCalls(s: Session, requests: seq<(int, int)>): (calls: seq<Call>)
    ensures |calls| == |requests|
    ensures forall k :: 0 <= k < |requests| ==>
      calls[k] == ControlMsg(s.dev, CONTROL_REQUEST_TYPE, requests[k].0, requests[k].1, s.interfaceId, [],
                             TRANSFER_TIMEOUT)
  {
    seq(|requests|, k requires 0 <= k < |requests| =>
      ControlMsg(s.dev, CONTROL_REQUEST_TYPE, requests[k].0, requests[k].1, s.interfaceId, [], TRANSFER_TIMEOUT))
  }

  /** How many of the next m control answers succeed before the first failure. */
  function ControlsPassed(answers: seq<int>, m: nat): (n: nat)
    ensures n <= m
    ensures forall k: nat :: k < n ==> AnswerAt(answers, k, CONTROL_TIMED_OUT) >= 0
    ensures n < m ==> AnswerAt(answers, n, CONTROL_TIMED_OUT) < 0
    decreases m
  {
    if m == 0 || AnswerAt(answers, 0, CONTROL_TIMED_OUT) < 0 then 0
    else
      assert forall k: nat :: 0 < k ==>
        AnswerAt(answers, k, CONTROL_TIMED_OUT) == AnswerAt(Rest(answers), k - 1, CONTROL_TIMED_OUT);
      1 + ControlsPassed(Rest(answers), m - 1)
  }

  lemma AppendAssoc<T>(a: seq<T>, b: seq<T>, c: seq<T>)
    ensures (a + b) + c == a + (b + c)
  {
  }

  lemma DropRest<T>(script: seq<T>, n: nat)
    ensures Drop(Rest(script), n) == Drop(script, n + 1)
  {
  }

  /** The calls of the first k + 1 requests are the first call followed by those of the next k. */
  lemma ControlCallsCons(s: Session, t: seq<Call>, requests: seq<(int, int)>, k: nat)
    requires k < |requests|
    ensures (t + [ControlCalls(s, requests[..1])[0]]) + ControlCalls(s, requests[1..][..k]) ==
      t + ControlCalls(s, requests[..k + 1])
  {
    var head := ControlCalls(s, requests[..1])[0];
    var tail := ControlCalls(s, requests[1..][..k]);
    var whole := ControlCalls(s, requests[..k + 1]);
    assert [head] + tail == whole by {
      forall j | 0 <= j < |whole| ensures ([head] + tail)[j] == whole[j] {
        if j > 0 {
          assert requests[1..][..k][j - 1] == requests[..k + 1][j];
        }
      }
    }
    AppendAssoc(t, [head], tail);
  }

  /** The state after the handshake has issued `sent` requests from `u`. */
  function AfterControls(s: Session, u: UsbState, requests: seq<(int, int)>, sent: nat): UsbState
    requires sent <= |requests|
  {
    u.(controls := Drop(u.controls, sent), trace := u.trace + ControlCalls(s, requests[..sent]))
  }

  /** One successful request moves the handshake's end state by one request. */
  lemma AfterControlsStep(s: Session, u: UsbState, requests: seq<(int, int)>, sent: nat)
    requires sent < |requests|
    ensures var c := Control(s, u, requests[0].0, requests[0].1);
      AfterControls(s, c.usb, requests[1..], sent) == AfterControls(s, u, requests, sent + 1)
  {
    var c := Control(s, u, requests[0].0, requests[0].1);
    assert c.usb.trace == u.trace + [ControlCalls(s, requests[..1])[0]];
    ControlCallsCons(s, u.trace, requests, sent);
    DropRest(u.controls, sent);
  }

  /**
   * The handshake issues its requests in order up to and including the
   * first that fails, and passes exactly when none fails.
   */
  lemma {:induction false} HandshakeOrder(s: Session, u: UsbState, requests: seq<(int, int)>)
    ensures var n := ControlsPassed(u.controls, |requests|);
      RunHandshake(s, u, requests) ==
        Step(n == |requests|, AfterControls(s, u, requests, if n < |requests| then n + 1 else n))
    decreases |requests|
  {
    if requests == [] {
      HandshakeOrderEmpty(s, u);
    } else if Control(s, u, requests[0].0, requests[0].1).result < 0 {
      HandshakeOrderFail(s, u, requests);
    } else {
      HandshakeOrder(s, Control(s, u, requests[0].0, requests[0].1).usb, requests[1..]);
      HandshakeOrderStep(s, u, requests);
    }
  }

  lemma HandshakeOrderEmpty(s: Session, u: UsbState)
    ensures RunHandshake(s, u, []) == Step(ControlsPassed(u.controls, 0) == 0, AfterControls(s, u, [], 0))
  {
    AfterNoControls(s, u, []);
  }

  /** A first request that fails ends the handshake there. */
  lemma HandshakeOrderFail(s: Session, u: UsbState, requests: seq<(int, int)>)
    requires |requests| > 0 && Control(s, u, requests[0].0, requests[0].1).result < 0
    ensures ControlsPassed(u.controls, |requests|) == 0
    ensures RunHandshake(s, u, requests) == Step(false, AfterControls(s, u, requests, 1))
  {
    var c := Control(s, u, requests[0].0, requests[0].1);
    assert AnswerAt(u.controls, 0, CONTROL_TIMED_OUT) < 0;
    AfterNoControls(s, c.usb, requests[1..]);
    AfterControlsStep(s, u, requests, 0);
  }

  lemma AfterNoControls(s: Session, u: UsbState, requests: seq<(int, int)>)
    ensures AfterControls(s, u, requests, 0) == u
  {
    assert u.trace + ControlCalls(s, requests[..0]) == u.trace;
    assert Drop(u.controls, 0) == u.controls;
  }

  /** The inductive step of HandshakeOrder: a successful first request, then the rest. */
  lemma HandshakeOrderStep(s: Session, u: UsbState, requests: seq<(int, int)>)
    requires |requests| > 0
    requires Control(s, u, requests[0].0, requests[0].1).result >= 0
    requires var c := Control(s, u, requests[0].0, requests[0].1);
      var n' := ControlsPassed(c.usb.controls, |requests| - 1);
      RunHandshake(s, c.usb, requests[1..]) ==
        Step(n' == |requests| - 1, AfterControls(s, c.usb, requests[1..], if n' < |requests| - 1 then n' + 1 else n'))
    ensures var n := ControlsPassed(u.controls, |requests|);
      RunHandshake(s, u, requests) ==
        Step(n == |requests|, AfterControls(s, u, requests, if n < |requests| then n + 1 else n))
  {
    var c := Control(s, u, requests[0].0, requests[0].1);
    var tail := requests[1..];
    var n' := ControlsPassed(c.usb.controls, |tail|);
    var n := ControlsPassed(u.controls, |requests|);
    assert n == n' + 1 by {
      assert AnswerAt(u.controls, 0, CONTROL_TIMED_OUT) >= 0;
      assert Rest(u.controls) == c.usb.controls;
    }
    var sent' := if n' < |tail| then n' + 1 else n';
    var sent := if n < |requests| then n + 1 else n;
    assert sent == sent' + 1;
    var rest := RunHandshake(s, c.usb, tail);
    assert RunHandshake(s, u, requests) == rest;
    assert rest == Step(n' == |tail|, AfterControls(s, c.usb, tail, sent'));
    AfterControlsStep(s, u, requests, sent');
    assert AfterControls(s, u, requests, sent) == AfterControls(s, u, requests, sent' + 1);
  }

  /** `initialize` runs the reference handshake of its product, then the pre-command if it passed. */
  lemma InitializeIsHandshake(s: Session, u: UsbState)
    ensures var h := RunHandshake(s, u, HandshakeRequests(s.productId));
      InitializeStep(s, u) == if h.result then PreCommandStep(s, h.usb) else h
  {
    var reqs := HandshakeRequests(s.productId);
    if s.productId == 1 {
      var first := Control(s, u, 0x0000, 0xFFFF);
      assert reqs[0] == (0x0000, 0xFFFF) && reqs[1..] == [(0x01, 0x0007)];
      if first.result >= 0 {
        var tail := reqs[1..];
        assert tail[0] == (0x01, 0x0007) && tail[1..] == [];
        var second := Control(s, first.usb, 0x01, 0x0007);
        assert RunHandshake(s, first.usb, tail) ==
          if second.result < 0 then Step(false, second.usb) else RunHandshake(s, second.usb, []);
      }
    } else if s.productId == 3 {
      assert reqs[0] == (0x22, 0x0003) && reqs[1..] == [];
    }
  }

  /**
   * `initialize` sends its product's control requests in order; the first
   * failure returns false with nothing sent after it; when all succeed the
   * result is that of the pre-command.
   */
  lemma InitializeOrder(s: Session, u: UsbState)
    ensures var reqs := HandshakeRequests(s.productId);
      var n := ControlsPassed(u.controls, |reqs|);
      var r := InitializeStep(s, u);
      (n < |reqs| ==> !r.result && r.usb.trace == u.trace + ControlCalls(s, reqs[..n + 1])) &&
      (n == |reqs| ==> r == PreCommandStep(s, u.(controls := Drop(u.controls, n),
                                                 trace := u.trace + ControlCalls(s, reqs))))
  {
    var reqs := HandshakeRequests(s.productId);
    InitializeIsHandshake(s, u);
    HandshakeOrder(s, u, reqs);
    assert reqs[..|reqs|] == reqs;
  }

  // ---------------------------------------------------------------------
  // close and reset.

  /** `close` (usbdriver.cpp:198-228). */
  function CloseStep(s: Session, u: UsbState): Transition {
    if s.interfaceId == -1 then Transition(s, u)
    else if s.dev == 0 then Transition(s, u)
    else
      var restored := PostCommandStep(s, u).usb;
      var reset := if s.productId == 3 then Send(s, restored, PRODUCT_RESET).usb else restored;
      var cleared := UsbClearHalt(UsbClearHalt(UsbClearHalt(reset, s.dev, s.endPointRead),
                                               s.dev, Ep(s.endPointWrite)), s.dev, Ep(EP_AUX));
      var released := if s.dev != 0 then UsbReleaseInterface(cleared, s.dev, s.interfaceId) else cleared;
      var closed := if s.dev != 0 then UsbClose(released, s.dev) else released;
      Transition(s.(dev := 0), closed)
  }

  /** `close` does nothing without an interface id or without a handle. */
  lemma CloseSkips(s: Session, u: UsbState)
    requires s.interfaceId == -1 || s.dev == 0
    ensures CloseStep(s, u) == Transition(s, u)
  {
  }

  /**
   * A `close` that proceeds restores the mode, resets product 3, clears
   * the read, write and auxiliary endpoints, releases the interface and
   * closes the handle, in that order, whatever the writes answered; only
   * the handle is cleared, not the interface id.
   */
  lemma CloseTearsDown(s: Session, u: UsbState)
    requires s.interfaceId != -1 && s.dev != 0
    ensures var t := CloseStep(s, u);
      var restore := Chunked(RESTORE_MODE, u.writes).chunks;
      var rest := Drop(u.writes, |restore|);
      var reset := if s.productId == 3 then Chunked(PRODUCT_RESET, rest).chunks else [];
      t.session == s.(dev := 0) &&
      |restore| > 0 && restore[0] == RESTORE_MODE &&
      (s.productId == 3 ==> |reset| > 0 && reset[0] == PRODUCT_RESET) &&
      t.usb == u.(writes := Drop(rest, |reset|),
                  trace := u.trace + WriteCalls(s.dev, s.endPointWrite, restore)
                                   + WriteCalls(s.dev, s.endPointWrite, reset)
                                   + [ClearHalt(s.dev, s.endPointRead), ClearHalt(s.dev, Ep(s.endPointWrite)),
                                      ClearHalt(s.dev, Ep(EP_AUX)), ReleaseInterface(s.dev, s.interfaceId),
                                      Close(s.dev)])
  {
    var restore := Chunked(RESTORE_MODE, u.writes).chunks;
    var rest := Drop(u.writes, |restore|);
    var reset := if s.productId == 3 then Chunked(PRODUCT_RESET, rest).chunks else [];
    ShortCommand(RESTORE_MODE, u.writes);
    ShortCommand(PRODUCT_RESET, rest);
    var sent := u.(writes := Drop(rest, |reset|),
                   trace := u.trace + WriteCalls(s.dev, s.endPointWrite, restore)
                                    + WriteCalls(s.dev, s.endPointWrite, reset));
    assert CloseWrites: (if s.productId == 3 then Send(s, PostCommandStep(s, u).usb, PRODUCT_RESET).usb
                         else PostCommandStep(s, u).usb) == sent by {
      if s.productId != 3 {
        assert WriteCalls(s.dev, s.endPointWrite, []) == [];
        assert Drop(rest, 0) == rest;
      }
    }
    TearDownTrace(sent.trace, ClearHalt(s.dev, s.endPointRead), ClearHalt(s.dev, Ep(s.endPointWrite)),
                  ClearHalt(s.dev, Ep(EP_AUX)), ReleaseInterface(s.dev, s.interfaceId), Close(s.dev));
  }

  lemma TearDownTrace(t: seq<Call>, a: Call, b: Call, c: Call, d: Call, e: Call)
    ensures ((((t + [a]) + [b]) + [c]) + [d]) + [e] == t + [a, b, c, d, e]
  {
  }

  /** A second `close` after a first changes nothing. */
  lemma CloseTwice(s: Session, u: UsbState)
    ensures var t := CloseStep(s, u);
      CloseStep(t.session, t.usb) == t
  {
  }

  /** `reset` (usbdriver.cpp:230-236): close, wait 7 seconds for product 3, open again. */
  function ResetStep(s: Session, u: UsbState): Outcome<bool> {
    var closed := CloseStep(s, u);
    var waited := if closed.session.productId == 3 then Record(closed.usb, Sleep(RESET_WAIT)) else closed.usb;
    OpenStep(closed.session, waited)
  }

  /**
   * A reset of an open session closes it, waits only for product 3, and
   * then scans the bus afresh as `open` does.
   */
  lemma ResetReopens(s: Session, u: UsbState)
    requires s.interfaceId != -1 && s.dev != 0
    ensures var closed := CloseStep(s, u);
      var waited := if s.productId == 3 then closed.usb.trace + [Sleep(RESET_WAIT)] else closed.usb.trace;
      var r := ResetStep(s, u);
      r == OpenStep(s.(dev := 0), closed.usb.(trace := waited)) &&
      waited + [Init, FindBusses, FindDevices] <= r.usb.trace
  {
    var closed := CloseStep(s, u);
    CloseTearsDown(s, u);
    var waited := if s.productId == 3 then Record(closed.usb, Sleep(RESET_WAIT)) else closed.usb;
    OpenScans(closed.session, waited);
  }

  /**
   * A handle left by a failed `open` has no interface id yet: `close` then
   * does nothing and `reset` reports success without touching the device.
   */
  lemma ResetWithoutInterface(s: Session, u: UsbState)
    requires s.interfaceId == -1 && s.dev != 0
    ensures ResetStep(s, u) ==
      Outcome(true, s, if s.productId == 3 then u.(trace := u.trace + [Sleep(RESET_WAIT)]) else u)
  {
  }

  // ---------------------------------------------------------------------
  // open.

  /** Which of the two busy-retried calls of `open`. */
  datatype Acquire = Claim | AltSetting

  function Script(u: UsbState, req: Acquire): seq<int> {
    match req
    case Claim => u.claims
    case AltSetting => u.altSettings
  }

  function AttemptCall(h: int, req: Acquire, number: int): Call {
    match req
    case Claim => ClaimInterface(h, number)
    case AltSetting => SetAltInterface(h, number)
  }

  /** One `usb_claim_interface` or `usb_set_altinterface`; it uses up one answer of its script. */
  function Attempt(u: UsbState, h: int, req: Acquire, number: int): (r: Step<int>)
    ensures r.result != 0 && r.usb.errno == EBUSY ==> |Script(r.usb, req)| < |Script(u, req)|
  {
    match req
    case Claim => UsbClaimInterface(u, h, number)
    case AltSetting => UsbSetAltInterface(u, h, number)
  }

  /**
   * The retry loops of `open` (usbdriver.cpp:173-186): call again while the
   * call fails with errno EBUSY; succeed on 0, fail on any other errno.
   */
  function RetryWhileBusy(u: UsbState, h: int, req: Acquire, number: int): Step<bool>
    decreases |Script(u, req)|
  {
    var a := Attempt(u, h, req, number);
    if a.result == 0 then Step(true, a.usb)
    else if a.usb.errno != EBUSY then Step(false, a.usb)
    else RetryWhileBusy(a.usb, h, req, number)
  }

  /** How many answers in a row, from the first, are EBUSY. */
  function BusyPrefix(script: seq<int>): (n: nat)
    ensures n <= |script|
    ensures forall k :: 0 <= k < n ==> script[k] == EBUSY
    ensures n < |script| ==> script[n] != EBUSY
  {
    if |script| > 0 && script[0] == EBUSY then 1 + BusyPrefix(script[1..]) else 0
  }

  function Repeat<T>(x: T, n: nat): (r: seq<T>)
    ensures |r| == n
  {
    if n == 0 then [] else [x] + Repeat(x, n - 1)
  }

  /**
   * The retry makes one call per leading EBUSY answer and one more, and
   * succeeds exactly when the answer after the busy ones is 0; a script
   * that is all EBUSY ends in a failure once it is used up.
   */
  lemma {:induction false} RetryOutcome(u: UsbState, h: int, req: Acquire, number: int)
    ensures var script := Script(u, req);
      var n := BusyPrefix(script);
      var r := RetryWhileBusy(u, h, req, number);
      (r.result <==> n < |script| && script[n] == 0) &&
      r.usb.trace == u.trace + Repeat(AttemptCall(h, req, number), n + 1) &&
      Script(r.usb, req) == Drop(script, n + 1)
    decreases |Script(u, req)|
  {
    var script := Script(u, req);
    var a := Attempt(u, h, req, number);
    var call := AttemptCall(h, req, number);
    AttemptShape(u, h, req, number);
    if a.result == 0 {
    } else if a.usb.errno != EBUSY {
      assert BusyPrefix(script) == 0;
    } else {
      RetryOutcome(a.usb, h, req, number);
      var n' := BusyPrefix(script[1..]);
      assert BusyPrefix(script) == n' + 1;
      DropRest(script, n' + 1);
      RepeatCons(u.trace, call, n' + 1);
    }
  }

  /** One attempt records its call and uses up one answer; it tells success and busy apart as the answer does. */
  lemma AttemptShape(u: UsbState, h: int, req: Acquire, number: int)
    ensures var a := Attempt(u, h, req, number);
      var script := Script(u, req);
      a.usb.trace == u.trace + [AttemptCall(h, req, number)] &&
      Script(a.usb, req) == Rest(script) &&
      (a.result == 0 <==> |script| > 0 && script[0] == 0) &&
      (a.result != 0 && a.usb.errno == EBUSY <==> |script| > 0 && script[0] == EBUSY)
  {
  }

  lemma RepeatCons<T>(t: seq<T>, x: T, n: nat)
    ensures (t + [x]) + Repeat(x, n) == t + Repeat(x, n + 1)
  {
    assert Repeat(x, n + 1) == [x] + Repeat(x, n);
  }

  /**
   * The first steps of `open` on a closed session: the three discovery
   * calls, the last of which enumerates the bus afresh.
   */
  function Discover(u: UsbState): UsbState {
    UsbFindDevices(Record(Record(u, Init), FindBusses))
  }

  /** The tree the discovery of `open` finds. */
  function Enumerated(u: UsbState): seq<BusDesc> {
    if |u.enumerations| > 0 then u.enumerations[0] else u.busses
  }

  /** `open` (usbdriver.cpp:59-196). */
  function OpenStep(s: Session, u: UsbState): Outcome<bool> {
    if s.dev != 0 then Outcome(true, s, u)
    else
      var found := Discover(u);
      match Select(found.busses, s.productId)
      case None => Outcome(false, s, found)
      case Some(sel) =>
        SelectEndpointKinds(found.busses, s.productId);
        var p := sel.path;
        OpenSelected(s, found, p, DeviceAt(found.busses, p).configs[p.config].configurationValue,
                     AltAt(found.busses, p), sel.writeEp, sel.readEp)
  }

  /** The claim and alternate-setting steps of `open` (usbdriver.cpp:172-186). */
  function AcquireInterface(u: UsbState, h: int, alt: AltSettingDesc): Step<bool> {
    var claimed := RetryWhileBusy(u, h, Claim, alt.interfaceNumber);
    if !claimed.result then claimed else RetryWhileBusy(claimed.usb, h, AltSetting, alt.alternateSetting)
  }

  /** The fields `open` stores once the interface is set up (usbdriver.cpp:188-190). */
  function Adopt(s: Session, iface: nat, alt: AltSettingDesc, writeEp: int, readEp: int): Session
    requires 0 <= writeEp < |alt.endpoints| && -1 <= readEp < |alt.endpoints|
  {
    s.(interfaceId := iface,
       endPointWrite := alt.endpoints[writeEp].address,
       endPointRead := if readEp >= 0 then Ep(alt.endpoints[readEp].address) else Indeterminate)
  }

  /**
   * usbdriver.cpp:161-192, for the alternate setting the scan chose at
   * path p, the bConfigurationValue of its configuration and its endpoint
   * indices.
   */
  function OpenSelected(s: Session, u: UsbState, p: Path, configValue: int, alt: AltSettingDesc,
                        writeEp: int, readEp: int): Outcome<bool>
    requires 0 <= writeEp < |alt.endpoints| && -1 <= readEp < |alt.endpoints|
  {
    var openCall := UsbOpen(u, p.bus, p.device);
    var h := openCall.result;
    var s1 := s.(dev := h);
    if h == 0 then Outcome(false, s1, openCall.usb)
    else
      var configured := UsbSetConfiguration(openCall.usb, h, configValue);
      if configured.result != 0 then Outcome(false, s1, configured.usb)
      else
        var acquired := AcquireInterface(configured.usb, h, alt);
        if !acquired.result then Outcome(false, s1, acquired.usb)
        else
          var s2 := Adopt(s1, p.iface, alt, writeEp, readEp);
          var init := InitializeStep(s2, acquired.usb);
          Outcome(init.result, s2, init.usb)
  }

  /** `open` on an open session returns true and does nothing. */
  lemma OpenWhenOpen(s: Session, u: UsbState)
    requires s.dev != 0
    ensures OpenStep(s, u) == Outcome(true, s, u)
  {
  }

  /**
   * Setting up the interface claims its bInterfaceNumber once per leading
   * EBUSY answer and once more, and only after a successful claim sets its
   * bAlternateSetting in the same way; it succeeds exactly when the answers
   * after the busy ones are 0 for both.
   */
  lemma AcquireOutcome(u: UsbState, h: int, alt: AltSettingDesc)
    ensures var n := BusyPrefix(u.claims);
      var m := BusyPrefix(u.altSettings);
      var claimOk := n < |u.claims| && u.claims[n] == 0;
      var claims := u.trace + Repeat(ClaimInterface(h, alt.interfaceNumber), n + 1);
      var r := AcquireInterface(u, h, alt);
      (r.result <==> claimOk && m < |u.altSettings| && u.altSettings[m] == 0) &&
      (!claimOk ==> r.usb.trace == claims) &&
      (claimOk ==> r.usb.trace == claims + Repeat(SetAltInterface(h, alt.alternateSetting), m + 1))
  {
    RetryOutcome(u, h, Claim, alt.interfaceNumber);
    ClaimKeepsAltSettings(u, h, alt.interfaceNumber);
    var claimed := RetryWhileBusy(u, h, Claim, alt.interfaceNumber);
    if claimed.result {
      RetryOutcome(claimed.usb, h, AltSetting, alt.alternateSetting);
    }
  }

  /** The claim loop leaves the script of `usb_set_altinterface` alone. */
  lemma {:induction false} ClaimKeepsAltSettings(u: UsbState, h: int, number: int)
    ensures RetryWhileBusy(u, h, Claim, number).usb.altSettings == u.altSettings
    decreases |u.claims|
  {
    var a := Attempt(u, h, Claim, number);
    if a.result != 0 && a.usb.errno == EBUSY {
      ClaimKeepsAltSettings(a.usb, h, number);
    }
  }

  lemma InitializeExtends(s: Session, u: UsbState)
    ensures u.trace <= InitializeStep(s, u).usb.trace
  {
    var reqs := HandshakeRequests(s.productId);
    InitializeOrder(s, u);
    var n := ControlsPassed(u.controls, |reqs|);
    if n == |reqs| {
      var after := u.(controls := Drop(u.controls, n), trace := u.trace + ControlCalls(s, reqs));
      PreCommandOrder(s, after);
    }
  }

  /**
   * After the scan: the handle is whatever `usb_open` gave, kept whatever
   * fails afterwards; success means the device was opened and configured,
   * its interface claimed and its alternate setting set, each after its
   * busy answers, in that order, and the interface ordinal and endpoint
   * addresses were stored; only calls are added.
   */
  lemma OpenSelectedShape(s: Session, u: UsbState, p: Path, configValue: int, alt: AltSettingDesc,
                          writeEp: int, readEp: int)
    requires 0 <= writeEp < |alt.endpoints| && -1 <= readEp < |alt.endpoints|
    ensures var o := OpenSelected(s, u, p, configValue, alt, writeEp, readEp);
      var h := AnswerAt(u.opens, 0, 0);
      o.session.dev == h && o.session.productId == s.productId &&
      u.trace + [Open(p.bus, p.device)] <= o.usb.trace &&
      (o.result ==>
         h != 0 &&
         o.session == Adopt(s.(dev := h), p.iface, alt, writeEp, readEp) &&
         var n := BusyPrefix(u.claims);
         var m := BusyPrefix(u.altSettings);
         n < |u.claims| && u.claims[n] == 0 && m < |u.altSettings| && u.altSettings[m] == 0 &&
         u.trace + [Open(p.bus, p.device), SetConfiguration(h, configValue)]
           + Repeat(ClaimInterface(h, alt.interfaceNumber), n + 1)
           + Repeat(SetAltInterface(h, alt.alternateSetting), m + 1) <= o.usb.trace)
  {
    var openCall := UsbOpen(u, p.bus, p.device);
    var h := openCall.result;
    if h != 0 {
      var configured := UsbSetConfiguration(openCall.usb, h, configValue);
      if configured.result == 0 {
        assert configured.usb.trace == u.trace + [Open(p.bus, p.device), SetConfiguration(h, configValue)];
        AcquireOutcome(configured.usb, h, alt);
        var acquired := AcquireInterface(configured.usb, h, alt);
        if acquired.result {
          InitializeExtends(Adopt(s.(dev := h), p.iface, alt, writeEp, readEp), acquired.usb);
        }
      }
    }
  }

  /** `open` on a closed session starts with the three discovery calls and keeps the product id. */
  lemma OpenScans(s: Session, u: UsbState)
    requires s.dev == 0
    ensures var o := OpenStep(s, u);
      u.trace + [Init, FindBusses, FindDevices] <= o.usb.trace &&
      o.session.productId == s.productId
  {
    var found := Discover(u);
    assert found.trace == u.trace + [Init, FindBusses, FindDevices];
    match Select(found.busses, s.productId)
    case None =>
    case Some(sel) =>
      SelectEndpointKinds(found.busses, s.productId);
      var p := sel.path;
      OpenSelectedShape(s, found, p, DeviceAt(found.busses, p).configs[p.config].configurationValue,
                        AltAt(found.busses, p), sel.writeEp, sel.readEp);
  }

  /** `open` finds nothing exactly when no device has an alternate setting the driver accepts. */
  lemma OpenNotFound(s: Session, u: UsbState)
    requires s.dev == 0 && forall p :: !Qualifies(Enumerated(u), s.productId, p)
    ensures OpenStep(s, u) == Outcome(false, s, u.(busses := Enumerated(u), enumerations := Rest(u.enumerations),
                                                   trace := u.trace + [Init, FindBusses, FindDevices]))
  {
    SelectFindsFirst(Enumerated(u), s.productId);
  }

  /**
   * A successful `open` of a closed session used the first qualifying
   * alternate setting of the tree it enumerated: it holds the handle
   * `usb_open` gave, the ordinal of the interface (not its bInterfaceNumber,
   * which is what it claimed), the address of the bulk-OUT endpoint and the
   * address of the bulk-IN endpoint or `Indeterminate` when there is none;
   * it opened, configured, claimed and set the alternate setting in that
   * order, retrying the last two while busy.
   */
  lemma OpenSucceeds(s: Session, u: UsbState)
    requires s.dev == 0
    ensures var o := OpenStep(s, u);
      var tree := Enumerated(u);
      o.result ==>
        Select(tree, s.productId).Some? &&
        var sel := Select(tree, s.productId).value;
        var p := sel.path;
        Qualifies(tree, s.productId, p) &&
        (forall q :: Qualifies(tree, s.productId, q) ==> PathLe(p, q)) &&
        var alt := AltAt(tree, p);
        var h := AnswerAt(u.opens, 0, 0);
        var n := BusyPrefix(u.claims);
        var m := BusyPrefix(u.altSettings);
        0 <= sel.writeEp < |alt.endpoints| && -1 <= sel.readEp < |alt.endpoints| &&
        IsBulk(alt.endpoints[sel.writeEp]) && !IsIn(alt.endpoints[sel.writeEp]) &&
        h != 0 &&
        o.session == s.(dev := h, interfaceId := p.iface,
                        endPointWrite := alt.endpoints[sel.writeEp].address,
                        endPointRead := if sel.readEp >= 0 then Ep(alt.endpoints[sel.readEp].address)
                                        else Indeterminate) &&
        n < |u.claims| && u.claims[n] == 0 && m < |u.altSettings| && u.altSettings[m] == 0 &&
        u.trace + [Init, FindBusses, FindDevices, Open(p.bus, p.device),
                   SetConfiguration(h, DeviceAt(tree, p).configs[p.config].configurationValue)]
          + Repeat(ClaimInterface(h, alt.interfaceNumber), n + 1)
          + Repeat(SetAltInterface(h, alt.alternateSetting), m + 1) <= o.usb.trace
  {
    var o := OpenStep(s, u);
    var tree := Enumerated(u);
    if o.result {
      var found := Discover(u);
      OpenFound(s, u);
      assert found.claims == u.claims && found.altSettings == u.altSettings;
      SelectFindsFirst(tree, s.productId);
      var sel := Select(tree, s.productId).value;
      var p := sel.path;
      var cv := DeviceAt(tree, p).configs[p.config].configurationValue;
      var alt := AltAt(tree, p);
      var h := AnswerAt(u.opens, 0, 0);
      OpenSelectedShape(s, found, p, cv, alt, sel.writeEp, sel.readEp);
      DiscoverThenOpen(u, o.usb.trace, Open(p.bus, p.device), SetConfiguration(h, cv),
                       Repeat(ClaimInterface(h, alt.interfaceNumber), BusyPrefix(u.claims) + 1),
                       Repeat(SetAltInterface(h, alt.alternateSetting), BusyPrefix(u.altSettings) + 1));
    }
  }

  /**
   * `open` of a closed session that found nothing returns false; otherwise
   * it goes on with the alternate setting the scan of the enumerated tree
   * chose.
   */
  lemma OpenFound(s: Session, u: UsbState)
    requires s.dev == 0
    ensures var tree := Enumerated(u);
      var found := Discover(u);
      found.busses == tree &&
      (Select(tree, s.productId).None? ==> !OpenStep(s, u).result) &&
      (Select(tree, s.productId).Some? ==>
        var sel := Select(tree, s.productId).value;
        var p := sel.path;
        InTree(tree, p) &&
        var alt := AltAt(tree, p);
        0 <= sel.writeEp < |alt.endpoints| && -1 <= sel.readEp < |alt.endpoints| &&
        IsBulk(alt.endpoints[sel.writeEp]) && !IsIn(alt.endpoints[sel.writeEp]) &&
        OpenStep(s, u) ==
          OpenSelected(s, found, p, DeviceAt(tree, p).configs[p.config].configurationValue,
                       alt, sel.writeEp, sel.readEp))
  {
    var tree := Enumerated(u);
    assert Discover(u).busses == tree;
    if Select(tree, s.productId).Some? {
      SelectEndpointKinds(tree, s.productId);
    }
  }

  lemma DiscoverThenOpen(u: UsbState, t: seq<Call>, o: Call, c: Call, r1: seq<Call>, r2: seq<Call>)
    requires Discover(u).trace + [o, c] + r1 + r2 <= t
    ensures u.trace + [Init, FindBusses, FindDevices, o, c] + r1 + r2 <= t
  {
    assert Discover(u).trace == u.trace + [Init, FindBusses, FindDevices];
    assert u.trace + [Init, FindBusses, FindDevices] + [o, c] == u.trace + [Init, FindBusses, FindDevices, o, c];
  }

  /**
   * Once `usb_open` has given a handle the session keeps it whatever fails
   * afterwards, so an `open` after a failed one returns true at once.
   */
  lemma OpenKeepsHandle(s: Session, u: UsbState)
    requires s.dev == 0 && Select(Enumerated(u), s.productId).Some? && AnswerAt(u.opens, 0, 0) != 0
    ensures var o := OpenStep(s, u);
      o.session.dev == AnswerAt(u.opens, 0, 0) &&
      (!o.result ==> OpenStep(o.session, o.usb) == Outcome(true, o.session, o.usb))
  {
    var found := Discover(u);
    var tree := Enumerated(u);
    assert found.busses == tree;
    SelectEndpointKinds(tree, s.productId);
    var sel := Select(tree, s.productId).value;
    var p := sel.path;
    OpenSelectedShape(s, found, p, DeviceAt(tree, p).configs[p.config].configurationValue,
                      AltAt(tree, p), sel.writeEp, sel.readEp);
  }

  // ---------------------------------------------------------------------
  // Queries: getCommandSet and productInfo.

  /**
   * One query: send the command and, if that worked, read the reply;
   * the reply when it is not empty.
   */
  function Ask(s: Session, u: UsbState, command: seq<byte>): Step<Option<seq<byte>>> {
    var sent := Send(s, u, command);
    if !sent.result then Step(None, sent.usb)
    else
      var read := ReadDataStep(sent.usb, s.dev, s.endPointRead);
      Step(if |read.result| > 0 then Some(read.result) else None, read.usb)
  }

  /** The bytes `readData` returns for the next scripted reply. */
  function NextReply(replies: seq<Option<seq<byte>>>): seq<byte> {
    if |replies| == 0 || replies[0].None? then []
    else if |replies[0].value| <= DEVICE_BUFFER_SIZE then replies[0].value
    else replies[0].value[..DEVICE_BUFFER_SIZE]
  }

  /**
   * A query of a command that fits one buffer: the command goes out whole
   * first; a failed write issues no read and gives nothing; otherwise one
   * read follows, and the query gives the next reply exactly when that
   * reply is not empty.
   */
  lemma AskOutcome(s: Session, u: UsbState, command: seq<byte>)
    requires 0 < |command| <= DEVICE_BUFFER_SIZE
    ensures var a := Ask(s, u, command);
      var run := Chunked(command, u.writes);
      var written := u.trace + WriteCalls(s.dev, s.endPointWrite, run.chunks);
      var reply := NextReply(u.replies);
      u.trace <= a.usb.trace && |a.usb.trace| > |u.trace| &&
      a.usb.trace[|u.trace|] == BulkWrite(s.dev, s.endPointWrite, command, TRANSFER_TIMEOUT) &&
      (!run.ok ==> a.result.None? && a.usb.trace == written && a.usb.replies == u.replies) &&
      (run.ok ==> a.usb.trace == written + [BulkRead(s.dev, s.endPointRead, DEVICE_BUFFER_SIZE, TRANSFER_TIMEOUT)]
                  && a.usb.replies == Rest(u.replies)) &&
      (a.result.Some? <==> run.ok && reply != []) &&
      (a.result.Some? ==> a.result.value == reply)
  {
    ShortCommand(command, u.writes);
    var run := Chunked(command, u.writes);
    assert (u.trace + WriteCalls(s.dev, s.endPointWrite, run.chunks))[|u.trace|]
      == BulkWrite(s.dev, s.endPointWrite, command, TRANSFER_TIMEOUT);
  }

  /** `getCommandSet` (usbdriver.cpp:314-323); `toInt` stands for QByteArray::toInt. */
  function CommandSetStep(s: Session, u: UsbState, toInt: seq<byte> -> int): Step<int> {
    var a := Ask(s, u, GET_COMMAND_SET);
    Step(if a.result.Some? then toInt(a.result.value) else -1, a.usb)
  }

  /**
   * `getCommandSet` gives -1 when the write fails (then no read is issued)
   * or the reply is empty, and otherwise the reply's number.
   */
  lemma CommandSetSentinel(s: Session, u: UsbState, toInt: seq<byte> -> int)
    ensures var r := CommandSetStep(s, u, toInt);
      var run := Chunked(GET_COMMAND_SET, u.writes);
      (!run.ok ==> r.result == -1 &&
                   r.usb.trace == u.trace + WriteCalls(s.dev, s.endPointWrite, run.chunks)) &&
      (run.ok && NextReply(u.replies) == [] ==> r.result == -1) &&
      (run.ok && NextReply(u.replies) != [] ==> r.result == toInt(NextReply(u.replies)))
  {
    AskOutcome(s, u, GET_COMMAND_SET);
  }

  /** A key of `productInfo` and the command that asks for it. */
  datatype Query = Query(key: string, command: seq<byte>)

  const PRODUCT_INFO_QUERIES: seq<Query> := [
    Query("ProductCode", [0x1D, 0xF9, 0x27, 0x00]),
    Query("SerialNumber", [0x1D, 0xF9, 0x27, 0x31]),
    Query("ManufacturingDate", [0x1D, 0xF9, 0x27, 0x32]),
    Query("FirmwareVersion", [0x1D, 0xF9, 0x27, 0x33]),
    Query("ManufacturingTimestamp", [0x1D, 0xF9, 0x27, 0x35]),
    Query("Interface", [0x1D, 0xF9, 0x27, 0x38])
  ]

  /** Run the queries in order, recording each reply under its key. */
  function AskAll(s: Session, u: UsbState, queries: seq<Query>, info: map<string, seq<byte>>)
    : Step<map<string, seq<byte>>>
    decreases |queries|
  {
    if queries == [] then Step(info, u)
    else
      var a := Ask(s, u, queries[0].command);
      AskAll(s, a.usb, queries[1..], if a.result.Some? then info[queries[0].key := a.result.value] else info)
  }

  /** One more query of a list run from position i. */
  lemma AskAllStep(s: Session, u: UsbState, queries: seq<Query>, i: nat, info: map<string, seq<byte>>)
    requires i < |queries|
    ensures var a := Ask(s, u, queries[i].command);
      AskAll(s, u, queries[i..], info) ==
      AskAll(s, a.usb, queries[i + 1..], if a.result.Some? then info[queries[i].key := a.result.value] else info)
  {
    assert queries[i..][0] == queries[i] && queries[i..][1..] == queries[i + 1..];
  }

  /** `productInfo` (usbdriver.cpp:325-378). */
  function ProductInfoStep(s: Session, u: UsbState): Step<map<string, seq<byte>>> {
    AskAll(s, u, PRODUCT_INFO_QUERIES, map[])
  }

  /** The library before each query and after the last one. */
  function States(s: Session, u: UsbState, queries: seq<Query>): (r: seq<UsbState>)
    ensures |r| == |queries| + 1 && r[0] == u
    ensures forall i :: 0 <= i < |queries| ==> r[i + 1] == Ask(s, r[i], queries[i].command).usb
    decreases |queries|
  {
    if queries == [] then [u]
    else [u] + States(s, Ask(s, u, queries[0].command).usb, queries[1..])
  }

  predicate KeysDistinct(queries: seq<Query>) {
    forall i, j :: 0 <= i < j < |queries| ==> queries[i].key != queries[j].key
  }

  /** After the queries the library is in the state after the last one. */
  lemma {:induction false} AskAllState(s: Session, u: UsbState, queries: seq<Query>, info: map<string, seq<byte>>)
    ensures AskAll(s, u, queries, info).usb == States(s, u, queries)[|queries|]
    decreases |queries|
  {
    if queries != [] {
      var a := Ask(s, u, queries[0].command);
      var info' := if a.result.Some? then info[queries[0].key := a.result.value] else info;
      AskAllState(s, a.usb, queries[1..], info');
    }
  }

  /** The reply of each query, in order. */
  function Replies(s: Session, u: UsbState, queries: seq<Query>): (r: seq<Option<seq<byte>>>)
    ensures |r| == |queries|
    decreases |queries|
  {
    if queries == [] then []
    else
      var a := Ask(s, u, queries[0].command);
      [a.result] + Replies(s, a.usb, queries[1..])
  }

  /** Record each reply that came under its query's key, in order. */
  function Collect(queries: seq<Query>, replies: seq<Option<seq<byte>>>, info: map<string, seq<byte>>)
    : map<string, seq<byte>>
    requires |replies| == |queries|
    decreases |queries|
  {
    if queries == [] then info
    else
      var info' := if replies[0].Some? then info[queries[0].key := replies[0].value] else info;
      Collect(queries[1..], replies[1..], info')
  }

  /** The map `productInfo`'s runs build is the replies collected under their keys. */
  lemma {:induction false} AskAllResult(s: Session, u: UsbState, queries: seq<Query>, info: map<string, seq<byte>>)
    ensures AskAll(s, u, queries, info).result == Collect(queries, Replies(s, u, queries), info)
    decreases |queries|
  {
    if queries != [] {
      var a := Ask(s, u, queries[0].command);
      var info' := if a.result.Some? then info[queries[0].key := a.result.value] else info;
      AskAllResult(s, a.usb, queries[1..], info');
      var r := Replies(s, u, queries);
      assert r[0] == a.result && r[1..] == Replies(s, a.usb, queries[1..]);
    }
  }

  /** The i-th reply is what the i-th query gives in the library state before it. */
  lemma {:induction false} RepliesAt(s: Session, u: UsbState, queries: seq<Query>)
    ensures var r := Replies(s, u, queries);
      var st := States(s, u, queries);
      forall i :: 0 <= i < |queries| ==> r[i] == Ask(s, st[i], queries[i].command).result
    decreases |queries|
  {
    if queries != [] {
      var a := Ask(s, u, queries[0].command);
      var tail := queries[1..];
      RepliesAt(s, a.usb, tail);
      var r := Replies(s, u, queries);
      var st := States(s, u, queries);
      assert r[1..] == Replies(s, a.usb, tail);
      assert st[1..] == States(s, a.usb, tail);
      forall i | 1 <= i < |queries| ensures r[i] == Ask(s, st[i], queries[i].command).result {
        assert r[i] == r[1..][i - 1] && st[i] == st[1..][i - 1] && queries[i] == tail[i - 1];
      }
    }
  }

  /** Keys recorded before stay, with their values, when no query uses them. */
  lemma {:induction false} CollectKeepsAny(queries: seq<Query>, replies: seq<Option<seq<byte>>>,
                                           info: map<string, seq<byte>>, k: string)
    requires |replies| == |queries|
    requires k in info && forall i :: 0 <= i < |queries| ==> queries[i].key != k
    ensures var r := Collect(queries, replies, info);
      k in r && r[k] == info[k]
    decreases |queries|
  {
    if queries != [] {
      assert queries[0].key != k;
      var tail := queries[1..];
      var info' := if replies[0].Some? then info[queries[0].key := replies[0].value] else info;
      forall i | 0 <= i < |tail| ensures tail[i].key != k {
        assert tail[i] == queries[i + 1];
      }
      CollectKeepsAny(tail, replies[1..], info', k);
    }
  }

  /** No key appears that neither was recorded before nor belongs to a query. */
  lemma {:induction false} CollectKeysFrom(queries: seq<Query>, replies: seq<Option<seq<byte>>>,
                                           info: map<string, seq<byte>>, k: string)
    requires |replies| == |queries|
    requires k in Collect(queries, replies, info)
    ensures k in info || exists i :: 0 <= i < |queries| && queries[i].key == k
    decreases |queries|
  {
    if queries != [] {
      var tail := queries[1..];
      var info' := if replies[0].Some? then info[queries[0].key := replies[0].value] else info;
      CollectKeysFrom(tail, replies[1..], info', k);
      if k in info' && k !in info {
        assert queries[0].key == k;
      } else if k !in info' {
        var i :| 0 <= i < |tail| && tail[i].key == k;
        assert queries[i + 1].key == k;
      }
    }
  }

  /**
   * Each query's key is recorded exactly when that query gave a reply, with
   * that reply, when the keys are distinct and none was recorded before.
   */
  lemma {:induction false} CollectRecords(queries: seq<Query>, replies: seq<Option<seq<byte>>>,
                                          info: map<string, seq<byte>>, i: nat)
    requires |replies| == |queries| && i < |queries|
    requires KeysDistinct(queries)
    requires forall j :: 0 <= j < |queries| ==> queries[j].key !in info
    ensures var r := Collect(queries, replies, info);
      (queries[i].key in r <==> replies[i].Some?) && (replies[i].Some? ==> r[queries[i].key] == replies[i].value)
    decreases |queries|
  {
    var tail := queries[1..];
    var info' := if replies[0].Some? then info[queries[0].key := replies[0].value] else info;
    var r := Collect(queries, replies, info);
    assert r == Collect(tail, replies[1..], info');
    forall j | 0 <= j < |tail| ensures tail[j].key != queries[0].key {
      assert tail[j] == queries[j + 1];
    }
    if i == 0 {
      if replies[0].Some? {
        CollectKeepsAny(tail, replies[1..], info', queries[0].key);
      } else if queries[0].key in r {
        CollectKeysFrom(tail, replies[1..], info', queries[0].key);
      }
    } else {
      assert KeysDistinct(tail) by {
        forall a, b | 0 <= a < b < |tail| ensures tail[a].key != tail[b].key {
          assert tail[a] == queries[a + 1] && tail[b] == queries[b + 1];
        }
      }
      forall j | 0 <= j < |tail| ensures tail[j].key !in info' {
        assert tail[j] == queries[j + 1];
      }
      CollectRecords(tail, replies[1..], info', i - 1);
      assert tail[i - 1] == queries[i] && replies[1..][i - 1] == replies[i];
    }
  }

  lemma ProductInfoCommandsShort()
    ensures forall i :: 0 <= i < |PRODUCT_INFO_QUERIES| ==>
      0 < |PRODUCT_INFO_QUERIES[i].command| <= DEVICE_BUFFER_SIZE
  {
  }

  lemma ProductInfoKeysDistinct()
    ensures KeysDistinct(PRODUCT_INFO_QUERIES)
  {
  }

  /** Queries of short commands run in order, each starting with its command written whole. */
  lemma StatesInOrder(s: Session, u: UsbState, queries: seq<Query>)
    requires forall i :: 0 <= i < |queries| ==> 0 < |queries[i].command| <= DEVICE_BUFFER_SIZE
    ensures var st := States(s, u, queries);
      forall i :: 0 <= i < |queries| ==>
        st[i].trace <= st[i + 1].trace && |st[i + 1].trace| > |st[i].trace| &&
        st[i + 1].trace[|st[i].trace|] == BulkWrite(s.dev, s.endPointWrite, queries[i].command, TRANSFER_TIMEOUT)
  {
    var st := States(s, u, queries);
    forall i | 0 <= i < |queries|
      ensures st[i].trace <= st[i + 1].trace && |st[i + 1].trace| > |st[i].trace| &&
        st[i + 1].trace[|st[i].trace|] == BulkWrite(s.dev, s.endPointWrite, queries[i].command, TRANSFER_TIMEOUT)
    {
      AskOutcome(s, st[i], queries[i].command);
    }
  }

  /**
   * `productInfo` issues all six queries in order whatever each answered:
   * each query starts with its command written whole, after everything the
   * previous query issued.
   */
  lemma ProductInfoOrder(s: Session, u: UsbState)
    ensures var qs := PRODUCT_INFO_QUERIES;
      var st := States(s, u, qs);
      ProductInfoStep(s, u).usb == st[|qs|] &&
      forall i :: 0 <= i < |qs| ==>
        st[i].trace <= st[i + 1].trace && |st[i + 1].trace| > |st[i].trace| &&
        st[i + 1].trace[|st[i].trace|] == BulkWrite(s.dev, s.endPointWrite, qs[i].command, TRANSFER_TIMEOUT)
  {
    ProductInfoCommandsShort();
    AskAllState(s, u, PRODUCT_INFO_QUERIES, map[]);
    StatesInOrder(s, u, PRODUCT_INFO_QUERIES);
  }

  /**
   * A key of `productInfo` is present exactly when its query gave a
   * non-empty reply, and maps to that reply; no other key appears.
   */
  lemma ProductInfoCollects(s: Session, u: UsbState)
    ensures var qs := PRODUCT_INFO_QUERIES;
      var st := States(s, u, qs);
      var r := ProductInfoStep(s, u).result;
      (forall i :: 0 <= i < |qs| ==>
        var a := Ask(s, st[i], qs[i].command).result;
        (qs[i].key in r <==> a.Some?) && (a.Some? ==> r[qs[i].key] == a.value)) &&
      (forall k :: k in r ==> exists i :: 0 <= i < |qs| && qs[i].key == k)
  {
    ProductInfoKeysDistinct();
    AskAllCollects(s, u, PRODUCT_INFO_QUERIES);
  }

  /** From an empty map, queries with distinct keys record exactly the non-empty replies. */
  lemma AskAllCollects(s: Session, u: UsbState, queries: seq<Query>)
    requires KeysDistinct(queries)
    ensures var st := States(s, u, queries);
      var r := AskAll(s, u, queries, map[]).result;
      (forall i :: 0 <= i < |queries| ==>
        var a := Ask(s, st[i], queries[i].command).result;
        (queries[i].key in r <==> a.Some?) && (a.Some? ==> r[queries[i].key] == a.value)) &&
      (forall k :: k in r ==> exists i :: 0 <= i < |queries| && queries[i].key == k)
  {
    var replies := Replies(s, u, queries);
    var r := AskAll(s, u, queries, map[]).result;
    AskAllResult(s, u, queries, map[]);
    RepliesAt(s, u, queries);
    forall i | 0 <= i < |queries|
      ensures (queries[i].key in r <==> replies[i].Some?) && (replies[i].Some? ==> r[queries[i].key] == replies[i].value)
    {
      CollectRecords(queries, replies, map[], i);
    }
    forall k | k in r ensures exists i :: 0 <= i < |queries| && queries[i].key == k {
      CollectKeysFrom(queries, replies, map[], k);
    }
  }
}
