/**
 * The transport layer of the driver: the chunked bulk write behind
 * `sendCommand`, the fixed-size bulk read of `readData` and the vendor
 * control request of `sendControlMessage`, each as a function of the
 * library's answers.
 */
module Transport {
  import opened Wrappers
  import opened Usb

  const DEVICE_BUFFER_SIZE := 1024
  const TRANSFER_TIMEOUT := 5000

  /** What `usb_bulk_write` answers once the device stops answering: a timeout. */
  const WRITE_TIMED_OUT := -ETIMEDOUT
  /** What a control request past the end of its script returns. */
  const CONTROL_TIMED_OUT := -ETIMEDOUT

  function Min(a: int, b: int): int {
    if a <= b then a else b
  }

  /** The chunks `sendCommand` hands to `usb_bulk_write`, and whether it reports success. */
  datatype WriteRun = WriteRun(chunks: seq<seq<byte>>, ok: bool)

  /**
   * The write loop of `sendCommand` (usbdriver.cpp:291-303) against the
   * answers still to come from `usb_bulk_write`: write at most
   * DEVICE_BUFFER_SIZE bytes of what is left, drop as many bytes as the
   * device reports, stop at the first negative answer.
   */
  function Chunked(buffer: seq<byte>, answers: seq<int>): WriteRun
    decreases |answers|
  {
    if |buffer| == 0 then WriteRun([], true)
    else
      var chunk := buffer[..Min(|buffer|, DEVICE_BUFFER_SIZE)];
      var ret := AnswerAt(answers, 0, WRITE_TIMED_OUT);
      if ret < 0 then WriteRun([chunk], false)
      else
        var rest := Chunked(buffer[Min(ret, |buffer|)..], answers[1..]);
        WriteRun([chunk] + rest.chunks, rest.ok)
  }

  function WriteCalls(h: int, ep: int, chunks: seq<seq<byte>>): (calls: seq<Call>)
    ensures |calls| == |chunks|
    ensures forall k :: 0 <= k < |chunks| ==> calls[k] == BulkWrite(h, ep, chunks[k], TRANSFER_TIMEOUT)
  {
    seq(|chunks|, k requires 0 <= k < |chunks| => BulkWrite(h, ep, chunks[k], TRANSFER_TIMEOUT))
  }

  lemma WriteCallsSnoc(h: int, ep: int, chunks: seq<seq<byte>>, chunk: seq<byte>)
    ensures WriteCalls(h, ep, chunks + [chunk]) == WriteCalls(h, ep, chunks) + [BulkWrite(h, ep, chunk, TRANSFER_TIMEOUT)]
  {
  }

  lemma RestDrop<T>(script: seq<T>, n: nat)
    ensures Rest(Drop(script, n)) == Drop(script, n + 1)
  {
  }

  /**
   * One turn of the write loop: with `sent` already written and `buffer`
   * left, the run over the whole data continues with the next chunk and
   * stops there on a negative answer.
   */
  lemma ChunkedStep(data: seq<byte>, answers0: seq<int>, sent: seq<seq<byte>>, buffer: seq<byte>, answers: seq<int>)
    requires |buffer| > 0
    requires Chunked(data, answers0) == WriteRun(sent + Chunked(buffer, answers).chunks, Chunked(buffer, answers).ok)
    ensures var chunk := buffer[..Min(|buffer|, DEVICE_BUFFER_SIZE)];
      var ret := AnswerAt(answers, 0, WRITE_TIMED_OUT);
      (ret < 0 ==> Chunked(data, answers0) == WriteRun(sent + [chunk], false)) &&
      (ret >= 0 ==>
         var left := buffer[Min(ret, |buffer|)..];
         Chunked(data, answers0) ==
         WriteRun((sent + [chunk]) + Chunked(left, Rest(answers)).chunks, Chunked(left, Rest(answers)).ok))
  {
    var chunk := buffer[..Min(|buffer|, DEVICE_BUFFER_SIZE)];
    var ret := AnswerAt(answers, 0, WRITE_TIMED_OUT);
    if ret >= 0 {
      var rest := Chunked(buffer[Min(ret, |buffer|)..], Rest(answers));
      assert Chunked(buffer, answers).chunks == [chunk] + rest.chunks;
      AppendAssocChunks(sent, [chunk], rest.chunks);
    }
  }

  lemma AppendAssocChunks(a: seq<seq<byte>>, b: seq<seq<byte>>, c: seq<seq<byte>>)
    ensures a + (b + c) == (a + b) + c
  {
  }

  /** The library after one more write, for a loop that has written `sent` so far. */
  lemma BulkWriteStep(u0: UsbState, h: int, ep: int, sent: seq<seq<byte>>, chunk: seq<byte>)
    ensures var u := u0.(writes := Drop(u0.writes, |sent|), trace := u0.trace + WriteCalls(h, ep, sent));
      UsbBulkWrite(u, h, ep, chunk, TRANSFER_TIMEOUT).usb ==
        u0.(writes := Drop(u0.writes, |sent + [chunk]|), trace := u0.trace + WriteCalls(h, ep, sent + [chunk]))
  {
    WriteCallsSnoc(h, ep, sent, chunk);
    RestDrop(u0.writes, |sent|);
  }

  /** `sendCommand` on handle h and write endpoint ep: its result and the library after it. */
  function SendCommandStep(u: UsbState, h: int, ep: int, data: seq<byte>): Step<bool> {
    var run := Chunked(data, u.writes);
    Step(run.ok, u.(writes := Drop(u.writes, |run.chunks|),
                    trace := u.trace + WriteCalls(h, ep, run.chunks)))
  }

  // ---------------------------------------------------------------------
  // Properties of the write loop.

  /**
   * Every write is non-empty and at most DEVICE_BUFFER_SIZE long; there is
   * no write exactly when the data is empty, and then the result is true;
   * each write uses up one answer.
   */
  lemma {:induction false} ChunkedShape(buffer: seq<byte>, answers: seq<int>)
    ensures var run := Chunked(buffer, answers);
      (forall k :: 0 <= k < |run.chunks| ==> 0 < |run.chunks[k]| <= DEVICE_BUFFER_SIZE) &&
      (|run.chunks| == 0 <==> |buffer| == 0) &&
      (|buffer| == 0 ==> run.ok) &&
      |run.chunks| <= |answers| + 1
    decreases |answers|
  {
    if |buffer| > 0 && AnswerAt(answers, 0, WRITE_TIMED_OUT) >= 0 {
      var ret := answers[0];
      ChunkedShape(buffer[Min(ret, |buffer|)..], answers[1..]);
    }
  }

  /**
   * The result is true exactly when no write was answered with a negative
   * value, and every write but the last was answered with a non-negative
   * value: nothing is written after the first failure.
   */
  lemma {:induction false} ChunkedResult(buffer: seq<byte>, answers: seq<int>)
    ensures var run := Chunked(buffer, answers);
      (run.ok <==> forall k :: 0 <= k < |run.chunks| ==> AnswerAt(answers, k, WRITE_TIMED_OUT) >= 0) &&
      (forall k :: 0 <= k < |run.chunks| - 1 ==> AnswerAt(answers, k, WRITE_TIMED_OUT) >= 0)
    decreases |answers|
  {
    var run := Chunked(buffer, answers);
    if |buffer| > 0 && AnswerAt(answers, 0, WRITE_TIMED_OUT) >= 0 {
      var ret := answers[0];
      var tail := answers[1..];
      var rest := Chunked(buffer[Min(ret, |buffer|)..], tail);
      ChunkedResult(buffer[Min(ret, |buffer|)..], tail);
      assert run.chunks == [run.chunks[0]] + rest.chunks && run.ok == rest.ok;
      forall k | 1 <= k < |run.chunks|
        ensures AnswerAt(answers, k, WRITE_TIMED_OUT) == AnswerAt(tail, k - 1, WRITE_TIMED_OUT)
      {
      }
      if rest.ok {
        forall k | 0 <= k < |run.chunks| ensures AnswerAt(answers, k, WRITE_TIMED_OUT) >= 0 {
          if k > 0 {
            assert AnswerAt(tail, k - 1, WRITE_TIMED_OUT) >= 0;
          }
        }
      } else {
        var j :| 0 <= j < |rest.chunks| && AnswerAt(tail, j, WRITE_TIMED_OUT) < 0;
        assert AnswerAt(answers, j + 1, WRITE_TIMED_OUT) < 0;
      }
      forall k | 0 <= k < |run.chunks| - 1 ensures AnswerAt(answers, k, WRITE_TIMED_OUT) >= 0 {
        if k > 0 {
          assert AnswerAt(tail, k - 1, WRITE_TIMED_OUT) >= 0;
        }
      }
    }
  }

  /** The bytes of a write that the device reports as taken. */
  function Taken(chunk: seq<byte>, ret: int): seq<byte> {
    if ret < 0 then [] else chunk[..Min(ret, |chunk|)]
  }

  /** The taken part of each write, in order. */
  function Accepted(chunks: seq<seq<byte>>, answers: seq<int>): (r: seq<seq<byte>>)
    ensures |r| == |chunks|
  {
    if chunks == [] then []
    else [Taken(chunks[0], AnswerAt(answers, 0, WRITE_TIMED_OUT))] + Accepted(chunks[1..], Rest(answers))
  }

  function Flatten(parts: seq<seq<byte>>): seq<byte> {
    if parts == [] then [] else parts[0] + Flatten(parts[1..])
  }

  /**
   * When the first write is answered with 0 <= ret <= DEVICE_BUFFER_SIZE,
   * the run is that write followed by the run on what is left, and the
   * device took the first ret bytes of the data.
   */
  lemma ChunkedUnfold(buffer: seq<byte>, answers: seq<int>)
    requires |buffer| > 0 && |answers| > 0 && 0 <= answers[0] <= DEVICE_BUFFER_SIZE
    ensures var m := Min(answers[0], |buffer|);
      var run := Chunked(buffer, answers);
      var rest := Chunked(buffer[m..], answers[1..]);
      run.chunks == [buffer[..Min(|buffer|, DEVICE_BUFFER_SIZE)]] + rest.chunks && run.ok == rest.ok &&
      Accepted(run.chunks, answers) == [buffer[..m]] + Accepted(rest.chunks, answers[1..])
  {
    var run := Chunked(buffer, answers);
    var ret := answers[0];
    var m := Min(ret, |buffer|);
    var chunk := buffer[..Min(|buffer|, DEVICE_BUFFER_SIZE)];
    var rest := Chunked(buffer[m..], answers[1..]);
    assert run.chunks == [chunk] + rest.chunks by {
      assert AnswerAt(answers, 0, WRITE_TIMED_OUT) == ret;
    }
    assert Taken(chunk, ret) == buffer[..m];
    AcceptedCons(chunk, rest.chunks, answers);
  }

  lemma AcceptedCons(chunk: seq<byte>, chunks: seq<seq<byte>>, answers: seq<int>)
    requires |answers| > 0
    ensures Accepted([chunk] + chunks, answers) == [Taken(chunk, answers[0])] + Accepted(chunks, answers[1..])
  {
    assert ([chunk] + chunks)[1..] == chunks;
    assert Rest(answers) == answers[1..];
  }

  lemma FlattenPrefixCons(x: seq<byte>, s: seq<seq<byte>>, k: nat)
    requires 1 <= k <= |s| + 1
    ensures Flatten(([x] + s)[..k]) == x + Flatten(s[..k - 1])
  {
    assert ([x] + s)[..k] == [x] + s[..k - 1];
  }

  /**
   * With a device that never reports more than DEVICE_BUFFER_SIZE bytes
   * (libusb reports at most what it was asked to write): the taken parts,
   * concatenated in order, are a prefix of the data, and all of it when the
   * result is true.
   */
  lemma {:induction false} ChunkedInOrder(buffer: seq<byte>, answers: seq<int>)
    requires forall k :: 0 <= k < |answers| ==> answers[k] <= DEVICE_BUFFER_SIZE
    ensures var run := Chunked(buffer, answers);
      var taken := Accepted(run.chunks, answers);
      Flatten(taken) <= buffer && (run.ok ==> Flatten(taken) == buffer)
    decreases |answers|
  {
    if |buffer| > 0 {
      var ret := AnswerAt(answers, 0, WRITE_TIMED_OUT);
      if ret >= 0 {
        var m := Min(ret, |buffer|);
        ChunkedUnfold(buffer, answers);
        ChunkedInOrder(buffer[m..], answers[1..]);
        var restTaken := Accepted(Chunked(buffer[m..], answers[1..]).chunks, answers[1..]);
        assert Flatten([buffer[..m]] + restTaken) == buffer[..m] + Flatten(restTaken);
        assert buffer == buffer[..m] + buffer[m..];
      } else {
        var run := Chunked(buffer, answers);
        assert Accepted(run.chunks, answers) == [[]];
      }
    }
  }

  /**
   * Under the same assumption, each write starts exactly where the bytes
   * taken by the writes before it end.
   */
  lemma {:induction false} ChunkedPositions(buffer: seq<byte>, answers: seq<int>)
    requires forall k :: 0 <= k < |answers| ==> answers[k] <= DEVICE_BUFFER_SIZE
    ensures var run := Chunked(buffer, answers);
      var taken := Accepted(run.chunks, answers);
      forall k :: 0 <= k < |run.chunks| ==>
        |Flatten(taken[..k])| <= |buffer| && run.chunks[k] <= buffer[|Flatten(taken[..k])|..]
    decreases |answers|
  {
    var run := Chunked(buffer, answers);
    var taken := Accepted(run.chunks, answers);
    if |buffer| > 0 {
      assert taken[..0] == [];
      var ret := AnswerAt(answers, 0, WRITE_TIMED_OUT);
      if ret >= 0 {
        var m := Min(ret, |buffer|);
        ChunkedUnfold(buffer, answers);
        ChunkedPositions(buffer[m..], answers[1..]);
        ChunkedInOrder(buffer[m..], answers[1..]);
        var rest := Chunked(buffer[m..], answers[1..]);
        var restTaken := Accepted(rest.chunks, answers[1..]);
        forall k | 1 <= k < |run.chunks|
          ensures |Flatten(taken[..k])| <= |buffer| && run.chunks[k] <= buffer[|Flatten(taken[..k])|..]
        {
          assert |Flatten(restTaken[..k - 1])| <= |buffer[m..]| &&
            rest.chunks[k - 1] <= buffer[m..][|Flatten(restTaken[..k - 1])|..];
          PositionShift(buffer, m, restTaken, k, rest.chunks[k - 1]);
        }
      }
    }
  }
  /** A write that starts at offset off of the bytes after the first m starts at m + off. */
  lemma PositionShift(buffer: seq<byte>, m: nat, restTaken: seq<seq<byte>>, k: nat, chunk: seq<byte>)
    requires m <= |buffer| && 1 <= k <= |restTaken|
    requires |Flatten(restTaken[..k - 1])| <= |buffer[m..]|
    requires chunk <= buffer[m..][|Flatten(restTaken[..k - 1])|..]
    ensures var taken := [buffer[..m]] + restTaken;
      |Flatten(taken[..k])| <= |buffer| && chunk <= buffer[|Flatten(taken[..k])|..]
  {
    FlattenPrefixCons(buffer[..m], restTaken, k);
    var off := |Flatten(restTaken[..k - 1])|;
    assert buffer[m..][off..] == buffer[m + off..];
  }

  /** Number of writes for n bytes when every write is taken whole. */
  function ChunkCount(n: nat): nat {
    (n + DEVICE_BUFFER_SIZE - 1) / DEVICE_BUFFER_SIZE
  }

  /**
   * With a device that takes every write whole, the data goes out as
   * ChunkCount(|buffer|) writes, the k-th being bytes 1024*k up to
   * 1024*(k+1) (or the end), and the result is true.
   */
  lemma {:induction false} ChunkedWhole(buffer: seq<byte>, answers: seq<int>)
    requires forall k :: 0 <= k < ChunkCount(|buffer|) ==>
      AnswerAt(answers, k, WRITE_TIMED_OUT) == Min(DEVICE_BUFFER_SIZE, |buffer| - DEVICE_BUFFER_SIZE * k)
    ensures var run := Chunked(buffer, answers);
      run.ok && |run.chunks| == ChunkCount(|buffer|) &&
      forall k :: 0 <= k < |run.chunks| ==>
        DEVICE_BUFFER_SIZE * k < |buffer| &&
        run.chunks[k] == buffer[DEVICE_BUFFER_SIZE * k .. Min(DEVICE_BUFFER_SIZE * (k + 1), |buffer|)]
    decreases |buffer|
  {
    var run := Chunked(buffer, answers);
    if |buffer| > 0 {
      assert ChunkCount(|buffer|) >= 1;
      var ret := AnswerAt(answers, 0, WRITE_TIMED_OUT);
      assert ret == Min(DEVICE_BUFFER_SIZE, |buffer|);
      var tail := answers[1..];
      var left := buffer[ret..];
      if |left| > 0 {
        assert ChunkCount(|buffer|) == ChunkCount(|left|) + 1;
        forall k | 0 <= k < ChunkCount(|left|)
          ensures AnswerAt(tail, k, WRITE_TIMED_OUT) == Min(DEVICE_BUFFER_SIZE, |left| - DEVICE_BUFFER_SIZE * k)
        {
          assert AnswerAt(tail, k, WRITE_TIMED_OUT) == AnswerAt(answers, k + 1, WRITE_TIMED_OUT);
        }
      } else {
        assert ChunkCount(|buffer|) == 1;
      }
      ChunkedWhole(left, tail);
      var rest := Chunked(left, tail);
      assert run.chunks == [buffer[..ret]] + rest.chunks;
      forall k | 1 <= k < |run.chunks|
        ensures DEVICE_BUFFER_SIZE * k < |buffer| &&
          run.chunks[k] == buffer[DEVICE_BUFFER_SIZE * k .. Min(DEVICE_BUFFER_SIZE * (k + 1), |buffer|)]
      {
        assert run.chunks[k] == rest.chunks[k - 1];
        WholeShift(buffer, k, rest.chunks[k - 1]);
      }
    }
  }

  /** The k-th slice of a buffer is the (k-1)-th slice of what follows its first 1024 bytes. */
  lemma WholeShift(buffer: seq<byte>, k: nat, chunk: seq<byte>)
    requires 1 <= k && DEVICE_BUFFER_SIZE < |buffer|
    requires var left := buffer[DEVICE_BUFFER_SIZE..];
      DEVICE_BUFFER_SIZE * (k - 1) < |left| &&
      chunk == left[DEVICE_BUFFER_SIZE * (k - 1) .. Min(DEVICE_BUFFER_SIZE * k, |left|)]
    ensures DEVICE_BUFFER_SIZE * k < |buffer| &&
      chunk == buffer[DEVICE_BUFFER_SIZE * k .. Min(DEVICE_BUFFER_SIZE * (k + 1), |buffer|)]
  {
    var left := buffer[DEVICE_BUFFER_SIZE..];
    var lo, hi := DEVICE_BUFFER_SIZE * (k - 1), Min(DEVICE_BUFFER_SIZE * k, |left|);
    assert left[lo..hi] == buffer[DEVICE_BUFFER_SIZE + lo .. DEVICE_BUFFER_SIZE + hi];
  }

  /** Two thousand bytes to a device that takes both writes whole: 1024 bytes, then 976. */
  lemma TwoThousandBytes(data: seq<byte>)
    requires |data| == 2000
    ensures Chunked(data, [1024, 976]) == WriteRun([data[..1024], data[1024..]], true)
  {
    assert ChunkCount(|data|) == 2;
    ChunkedWhole(data, [1024, 976]);
    var run := Chunked(data, [1024, 976]);
    assert run.chunks[0] == data[DEVICE_BUFFER_SIZE * 0 .. Min(DEVICE_BUFFER_SIZE * 1, |data|)];
    assert run.chunks[1] == data[DEVICE_BUFFER_SIZE * 1 .. Min(DEVICE_BUFFER_SIZE * 2, |data|)];
    assert |run.chunks| == 2;
    assert Min(DEVICE_BUFFER_SIZE * 2, |data|) == 2000 && data[1024..2000] == data[1024..];
    assert run.chunks == [data[..1024], data[1024..]];
  }

  /** A zero answer takes nothing: the same bytes are written again. */
  lemma ZeroAnswerRepeats(buffer: seq<byte>, answers: seq<int>)
    requires |buffer| > 0 && |answers| > 0 && answers[0] == 0
    ensures var run := Chunked(buffer, answers);
      var again := Chunked(buffer, answers[1..]);
      run.chunks == [again.chunks[0]] + again.chunks && run.ok == again.ok
  {
    ChunkedShape(buffer, answers[1..]);
  }

  /**
   * A command that fits one buffer goes out whole in the first write; a
   * negative first answer ends the command there, and an answer covering
   * the whole command completes it.
   */
  lemma ShortCommand(command: seq<byte>, answers: seq<int>)
    requires 0 < |command| <= DEVICE_BUFFER_SIZE
    ensures var run := Chunked(command, answers);
      |run.chunks| > 0 && run.chunks[0] == command &&
      (AnswerAt(answers, 0, WRITE_TIMED_OUT) < 0 ==> run == WriteRun([command], false)) &&
      (AnswerAt(answers, 0, WRITE_TIMED_OUT) >= |command| ==> run == WriteRun([command], true))
  {
    assert command[..Min(|command|, DEVICE_BUFFER_SIZE)] == command;
    if AnswerAt(answers, 0, WRITE_TIMED_OUT) >= |command| {
      assert command[Min(AnswerAt(answers, 0, WRITE_TIMED_OUT), |command|)..] == [];
    }
  }

  // ---------------------------------------------------------------------
  // Bulk read and control request.

  /**
   * `readData` (usbdriver.cpp:416-427): one bulk read of DEVICE_BUFFER_SIZE
   * bytes; what arrived, or nothing on error.
   */
  function ReadDataStep(u: UsbState, h: int, ep: EpAddr): (r: Step<seq<byte>>)
    ensures |r.result| <= DEVICE_BUFFER_SIZE
    ensures (|u.replies| == 0 || u.replies[0].None?) ==> r.result == []
    ensures |u.replies| > 0 && u.replies[0].Some? && |u.replies[0].value| <= DEVICE_BUFFER_SIZE ==>
      r.result == u.replies[0].value
    ensures r.usb == u.(replies := Rest(u.replies),
                        trace := u.trace + [BulkRead(h, ep, DEVICE_BUFFER_SIZE, TRANSFER_TIMEOUT)])
  {
    var st := UsbBulkRead(u, h, ep, DEVICE_BUFFER_SIZE, TRANSFER_TIMEOUT);
    Step(if st.result.Some? then st.result.value else [], st.usb)
  }

  /** The request type of every control message: vendor, to the device, host to device. */
  const CONTROL_REQUEST_TYPE := USB_TYPE_VENDOR + USB_RECIP_DEVICE + USB_ENDPOINT_OUT

  /**
   * `sendControlMessage` (usbdriver.cpp:380-398): one vendor control
   * request with wIndex set to the interface id; -1 when the library
   * reports an error, 0 otherwise.
   */
  function ControlMessageStep(u: UsbState, h: int, request: int, value: int, index: int, data: seq<byte>)
    : (r: Step<int>)
    ensures r.result == -1 || r.result == 0
    ensures r.result == -1 <==> AnswerAt(u.controls, 0, CONTROL_TIMED_OUT) < 0
    ensures r.usb == u.(controls := Rest(u.controls),
      trace := u.trace + [ControlMsg(h, CONTROL_REQUEST_TYPE, request, value, index, data, TRANSFER_TIMEOUT)])
  {
    var st := UsbControlMsg(u, h, CONTROL_REQUEST_TYPE, request, value, index, data, TRANSFER_TIMEOUT);
    Step(if st.result < 0 then -1 else 0, st.usb)
  }
}
