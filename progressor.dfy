/** The Progressor telemetry side: the notification frame decoder, the two
    control commands, and the receive loop that keeps the latest weight in
    a shared cell. The Bluetooth session around the loop is not modelled. */
module Progressor {
  import opened Bytes

  datatype Option<T> = None | Some(value: T)

  /** A 32-bit float kept as its IEEE-754 bit pattern. `f32::from_le_bytes`
      only reinterprets bits, so the decoder never does float arithmetic. */
  type F32Bits = u32

  /** Opcodes written to the control characteristic. */
  const StartWeightMeasurement: u8 := 0x65
  const EndWeightMeasurement: u8 := 0x66

  /** The two-byte command payloads written at the start and the end of a session. */
  const StartCommand: seq<u8> := [StartWeightMeasurement, 0]
  const EndCommand: seq<u8> := [EndWeightMeasurement, 0]

  /** The control commands are the two-byte arrays `[0x65, 0]` and `[0x66, 0]`. */
  lemma ControlCommands()
    ensures StartCommand == [0x65, 0x00] && EndCommand == [0x66, 0x00]
  {
  }

  /** Opcodes of notification frames. */
  const OpBattery: u8 := 0
  const OpWeight: u8 := 1
  const OpLowPower: u8 := 4

  /** A decoded notification frame. */
  datatype Response =
    | WeightMeasurement(weight: F32Bits, counter: u32)
    | SampleBatteryVoltage(raw: u32)
    | LowPowerWarning

  /** What a call of the decoder does: it returns an optional frame, or it
      panics because a slice index runs past the end of the buffer. */
  datatype Outcome = Panics | Returns(frame: Option<Response>)

  /** The shortest buffer a frame with opcode `op` can be decoded from
      without a slice index running past its end. */
  function RequiredLength(op: u8): (n: nat)
    ensures 1 <= n <= 10
  {
    if op == OpBattery then 6 else if op == OpWeight then 10 else 1
  }

  /** `parse_response`: opcode at byte 0; a battery frame carries a
      little-endian `u32` at bytes 2..6; a weight frame carries a float bit
      pattern at bytes 2..6 and a `u32` counter at bytes 6..10. */
  function ParseResponse(i: seq<u8>): Outcome
  {
    if |i| == 0 then Returns(None)
    else if i[0] == OpBattery then
      if |i| < 6 then Panics
      else Returns(Some(SampleBatteryVoltage(LeU32(i[2..6]))))
    else if i[0] == OpWeight then
      if |i| < 10 then Panics
      else Returns(Some(WeightMeasurement(LeU32(i[2..6]), LeU32(i[6..10]))))
    else if i[0] == OpLowPower then Returns(Some(LowPowerWarning))
    else Returns(None)
  }

  /** The decoder panics exactly when the buffer is non-empty and shorter
      than its opcode requires; otherwise it returns. */
  lemma ParsePanicsIff(i: seq<u8>)
    ensures ParseResponse(i).Panics? <==> 0 < |i| < RequiredLength(i[0])
  {
  }

  /** An empty buffer decodes to no frame. */
  lemma ParseEmpty()
    ensures ParseResponse([]) == Returns(None)
  {
  }

  /** A frame is recognised exactly for opcodes 0, 1 and 4 in a long enough
      buffer; every other opcode decodes to no frame. */
  lemma ParseRecognisedIff(i: seq<u8>)
    ensures ParseResponse(i).Returns? && ParseResponse(i).frame.Some? <==>
              |i| > 0 && i[0] in {OpBattery, OpWeight, OpLowPower} && |i| >= RequiredLength(i[0])
    ensures |i| > 0 && i[0] !in {OpBattery, OpWeight, OpLowPower} ==> ParseResponse(i) == Returns(None)
  {
  }

  /** Opcode 4 is a low-power warning whatever follows it. */
  lemma ParseLowPower(i: seq<u8>)
    requires |i| >= 1 && i[0] == OpLowPower
    ensures ParseResponse(i) == Returns(Some(LowPowerWarning))
  {
  }

  /** The battery frame: the little-endian value of bytes 2..6. */
  lemma ParseBattery(i: seq<u8>)
    requires |i| >= 6 && i[0] == OpBattery
    ensures ParseResponse(i) == Returns(Some(SampleBatteryVoltage(LeU32(i[2..6]))))
  {
  }

  /** The weight frame: the float bit pattern of bytes 2..6 and the
      little-endian counter of bytes 6..10. */
  lemma ParseWeight(i: seq<u8>)
    requires |i| >= 10 && i[0] == OpWeight
    ensures ParseResponse(i) == Returns(Some(WeightMeasurement(LeU32(i[2..6]), LeU32(i[6..10]))))
  {
  }

  /** The bytes of a weight frame as the device sends them: opcode 1, a
      reserved byte, the float bit pattern and the counter, then anything. */
  function WeightFrame(weight: F32Bits, counter: u32, reserved: u8, tail: seq<u8>): (f: seq<u8>)
    ensures |f| == 10 + |tail| && f[0] == OpWeight && f[10..] == tail
  {
    [OpWeight, reserved] + EncodeLeU32(weight) + EncodeLeU32(counter) + tail
  }

  /** The bytes of a battery frame: opcode 0, a reserved byte, the raw value. */
  function BatteryFrame(raw: u32, reserved: u8, tail: seq<u8>): (f: seq<u8>)
    ensures |f| == 6 + |tail| && f[0] == OpBattery && f[6..] == tail
  {
    [OpBattery, reserved] + EncodeLeU32(raw) + tail
  }

  /** Round trip: decoding an encoded weight frame gives back exactly the
      weight bit pattern and the counter, whatever the reserved byte and the
      trailing bytes are. */
  lemma WeightRoundTrip(weight: F32Bits, counter: u32, reserved: u8, tail: seq<u8>)
    ensures ParseResponse(WeightFrame(weight, counter, reserved, tail))
            == Returns(Some(WeightMeasurement(weight, counter)))
  {
    var f := WeightFrame(weight, counter, reserved, tail);
    assert f[2..6] == EncodeLeU32(weight);
    assert f[6..10] == EncodeLeU32(counter);
    LeU32OfEncode(weight);
    LeU32OfEncode(counter);
  }

  /** Round trip for the battery frame. */
  lemma BatteryRoundTrip(raw: u32, reserved: u8, tail: seq<u8>)
    ensures ParseResponse(BatteryFrame(raw, reserved, tail))
            == Returns(Some(SampleBatteryVoltage(raw)))
  {
    var f := BatteryFrame(raw, reserved, tail);
    assert f[2..6] == EncodeLeU32(raw);
    LeU32OfEncode(raw);
  }

  /** The other direction: every buffer that decodes to a weight frame is
      the encoding of that frame, for its own reserved byte and tail. */
  lemma WeightFrameDecoded(i: seq<u8>, weight: F32Bits, counter: u32)
    requires ParseResponse(i) == Returns(Some(WeightMeasurement(weight, counter)))
    ensures |i| >= 10 && i == WeightFrame(weight, counter, i[1], i[10..])
  {
    EncodeOfLeU32(i[2..6]);
    EncodeOfLeU32(i[6..10]);
    assert i == [i[0], i[1]] + i[2..6] + i[6..10] + i[10..];
  }

  /** The reserved byte 1 and every byte past the payload never affect the
      decoder: two buffers that agree on the opcode, on whether they are
      long enough for it, and on the payload bytes decode alike. */
  lemma ParseIgnoresReservedAndTail(i: seq<u8>, j: seq<u8>)
    requires |i| > 0 && |j| > 0 && i[0] == j[0]
    requires |i| >= RequiredLength(i[0]) <==> |j| >= RequiredLength(j[0])
    requires forall k :: 2 <= k < RequiredLength(i[0]) && k < |i| && k < |j| ==> i[k] == j[k]
    ensures ParseResponse(i) == ParseResponse(j)
  {
    if i[0] == OpBattery && |i| >= 6 {
      assert i[2..6] == j[2..6];
    } else if i[0] == OpWeight && |i| >= 10 {
      assert i[2..6] == j[2..6];
      assert i[6..10] == j[6..10];
    }
  }

  // ---------------------------------------------------------------------
  // The receive loop

  /** One item of the notification stream, paired with the value the
      `running` flag has when the loop looks at it. */
  datatype Notification = Notification(running: bool, value: seq<u8>)

  /** How the receive loop ends: the stream ran out, the flag was found
      false at notification `at` (which is then not decoded), or decoding
      notification `at` panicked. */
  datatype Exit = StreamEnded | Stopped(at: nat) | Panicked(at: nat)

  /** The end state of the loop: how it ended and what the weight cell holds. */
  datatype LoopState = LoopState(exit: Exit, weight: F32Bits)

  /** The update rule of the loop body: only a weight frame overwrites the
      cell, with its weight; everything else leaves it alone. */
  function Update(w: F32Bits, frame: Option<Response>): (r: F32Bits)
    ensures frame.Some? && frame.value.WeightMeasurement? ==> r == frame.value.weight
    ensures !(frame.Some? && frame.value.WeightMeasurement?) ==> r == w
  {
    match frame
    case Some(WeightMeasurement(x, _)) => x
    case _ => w
  }

  /** The receive loop as a fold over the notifications from index `from`,
      starting with the cell holding `w`. */
  function Receive(ns: seq<Notification>, from: nat, w: F32Bits): (r: LoopState)
    requires from <= |ns|
    ensures r.exit.StreamEnded? || from <= r.exit.at < |ns|
    decreases |ns| - from
  {
    if from == |ns| then LoopState(StreamEnded, w)
    else if !ns[from].running then LoopState(Stopped(from), w)
    else match ParseResponse(ns[from].value)
      case Panics => LoopState(Panicked(from), w)
      case Returns(frame) => Receive(ns, from + 1, Update(w, frame))
  }

  /** Independent reference: the weight of the last weight frame among the
      first `n` notifications, or `w0` when there is none. */
  function LastWeight(ns: seq<Notification>, n: nat, w0: F32Bits): F32Bits
    requires n <= |ns|
  {
    if n == 0 then w0
    else match ParseResponse(ns[n - 1].value)
      case Returns(Some(WeightMeasurement(x, _))) => x
      case _ => LastWeight(ns, n - 1, w0)
  }

  /** How many notifications the loop decoded before it ended. */
  function Decoded(e: Exit, total: nat): nat
  {
    match e
    case StreamEnded => total
    case Stopped(k) => k
    case Panicked(k) => k
  }

  /** Where the loop ends: it stops at the first notification whose flag is
      false or whose decoding panics, and at the end of the stream otherwise;
      every notification before that point was processed. */
  lemma {:induction false} ReceiveExit(ns: seq<Notification>, from: nat, w: F32Bits)
    requires from <= |ns|
    ensures var e := Receive(ns, from, w).exit;
      from <= Decoded(e, |ns|) <= |ns| &&
      (forall k :: from <= k < Decoded(e, |ns|) ==> ns[k].running && ParseResponse(ns[k].value).Returns?) &&
      (e.StreamEnded? || e.at < |ns|) &&
      (e.Stopped? ==> !ns[e.at].running) &&
      (e.Panicked? ==> ns[e.at].running && ParseResponse(ns[e.at].value).Panics?)
    decreases |ns| - from
  {
    if from < |ns| && ns[from].running && ParseResponse(ns[from].value).Returns? {
      ReceiveExit(ns, from + 1, Update(w, ParseResponse(ns[from].value).frame));
    }
  }

  /** After the loop the cell holds the weight of the last weight frame it
      decoded, or its initial value if it decoded none. */
  lemma {:induction false} ReceiveKeepsLastWeight(ns: seq<Notification>, from: nat, w: F32Bits, w0: F32Bits)
    requires from <= |ns|
    requires w == LastWeight(ns, from, w0)
    ensures Receive(ns, from, w).weight == LastWeight(ns, Decoded(Receive(ns, from, w).exit, |ns|), w0)
    decreases |ns| - from
  {
    if from < |ns| && ns[from].running {
      match ParseResponse(ns[from].value)
      case Panics =>
      case Returns(frame) =>
        ReceiveKeepsLastWeight(ns, from + 1, Update(w, frame), w0);
    }
  }

  /** The whole loop from its start: the weight is the last decoded one. */
  lemma ReceiveWeight(ns: seq<Notification>, w0: F32Bits)
    ensures Receive(ns, 0, w0).weight == LastWeight(ns, Decoded(Receive(ns, 0, w0).exit, |ns|), w0)
  {
    ReceiveKeepsLastWeight(ns, 0, w0, w0);
  }

  /** Once the flag is seen false at notification `k`, neither that
      notification's bytes nor anything after it affects the loop: any stream
      that agrees on the first `k` notifications and has the flag false at
      `k` ends the same way with the same weight. */
  lemma {:induction false} ReceiveStopIgnoresRest(ns: seq<Notification>, ms: seq<Notification>, from: nat, k: nat, w: F32Bits)
    requires from <= k < |ns| && k < |ms|
    requires Receive(ns, from, w).exit == Stopped(k)
    requires ms[..k] == ns[..k] && !ms[k].running
    ensures Receive(ms, from, w) == Receive(ns, from, w)
    decreases k - from
  {
    ReceiveExit(ns, from, w);
    if from < k {
      assert ms[from] == ns[from] by { assert ms[..k][from] == ns[..k][from]; }
      ReceiveStopIgnoresRest(ns, ms, from + 1, k, Update(w, ParseResponse(ns[from].value).frame));
    }
  }

  /** The shared weight cell (`cur_weight`), holding a float's bit pattern. */
  class WeightCell {
    var weight: F32Bits

    constructor (w: F32Bits)
      ensures weight == w
    {
      weight := w;
    }
  }

  /** The body of the `while let` loop of `interaction`: take notifications
      in order, stop when the flag is false, decode the rest and store each
      weight frame's weight in the cell. */
  method ReceiveLoop(ns: seq<Notification>, cell: WeightCell) returns (exit: Exit)
    modifies cell
    ensures LoopState(exit, cell.weight) == Receive(ns, 0, old(cell.weight))
  {
    var i := 0;
    exit := StreamEnded;
    while i < |ns|
      invariant 0 <= i <= |ns|
      invariant Receive(ns, i, cell.weight) == Receive(ns, 0, old(cell.weight))
    {
      if !ns[i].running {
        exit := Stopped(i);
        return;
      }
      var r := ParseResponse(ns[i].value);
      if r.Panics? {
        exit := Panicked(i);
        return;
      }
      match r.frame {
        case Some(WeightMeasurement(w, _)) =>
          cell.weight := w;
        case _ =>
      }
      i := i + 1;
    }
  }

  /** The streaming part of a session: the start command is written, the
      receive loop runs, and the end command is written once afterwards
      unless the loop panicked. Returns the control writes in order. */
  method Stream(ns: seq<Notification>, cell: WeightCell) returns (writes: seq<seq<u8>>, exit: Exit)
    modifies cell
    ensures LoopState(exit, cell.weight) == Receive(ns, 0, old(cell.weight))
    ensures writes == if exit.Panicked? then [StartCommand] else [StartCommand, EndCommand]
  {
    writes := [StartCommand];
    exit := ReceiveLoop(ns, cell);
    if !exit.Panicked? {
      writes := writes + [EndCommand];
    }
  }
}
