// The HCI layer over SLIP: posting a message, and receiving, checking and
// dispatching one.
module Hci {
  import opened Common
  import opened Crc16
  import opened Slip

  const HEADER_SIZE := 2
  const PAYLOAD_SIZE := 280
  const FCS_SIZE := 2
  const RX_MESSAGE_SIZE := 284
  const TX_BUFFER_SIZE := 512

  const DEVMGMT_SAP_ID: byte := 0x01
  const DATALINK_SAP_ID: byte := 0x03

  datatype Message = Message(sapId: byte, msgId: byte, payload: seq<byte>)

  // Where a received message went.
  datatype Event = Response(m: Message) | DeviceMgmt(m: Message) | RadioLink(m: Message) | Unsupported(m: Message)

  datatype PostResult = Posted | PayloadLengthError | PayloadPtrError | TransmitError | SlipEncoderError

  // The receiver: the response it is waiting for, and what it has seen.
  datatype Receiver = Receiver(active: bool, done: bool, sapId: byte, msgId: byte, crcErrors: nat, log: seq<Event>)

  // ----- frames -----

  function Block(m: Message): seq<byte> {
    [m.sapId, m.msgId] + m.payload
  }

  function FrameOf(m: Message): seq<byte> {
    Block(m) + Fcs(Block(m), INIT_VALUE)
  }

  function MessageOf(frame: seq<byte>): Message
    requires |frame| >= HEADER_SIZE + FCS_SIZE
  {
    Message(frame[0], frame[1], frame[2..|frame| - 2])
  }

  predicate Accepted(frame: seq<byte>) {
    Check(frame, INIT_VALUE) && |frame| >= HEADER_SIZE + FCS_SIZE
  }

  // A frame is accepted exactly when it is the frame of the message read from it.
  lemma AcceptedIff(frame: seq<byte>)
    requires |frame| >= HEADER_SIZE + FCS_SIZE
    ensures Accepted(frame) <==> frame == FrameOf(MessageOf(frame))
  {
    hide Fcs, Check;
    var n := |frame|;
    var block := Block(MessageOf(frame));
    assert frame == block + [frame[n - 2], frame[n - 1]];
    CheckIff(block, frame[n - 2], frame[n - 1], INIT_VALUE);
    FcsLength(block);
  }

  lemma FcsLength(data: seq<byte>)
    ensures |Fcs(data, INIT_VALUE)| == 2
  {
  }

  lemma FrameRoundTrip(m: Message)
    ensures |FrameOf(m)| == |m.payload| + 4 && MessageOf(FrameOf(m)) == m && Accepted(FrameOf(m))
  {
    hide Fcs, Check;
    FcsLength(Block(m));
    assert MessageOf(FrameOf(m)).payload == m.payload;
    AcceptedIff(FrameOf(m));
  }

  // The remainder, bit by bit.
  function BitByBit(data: seq<byte>): bv16 {
    if data == [] then 0xFFFF else BitSteps(BitByBit(data[..|data| - 1]), data[|data| - 1], 8)
  }

  lemma {:induction false} CalcIsBitByBit(data: seq<byte>)
    ensures Calc(data, INIT_VALUE) == BitByBit(data)
  {
    hide Update, BitSteps;
    if data != [] {
      CalcIsBitByBit(data[..|data| - 1]);
      TableIsBitwise(BitByBit(data[..|data| - 1]), data[|data| - 1]);
    }
  }

  // The identifiers come first, then the payload, then the complement of the checksum, low
  // byte first.
  lemma FrameFormat(m: Message)
    ensures FrameOf(m) == [m.sapId, m.msgId] + m.payload +
                            LowFirst(Complement(BitByBit([m.sapId, m.msgId] + m.payload)))
  {
    CalcIsBitByBit([m.sapId, m.msgId] + m.payload);
    hide Calc, BitByBit, LowFirst, Complement;
  }

  // No error burst of up to sixteen bits gets past the check.
  lemma BurstRejected(m: Message, frame: seq<byte>, lo: nat)
    requires Burst(frame, FrameOf(m), lo) && frame != FrameOf(m)
    ensures !Accepted(frame)
  {
    hide FrameOf, Burst, Calc;
    FrameRoundTrip(m);
    DetectsBursts(frame, FrameOf(m), INIT_VALUE, lo);
    Complements(Calc(frame, INIT_VALUE), Calc(FrameOf(m), INIT_VALUE));
  }

  lemma Complements(x: bv16, y: bv16)
    requires x != y
    ensures !x != !y
  {
  }

  // ----- receiving -----

  function Dispatch(r: Receiver, m: Message): Receiver {
    if r.active && m.sapId == r.sapId && m.msgId == r.msgId then r.(done := true, log := r.log + [Response(m)])
    else
      var event :=
        if m.sapId == DEVMGMT_SAP_ID then DeviceMgmt(m)
        else if m.sapId == DATALINK_SAP_ID then RadioLink(m)
        else Unsupported(m);
      r.(log := r.log + [event])
  }

  predicate Awaited(r: Receiver, m: Message) {
    r.active && m.sapId == r.sapId && m.msgId == r.msgId
  }

  // What a message does to the receiver: it is reported once, behind all earlier ones, as
  // the awaited response or to the access point it names. Nothing else changes but that an
  // awaited response is marked.
  ghost predicate Receives(before: Receiver, m: Message, after: Receiver) {
    && |after.log| == |before.log| + 1 && after.log[..|before.log|] == before.log
    && (var event := after.log[|before.log|];
        && event.m == m
        && (event.Response? <==> Awaited(before, m))
        && (event.DeviceMgmt? <==> !Awaited(before, m) && m.sapId == 0x01)
        && (event.RadioLink? <==> !Awaited(before, m) && m.sapId == 0x03)
        && (event.Unsupported? <==> !Awaited(before, m) && m.sapId != 0x01 && m.sapId != 0x03))
    && (after.done <==> before.done || Awaited(before, m))
    && after.active == before.active && after.sapId == before.sapId && after.msgId == before.msgId
    && after.crcErrors == before.crcErrors
  }

  lemma DispatchReceives(r: Receiver, m: Message)
    ensures Receives(r, m, Dispatch(r, m))
  {
  }

  // What a frame does: it is taken for the message it is the frame of, or counted as an
  // error unless it passes the check but is too short for a message.
  ghost predicate FrameReceived(before: Receiver, frame: seq<byte>, after: Receiver) {
    if |frame| >= HEADER_SIZE + FCS_SIZE && frame == FrameOf(MessageOf(frame))
    then Receives(before, MessageOf(frame), after)
    else after == before.(crcErrors := before.crcErrors + if Check(frame, INIT_VALUE) then 0 else 1)
  }

  lemma ProcessReceives(r: Receiver, frame: seq<byte>)
    ensures FrameReceived(r, frame, ProcessFrame(r, frame))
  {
    if |frame| >= HEADER_SIZE + FCS_SIZE {
      AcceptedIff(frame);
      DispatchReceives(r, MessageOf(frame));
    }
    hide Check, FrameOf, Receives, Dispatch;
  }

  function ProcessFrame(r: Receiver, frame: seq<byte>): Receiver {
    if !Check(frame, INIT_VALUE) then r.(crcErrors := r.crcErrors + 1)
    else if |frame| >= HEADER_SIZE + FCS_SIZE then Dispatch(r, MessageOf(frame))
    else r
  }

  function ProcessFrames(r: Receiver, frames: seq<seq<byte>>): Receiver {
    if frames == [] then r
    else ProcessFrame(ProcessFrames(r, frames[..|frames| - 1]), frames[|frames| - 1])
  }

  // The only client hands the same buffer back every time.
  function SameBuffer(): Client {
    frame => true
  }

  // ----- end to end -----

  // The bytes handed to the serial device.
  function Sent(m: Message): seq<byte> {
    Take(Encode(FrameOf(m)), TX_BUFFER_SIZE)
  }

  predicate Fits(m: Message) {
    |Encode(FrameOf(m))| <= TX_BUFFER_SIZE
  }

  // However the bytes are cut into chunks, the message is received once, or, when
  // its encoding was cut off in the transmit buffer, not at all.
  lemma DeliveredIff(d: Decoder, r: Receiver, m: Message, chunks: seq<seq<byte>>)
    requires Ready(d) && |m.payload| <= PAYLOAD_SIZE && Flatten(chunks) == Sent(m)
    ensures var o := RunChunks(d, chunks, RX_MESSAGE_SIZE, SameBuffer());
            if Fits(m) then Receives(r, m, ProcessFrames(r, o.frames)) else ProcessFrames(r, o.frames) == r
  {
    DispatchReceives(r, m);
    hide Receives, Encode, FrameOf, Run, RunChunks, Ready;
    ChunksDoNotMatter(d, chunks, RX_MESSAGE_SIZE, SameBuffer());
    FrameRoundTrip(m);
    if Fits(m) {
      DecodesEncoded(d, FrameOf(m), RX_MESSAGE_SIZE, SameBuffer());
      assert [FrameOf(m)][..0] == [];
    } else {
      CutOffIsSilent(d, FrameOf(m), TX_BUFFER_SIZE, RX_MESSAGE_SIZE, SameBuffer());
    }
  }

  lemma {:induction false} ProcessConcat(r: Receiver, a: seq<seq<byte>>, b: seq<seq<byte>>)
    ensures ProcessFrames(r, a + b) == ProcessFrames(ProcessFrames(r, a), b)
  {
    if b == [] {
      assert a + b == a;
    } else {
      assert (a + b)[..|a + b| - 1] == a + b[..|b| - 1];
      ProcessConcat(r, a, b[..|b| - 1]);
    }
  }

  // What the first message behind noise comes to: it is received if the noise
  // left the decoder between frames, and otherwise its opening delimiter ends the
  // frame the noise began.
  ghost predicate BehindNoise(before: Receiver, d: Decoder, m: Message, after: Receiver) {
    if Ready(d) then Receives(before, m, after)
    else if d.mode.InFrame? then FrameReceived(before, d.data, after)
    else after == before
  }

  function SkipNoise(r: Receiver, d: Decoder, m: Message): Receiver {
    if Ready(d) then Dispatch(r, m) else if d.mode.InFrame? then ProcessFrame(r, d.data) else r
  }

  lemma SkipNoiseIs(r: Receiver, d: Decoder, m: Message)
    ensures BehindNoise(r, d, m, SkipNoise(r, d, m))
  {
    DispatchReceives(r, m);
    ProcessReceives(r, d.data);
    hide Receives, FrameReceived, Dispatch, ProcessFrame;
  }

  // After arbitrary noise, the second of two messages is received, last.
  lemma DeliveredAfterNoise(d: Decoder, r: Receiver, noise: seq<byte>, m1: Message, m2: Message)
    requires !d.mode.Idle? && |d.data| <= RX_MESSAGE_SIZE
    requires |m1.payload| <= PAYLOAD_SIZE && |m2.payload| <= PAYLOAD_SIZE && Fits(m1) && Fits(m2)
    ensures var left := Run(d, noise, RX_MESSAGE_SIZE, SameBuffer());
            var o := Run(d, noise + Sent(m1) + Sent(m2), RX_MESSAGE_SIZE, SameBuffer());
            exists mid :: BehindNoise(ProcessFrames(r, left.frames), left.decoder, m1, mid) &&
                          Receives(mid, m2, ProcessFrames(r, o.frames))
  {
    var before := ProcessFrames(r, Run(d, noise, RX_MESSAGE_SIZE, SameBuffer()).frames);
    var decoder := Run(d, noise, RX_MESSAGE_SIZE, SameBuffer()).decoder;
    hide Encode, FrameOf, Run, Ready, Receives, BehindNoise;
    SecondDispatched(d, r, noise, m1, m2);
    SkipNoiseIs(before, decoder, m1);
    DispatchReceives(SkipNoise(before, decoder, m1), m2);
  }

  lemma SecondDispatched(d: Decoder, r: Receiver, noise: seq<byte>, m1: Message, m2: Message)
    requires !d.mode.Idle? && |d.data| <= RX_MESSAGE_SIZE
    requires |m1.payload| <= PAYLOAD_SIZE && |m2.payload| <= PAYLOAD_SIZE && Fits(m1) && Fits(m2)
    ensures var left := Run(d, noise, RX_MESSAGE_SIZE, SameBuffer());
            var o := Run(d, noise + Sent(m1) + Sent(m2), RX_MESSAGE_SIZE, SameBuffer());
            ProcessFrames(r, o.frames) == Dispatch(SkipNoise(ProcessFrames(r, left.frames), left.decoder, m1), m2)
  {
    hide Encode, FrameOf, Run, Ready;
    FrameRoundTrip(m1);
    FrameRoundTrip(m2);
    Resynchronises(d, noise, FrameOf(m1), FrameOf(m2), RX_MESSAGE_SIZE, SameBuffer());
    var left := Run(d, noise, RX_MESSAGE_SIZE, SameBuffer());
    var between := if Ready(left.decoder) then [FrameOf(m1)]
                   else if left.decoder.mode.InFrame? then [left.decoder.data] else [];
    ProcessConcat(r, left.frames + between, [FrameOf(m2)]);
    ProcessConcat(r, left.frames, between);
    ProcessOne(ProcessFrames(r, left.frames + between), FrameOf(m2));
    if between != [] {
      ProcessOne(ProcessFrames(r, left.frames), between[0]);
    }
  }

  lemma ProcessOne(r: Receiver, frame: seq<byte>)
    ensures ProcessFrames(r, [frame]) == ProcessFrame(r, frame)
  {
    assert [frame][..0] == [];
  }

  lemma Inner(s: seq<byte>, n: nat)
    requires 4 <= n <= |s|
    ensures s[..n][2..n - 2] == s[2..n - 2]
  {
  }

  // ----- the program's object -----

  class Link {
    const slip: ComSlip
    const txMessage: array<byte>
    const txBuffer: array<byte>
    const rxMessage: array<byte>
    var rxLength: nat
    var active: bool
    var done: bool
    var sapId: byte
    var msgId: byte
    var crcErrors: nat
    var log: seq<Event>
    var sent: seq<byte>  // what the serial device has been given

    ghost predicate Valid()
      reads this, slip
    {
      && txMessage.Length == RX_MESSAGE_SIZE && txBuffer.Length == TX_BUFFER_SIZE && rxMessage.Length == RX_MESSAGE_SIZE
      && txMessage != txBuffer && txMessage != rxMessage && txBuffer != rxMessage
      && slip.Valid() && slip.hasClient && slip.rxBuffer == rxMessage && slip.rxBufferSize == RX_MESSAGE_SIZE
    }

    ghost function View(): Receiver
      reads this
    {
      Receiver(active, done, sapId, msgId, crcErrors, log)
    }

    ghost function Decoding(): Decoder
      requires Valid()
      reads this, slip, rxMessage
    {
      slip.Decoding()
    }

    constructor ()
      ensures Valid() && Decoding() == Decoder(Start, [])
      ensures View() == Receiver(false, false, 0, 0, 0, []) && sent == []
      ensures fresh(slip) && fresh(txMessage) && fresh(txBuffer) && fresh(rxMessage)
    {
      slip := new ComSlip();
      txMessage := new byte[RX_MESSAGE_SIZE](i => 0);
      txBuffer := new byte[TX_BUFFER_SIZE](i => 0);
      rxMessage := new byte[RX_MESSAGE_SIZE](i => 0);
      rxLength, active, done, sapId, msgId, crcErrors, log, sent := 0, false, false, 0, 0, 0, [], [];
      new;
      slip.RegisterClient();
      var ok := slip.SetRxBuffer(rxMessage, RX_MESSAGE_SIZE);
    }

    // WaitForResponse up to its waiting loop.
    method Expect(sap: byte, id: byte)
      modifies this`active, this`done, this`sapId, this`msgId
      ensures View() == old(View()).(active := true, done := false, sapId := sap, msgId := id)
    {
      active, done, sapId, msgId := true, false, sap, id;
    }

    method BuildFrame(sap: byte, id: byte, payload: seq<byte>, length: nat) returns (n: nat)
      requires Valid() && length <= |payload| && length <= PAYLOAD_SIZE
      modifies txMessage
      ensures n == length + 4 && txMessage[..n] == FrameOf(Message(sap, id, payload[..length]))
    {
      hide Calc, LowOf, HighOf, Complement;
      txMessage[0], txMessage[1] := sap, id;
      var i := 0;
      while i < length
        invariant 0 <= i <= length
        invariant txMessage[..i + 2] == [sap, id] + payload[..i]
      {
        txMessage[i + 2] := payload[i];
        i := i + 1;
      }
      ghost var block := txMessage[..length + 2];
      var crc := CalcByTable(txMessage, length + HEADER_SIZE, INIT_VALUE);
      var fcs := Complement(crc);
      txMessage[length + 2] := LowOf(fcs);
      txMessage[length + 3] := HighOf(fcs);
      assert txMessage[..length + 4] == block + LowFirst(fcs);
      return length + 4;
    }

    // payload: None is a null pointer; deviceOk: whether the serial device takes the bytes.
    method PostMessage(sap: byte, id: byte, payload: Option<seq<byte>>, length: nat, deviceOk: bool)
      returns (result: PostResult)
      requires Valid() && (payload.Some? ==> length <= |payload.value|)
      modifies this`sent, slip`txBuffer, slip`txBufferSize, slip`txIndex, txMessage, txBuffer
      ensures Valid() && Decoding() == old(Decoding())
      ensures result == if length > PAYLOAD_SIZE then PayloadLengthError
                        else if length > 0 && payload.None? then PayloadPtrError
                        else if deviceOk then Posted else TransmitError
      ensures sent == old(sent) +
                if result == Posted then
                  Sent(Message(sap, id, if length == 0 then [] else payload.value[..length]))
                else []
    {
      if length > PAYLOAD_SIZE {
        return PayloadLengthError;
      }
      if length > 0 && payload.None? {
        return PayloadPtrError;
      }
      var bytes := if length == 0 then [] else payload.value;
      var n := BuildFrame(sap, id, bytes, length);
      assert bytes[..length] == if length == 0 then [] else payload.value[..length];
      var txLength := slip.EncodeData(txBuffer, TX_BUFFER_SIZE, txMessage, n);
      if txLength > 0 {
        if deviceOk {
          sent := sent + txBuffer[..txLength];
          return Posted;
        }
        return TransmitError;
      }
      return SlipEncoderError;
    }

    method DispatchRxMessage(ghost m: Message)
      requires Valid() && rxLength <= PAYLOAD_SIZE &&
               m == Message(rxMessage[0], rxMessage[1], rxMessage[2..2 + rxLength])
      modifies this`done, this`log
      ensures View() == Dispatch(old(View()), m) && Receives(old(View()), m, View())
    {
      var received := Message(rxMessage[0], rxMessage[1], rxMessage[2..2 + rxLength]);
      if active {
        if received.sapId == sapId && received.msgId == msgId {
          done := true;
          log := log + [Response(received)];
          return;
        }
      }
      if received.sapId == DEVMGMT_SAP_ID {
        log := log + [DeviceMgmt(received)];
      } else if received.sapId == DATALINK_SAP_ID {
        log := log + [RadioLink(received)];
      } else {
        log := log + [Unsupported(received)];
      }
    }

    method ProcessRxMessage(length: nat) returns (buffer: array<byte>)
      requires Valid() && length <= RX_MESSAGE_SIZE
      modifies this`rxLength, this`done, this`log, this`crcErrors
      ensures buffer == rxMessage && View() == ProcessFrame(old(View()), rxMessage[..length])
      ensures FrameReceived(old(View()), rxMessage[..length], View())
    {
      hide Calc, Dispatch, Receives, FrameReceived;
      ProcessReceives(View(), rxMessage[..length]);
      hide FrameOf;
      var crc := CalcByTable(rxMessage, length, INIT_VALUE);
      if !crc == GOOD_VALUE {
        if length >= HEADER_SIZE + FCS_SIZE {
          rxLength := length - (HEADER_SIZE + FCS_SIZE);
          Inner(rxMessage[..], length);
          assert rxMessage[..][..length] == rxMessage[..length];
          assert rxMessage[..][2..length - 2] == rxMessage[2..2 + rxLength];
          DispatchRxMessage(MessageOf(rxMessage[..length]));
        }
      } else {
        crcErrors := crcErrors + 1;
      }
      return rxMessage;
    }

    // One byte of DecodeData, with the call of the client.
    method DecodeOne(b: byte)
      requires Valid()
      modifies this`rxLength, this`done, this`log, this`crcErrors, slip`rxState, slip`rxIndex, slip`rxBuffer, rxMessage
      ensures Valid()
      ensures var o := Feed(old(Decoding()), b, RX_MESSAGE_SIZE, SameBuffer());
              Decoding() == o.decoder && View() == ProcessFrames(old(View()), o.frames)
    {
      hide Dispatch, ProcessFrame;
      ghost var before := Decoding();
      var complete := slip.DecodeByte(b);
      if complete {
        ghost var frame := before.data;
        assert rxMessage[..slip.rxIndex] == frame;
        var buffer := ProcessRxMessage(slip.rxIndex);
        slip.ClientReturned(buffer);
        assert [frame][..0] == [];
        assert ProcessFrames(old(View()), [frame]) == ProcessFrame(old(View()), frame);
      }
    }

    method DecodeData(rxData: array<byte>, length: nat)
      requires Valid() && length <= rxData.Length && rxData != rxMessage
      modifies this`rxLength, this`done, this`log, this`crcErrors, slip`rxState, slip`rxIndex, slip`rxBuffer, rxMessage
      ensures Valid()
      ensures var o := Run(old(Decoding()), rxData[..length], RX_MESSAGE_SIZE, SameBuffer());
              Decoding() == o.decoder && View() == ProcessFrames(old(View()), o.frames)
    {
      hide Feed, ProcessFrame;
      var i := 0;
      while i < length
        invariant 0 <= i <= length && Valid() && rxData[..length] == old(rxData[..length])
        invariant var o := Run(old(Decoding()), rxData[..i], RX_MESSAGE_SIZE, SameBuffer());
                  Decoding() == o.decoder && View() == ProcessFrames(old(View()), o.frames)
      {
        assert rxData[..i + 1][..i] == rxData[..i];
        ghost var o := Run(old(Decoding()), rxData[..i], RX_MESSAGE_SIZE, SameBuffer());
        ghost var f := Feed(o.decoder, rxData[i], RX_MESSAGE_SIZE, SameBuffer());
        ProcessConcat(old(View()), o.frames, f.frames);
        DecodeOne(rxData[i]);
        i := i + 1;
      }
    }
  }
}
