// SLIP framing (RFC 1055): an encoder into a fixed buffer and a decoder that is fed
// byte by byte and hands complete frames to a client.
module Slip {
  import opened Common

  const END: byte := 0xC0
  const ESC: byte := 0xDB
  const ESC_END: byte := 0xDC
  const ESC_ESC: byte := 0xDD

  // At most the first n elements.
  function Take(s: seq<byte>, n: nat): (r: seq<byte>)
    ensures |r| == if |s| <= n then |s| else n
  {
    if |s| <= n then s else s[..n]
  }

  lemma TakeMore(s: seq<byte>, b: byte, n: nat)
    ensures Take(s + [b], n) == if |Take(s, n)| < n then Take(s, n) + [b] else Take(s, n)
  {
  }

  // ----- encoding -----

  function EscapeByte(b: byte): seq<byte> {
    if b == END then [ESC, ESC_END] else if b == ESC then [ESC, ESC_ESC] else [b]
  }

  function Escape(msg: seq<byte>): seq<byte> {
    if msg == [] then [] else Escape(msg[..|msg| - 1]) + EscapeByte(msg[|msg| - 1])
  }

  function Encode(msg: seq<byte>): seq<byte> {
    [END] + Escape(msg) + [END]
  }

  lemma {:induction false} EscapeHidesEnd(msg: seq<byte>)
    ensures END !in Escape(msg)
  {
    if msg != [] {
      EscapeHidesEnd(msg[..|msg| - 1]);
    }
  }

  // The message with its delimiters and escapes, byte by byte from the front.
  function Stuffed(msg: seq<byte>): seq<byte> {
    if msg == [] then []
    else
      (if msg[0] == 0xC0 then [0xDB, 0xDC] else if msg[0] == 0xDB then [0xDB, 0xDD] else [msg[0]]) +
      Stuffed(msg[1..])
  }

  lemma {:induction false} StuffedSnoc(msg: seq<byte>, b: byte)
    ensures Stuffed(msg + [b]) == Stuffed(msg) + EscapeByte(b)
    decreases |msg|
  {
    if msg == [] {
      assert [b][1..] == [];
    } else {
      assert (msg + [b])[1..] == msg[1..] + [b];
      StuffedSnoc(msg[1..], b);
    }
  }

  lemma {:induction false} EscapeFormat(msg: seq<byte>)
    ensures Escape(msg) == Stuffed(msg)
  {
    if msg != [] {
      var n := |msg| - 1;
      EscapeFormat(msg[..n]);
      StuffedSnoc(msg[..n], msg[n]);
      assert msg == msg[..n] + [msg[n]];
    }
  }

  // What goes over the line, as RFC 1055 has it, with a delimiter in front as well.
  lemma EncodeFormat(msg: seq<byte>)
    ensures Encode(msg) == [0xC0] + Stuffed(msg) + [0xC0]
  {
    EscapeFormat(msg);
  }

  // ----- decoding -----

  datatype Mode = Idle | Start | InFrame | Esc

  // data: what has been stored of the current frame.
  datatype Decoder = Decoder(mode: Mode, data: seq<byte>)

  datatype Outcome = Outcome(decoder: Decoder, frames: seq<seq<byte>>)

  // Does the client give the decoder a buffer again after a frame?
  type Client = seq<byte> -> bool

  function Store(d: Decoder, b: byte, size: nat): Decoder {
    Decoder(InFrame, if |d.data| < size then d.data + [b] else d.data)
  }

  // A byte up to the point where the client is called.
  function Receive(d: Decoder, b: byte, size: nat): Decoder {
    match d.mode
    case Idle => d
    case Start => if b == END then Decoder(InFrame, []) else d
    case InFrame => if b == END then d else if b == ESC then Decoder(Esc, d.data) else Store(d, b, size)
    case Esc =>
      if b == ESC_END then Store(d, END, size)
      else if b == ESC_ESC then Store(d, ESC, size)
      else Decoder(Start, d.data)
  }

  predicate Completes(d: Decoder, b: byte) {
    d.mode.InFrame? && b == END && d.data != []
  }

  function Resume(again: bool): Decoder {
    Decoder(if again then Start else Idle, [])
  }

  function Feed(d: Decoder, b: byte, size: nat, client: Client): Outcome {
    if Completes(d, b) then Outcome(Resume(client(d.data)), [d.data]) else Outcome(Receive(d, b, size), [])
  }

  function Run(d: Decoder, bytes: seq<byte>, size: nat, client: Client): Outcome {
    if bytes == [] then Outcome(d, [])
    else
      var before := Run(d, bytes[..|bytes| - 1], size, client);
      var last := Feed(before.decoder, bytes[|bytes| - 1], size, client);
      Outcome(last.decoder, before.frames + last.frames)
  }

  // ----- chunk independence -----

  lemma {:induction false} RunConcat(d: Decoder, a: seq<byte>, b: seq<byte>, size: nat, client: Client)
    ensures var first := Run(d, a, size, client);
            var second := Run(first.decoder, b, size, client);
            Run(d, a + b, size, client) == Outcome(second.decoder, first.frames + second.frames)
  {
    if b == [] {
      assert a + b == a;
    } else {
      assert (a + b)[..|a + b| - 1] == a + b[..|b| - 1];
      RunConcat(d, a, b[..|b| - 1], size, client);
    }
  }

  function Flatten(chunks: seq<seq<byte>>): seq<byte> {
    if chunks == [] then [] else Flatten(chunks[..|chunks| - 1]) + chunks[|chunks| - 1]
  }

  // One call of the decoder per chunk.
  function RunChunks(d: Decoder, chunks: seq<seq<byte>>, size: nat, client: Client): Outcome {
    if chunks == [] then Outcome(d, [])
    else
      var before := RunChunks(d, chunks[..|chunks| - 1], size, client);
      var last := Run(before.decoder, chunks[|chunks| - 1], size, client);
      Outcome(last.decoder, before.frames + last.frames)
  }

  lemma {:induction false} ChunksDoNotMatter(d: Decoder, chunks: seq<seq<byte>>, size: nat, client: Client)
    ensures RunChunks(d, chunks, size, client) == Run(d, Flatten(chunks), size, client)
  {
    if chunks != [] {
      var n := |chunks| - 1;
      ChunksDoNotMatter(d, chunks[..n], size, client);
      RunConcat(d, Flatten(chunks[..n]), chunks[n], size, client);
    }
  }

  // ----- frames -----

  // Nothing of a frame has been received yet.
  predicate Ready(d: Decoder) {
    d.mode.Start? || (d.mode.InFrame? && d.data == [])
  }

  lemma {:induction false} EscapedIsStored(d: Decoder, msg: seq<byte>, size: nat, client: Client)
    requires d.mode.InFrame? && |d.data| <= size
    ensures Run(d, Escape(msg), size, client) == Outcome(Decoder(InFrame, Take(d.data + msg, size)), [])
  {
    hide EscapeByte;
    if msg == [] {
      assert d.data + msg == d.data;
    } else {
      hide Take, Run;
      var before, b := msg[..|msg| - 1], msg[|msg| - 1];
      EscapedIsStored(d, before, size, client);
      StoresNext(d, Escape(before), d.data + before, b, size, client);
      assert d.data + msg == d.data + before + [b];
    }
  }

  lemma StoresNext(d: Decoder, sent: seq<byte>, msg: seq<byte>, b: byte, size: nat, client: Client)
    requires Run(d, sent, size, client) == Outcome(Decoder(InFrame, Take(msg, size)), [])
    ensures Run(d, sent + EscapeByte(b), size, client) == Outcome(Decoder(InFrame, Take(msg + [b], size)), [])
  {
    hide Take, EscapeByte, Run;
    RunConcat(d, sent, EscapeByte(b), size, client);
    TakeMore(msg, b, size);
    ByteIsStored(Decoder(InFrame, Take(msg, size)), b, size, client);
  }

  lemma ByteIsStored(d: Decoder, b: byte, size: nat, client: Client)
    requires d.mode.InFrame?
    ensures Run(d, EscapeByte(b), size, client) == Outcome(Store(d, b, size), [])
  {
    if b == END || b == ESC {
      var second := if b == END then ESC_END else ESC_ESC;
      assert [ESC, second][..1] == [ESC];
      assert Run(d, [ESC], size, client) == Outcome(Decoder(Esc, d.data), []);
    } else {
      assert Run(d, [b], size, client) == Outcome(Store(d, b, size), []);
    }
  }

  // Without an END no frame is delivered, and a decoder waiting for one stays there.
  lemma {:induction false} NoEndNoFrame(d: Decoder, bytes: seq<byte>, size: nat, client: Client)
    requires END !in bytes
    ensures Run(d, bytes, size, client).frames == []
    ensures d.mode.Start? ==> Run(d, bytes, size, client).decoder == d
  {
    if bytes != [] {
      assert bytes[|bytes| - 1] in bytes;
      NoEndNoFrame(d, bytes[..|bytes| - 1], size, client);
    }
  }

  lemma RunOne(d: Decoder, b: byte, size: nat, client: Client)
    ensures Run(d, [b], size, client) == Feed(d, b, size, client)
  {
    assert [b][..0] == [];
  }

  // END, a body, END.
  lemma RunFramed(d: Decoder, body: seq<byte>, size: nat, client: Client)
    ensures var first := Feed(d, END, size, client);
            var middle := Run(first.decoder, body, size, client);
            var last := Feed(middle.decoder, END, size, client);
            Run(d, [END] + body + [END], size, client) ==
              Outcome(last.decoder, first.frames + middle.frames + last.frames)
  {
    RunConcat(d, [END] + body, [END], size, client);
    RunConcat(d, [END], body, size, client);
    RunOne(d, END, size, client);
    RunOne(Run(Feed(d, END, size, client).decoder, body, size, client).decoder, END, size, client);
  }

  // Decoding an encoded message gives the message, cut to the buffer; an empty one
  // gives nothing.
  lemma DecodesEncoded(d: Decoder, msg: seq<byte>, size: nat, client: Client)
    requires Ready(d) && size > 0
    ensures Run(d, Encode(msg), size, client) ==
              if msg == [] then Outcome(Decoder(InFrame, []), [])
              else Outcome(Resume(client(Take(msg, size))), [Take(msg, size)])
  {
    RunFramed(d, Escape(msg), size, client);
    EscapedIsStored(Decoder(InFrame, []), msg, size, client);
    assert [] + msg == msg;
  }

  // What is left of an encoding whose end was cut off delivers nothing.
  lemma CutOffIsSilent(d: Decoder, msg: seq<byte>, n: nat, size: nat, client: Client)
    requires Ready(d) && n < |Encode(msg)|
    ensures Run(d, Encode(msg)[..n], size, client).frames == []
  {
    EscapeHidesEnd(msg);
    if n > 0 {
      var body := Escape(msg)[..n - 1];
      assert Encode(msg)[..n] == [END] + body;
      RunConcat(d, [END], body, size, client);
      RunOne(d, END, size, client);
      assert END !in body;
      NoEndNoFrame(Decoder(InFrame, []), body, size, client);
    }
  }

  // ----- resynchronisation -----

  ghost predicate AlwaysAgain(client: Client) {
    forall frame :: client(frame)
  }

  lemma {:induction false} NeverIdle(d: Decoder, bytes: seq<byte>, size: nat, client: Client)
    requires !d.mode.Idle? && |d.data| <= size && AlwaysAgain(client)
    ensures !Run(d, bytes, size, client).decoder.mode.Idle? && |Run(d, bytes, size, client).decoder.data| <= size
  {
    if bytes != [] {
      NeverIdle(d, bytes[..|bytes| - 1], size, client);
    }
  }

  // What an encoded message delivers in any state, and that the decoder is in step
  // with the sender after it.
  lemma AfterOneFrame(d: Decoder, msg: seq<byte>, size: nat, client: Client)
    requires !d.mode.Idle? && size > 0 && AlwaysAgain(client)
    ensures Ready(Run(d, Encode(msg), size, client).decoder)
    ensures Run(d, Encode(msg), size, client).frames ==
              if Ready(d) then (if msg == [] then [] else [Take(msg, size)])
              else if d.mode.InFrame? then [d.data] else []
  {
    if Ready(d) {
      DecodesEncoded(d, msg, size, client);
    } else {
      RunFramed(d, Escape(msg), size, client);
      EscapeHidesEnd(msg);
      NoEndNoFrame(Feed(d, END, size, client).decoder, Escape(msg), size, client);
    }
  }

  // After any noise, the second of two messages arrives intact, and what arrives
  // before it is fixed by the state the noise left behind.
  lemma Resynchronises(d: Decoder, noise: seq<byte>, m1: seq<byte>, m2: seq<byte>, size: nat, client: Client)
    requires !d.mode.Idle? && |d.data| <= size && AlwaysAgain(client)
    requires 0 < |m1| <= size && 0 < |m2| <= size
    ensures var left := Run(d, noise, size, client);
            Run(d, noise + Encode(m1) + Encode(m2), size, client) ==
              Outcome(Decoder(Start, []),
                      left.frames
                      + (if Ready(left.decoder) then [m1]
                         else if left.decoder.mode.InFrame? then [left.decoder.data]
                         else [])
                      + [m2])
  {
    hide Encode, Run, Ready;
    var left := Run(d, noise, size, client);
    NeverIdle(d, noise, size, client);
    RunConcat(d, noise + Encode(m1), Encode(m2), size, client);
    RunConcat(d, noise, Encode(m1), size, client);
    AfterOneFrame(left.decoder, m1, size, client);
    DecodesEncoded(Run(left.decoder, Encode(m1), size, client).decoder, m2, size, client);
  }

  // ----- the program's object -----

  class ComSlip {
    var rxState: Mode
    var rxIndex: nat
    var rxBuffer: array?<byte>
    var rxBufferSize: nat
    var hasClient: bool
    var txBuffer: array?<byte>
    var txBufferSize: nat
    var txIndex: nat

    ghost predicate Valid()
      reads this
    {
      && rxIndex <= rxBufferSize
      && (if rxBuffer == null then rxState.Idle? && rxIndex == 0 else rxBufferSize <= rxBuffer.Length && hasClient)
    }

    ghost function Decoding(): Decoder
      requires Valid()
      reads this, rxBuffer
    {
      Decoder(rxState, if rxBuffer == null then [] else rxBuffer[..rxIndex])
    }

    constructor ()
      ensures Valid() && Decoding() == Decoder(Idle, []) && !hasClient
    {
      rxState, rxIndex, rxBuffer, rxBufferSize, hasClient := Idle, 0, null, 0, false;
      txBuffer, txBufferSize, txIndex := null, 0, 0;
    }

    method RegisterClient()
      requires Valid()
      modifies this`hasClient
      ensures Valid() && hasClient && Decoding() == old(Decoding())
    {
      hasClient := true;
    }

    // Only an idle decoder with a client accepts a buffer.
    method SetRxBuffer(buffer: array<byte>, size: nat) returns (ok: bool)
      requires Valid() && size <= buffer.Length && (rxState.Idle? ==> rxIndex == 0)
      modifies this`rxState, this`rxBuffer, this`rxBufferSize
      ensures ok == (old(rxState).Idle? && hasClient)
      ensures Valid() && (ok ==> rxBuffer == buffer && rxBufferSize == size && Decoding() == Decoder(Start, []))
      ensures !ok ==> rxBuffer == old(rxBuffer) && rxBufferSize == old(rxBufferSize) && rxState == old(rxState)
    {
      if rxState.Idle? && hasClient {
        rxBuffer, rxBufferSize := buffer, size;
        rxState := Start;
        return true;
      }
      return false;
    }

    method StoreRxByte(b: byte)
      requires Valid() && rxBuffer != null
      modifies this`rxIndex, this`rxState, rxBuffer
      ensures Valid() && Decoding() == Store(old(Decoding()), b, rxBufferSize)
    {
      if rxIndex < rxBufferSize {
        rxBuffer[rxIndex] := b;
        rxIndex := rxIndex + 1;
      }
      rxState := InFrame;
    }

    // One turn of the decoding loop; true: the client is to be called with the
    // first rxIndex bytes of the buffer.
    method DecodeByte(b: byte) returns (complete: bool)
      requires Valid()
      modifies this`rxState, this`rxIndex, rxBuffer
      ensures Valid()
      ensures complete == Completes(old(Decoding()), b)
      ensures Decoding() == if complete then old(Decoding()) else Receive(old(Decoding()), b, rxBufferSize)
    {
      match rxState {
      case Idle =>
      case Start =>
        if b == END {
          rxIndex := 0;
          rxState := InFrame;
        }
      case InFrame =>
        if b == END {
          if rxIndex > 0 {
            return true;
          }
          rxIndex := 0;
        } else if b == ESC {
          rxState := Esc;
        } else {
          StoreRxByte(b);
        }
      case Esc =>
        if b == ESC_END {
          StoreRxByte(END);
        } else if b == ESC_ESC {
          StoreRxByte(ESC);
        } else {
          rxState := Start;
        }
      }
      return false;
    }

    // The client has returned with a buffer of the same size, or none.
    method ClientReturned(buffer: array?<byte>)
      requires Valid() && hasClient && (buffer != null ==> rxBufferSize <= buffer.Length)
      modifies this`rxState, this`rxIndex, this`rxBuffer
      ensures Valid() && rxBuffer == buffer && Decoding() == Resume(buffer != null)
    {
      rxBuffer := buffer;
      rxState := if buffer == null then Idle else Start;
      rxIndex := 0;
    }

    method StoreTxByte(b: byte, ghost sofar: seq<byte>)
      requires txBuffer != null && txBufferSize <= txBuffer.Length
      requires txIndex <= txBufferSize && txBuffer[..txIndex] == Take(sofar, txBufferSize)
      modifies this`txIndex, txBuffer
      ensures txIndex <= txBufferSize && txBuffer[..txIndex] == Take(sofar + [b], txBufferSize)
      ensures txBuffer[txBufferSize..] == old(txBuffer[txBufferSize..])
    {
      TakeMore(sofar, b, txBufferSize);
      if txIndex < txBufferSize {
        txBuffer[txIndex] := b;
        txIndex := txIndex + 1;
      }
    }

    method EncodeByte(b: byte, ghost sofar: seq<byte>)
      requires txBuffer != null && txBufferSize <= txBuffer.Length
      requires txIndex <= txBufferSize && txBuffer[..txIndex] == Take(sofar, txBufferSize)
      modifies this`txIndex, txBuffer
      ensures txIndex <= txBufferSize && txBuffer[..txIndex] == Take(sofar + EscapeByte(b), txBufferSize)
      ensures txBuffer[txBufferSize..] == old(txBuffer[txBufferSize..])
    {
      hide Take;
      if b == END {
        StoreTxByte(ESC, sofar);
        StoreTxByte(ESC_END, sofar + [ESC]);
        assert sofar + [ESC] + [ESC_END] == sofar + EscapeByte(b);
      } else if b == ESC {
        StoreTxByte(ESC, sofar);
        StoreTxByte(ESC_ESC, sofar + [ESC]);
        assert sofar + [ESC] + [ESC_ESC] == sofar + EscapeByte(b);
      } else {
        StoreTxByte(b, sofar);
      }
    }

    // The encoding is cut off at the end of the buffer without notice: the error
    // result behind the length test cannot occur.
    method EncodeData(dst: array<byte>, dstSize: nat, src: array<byte>, length: nat) returns (n: int)
      requires dst != src && dstSize <= dst.Length && length <= src.Length
      modifies this`txBuffer, this`txBufferSize, this`txIndex, dst
      ensures 0 <= n <= dstSize && dst[..n] == Take(Encode(src[..length]), dstSize)
      ensures n == Common.Min(dstSize, |Encode(src[..length])|)
      ensures dst[dstSize..] == old(dst[dstSize..])
    {
      txBuffer, txIndex, txBufferSize := dst, 0, dstSize;
      assert dst[..0] == Take([], dstSize);
      ghost var msg := src[..];
      BegunFirst(msg);
      BegunLast(msg, length);
      hide Take, EscapeByte, Escape, Encode, Begun;
      StoreTxByte(END, []);
      var i := 0;
      while i < length
        invariant 0 <= i <= length && txBuffer == dst && txBufferSize == dstSize && txIndex <= dstSize
        invariant dst[..txIndex] == Take(Begun(msg, i), dstSize)
        invariant dst[dstSize..] == old(dst[dstSize..])
        modifies this`txIndex, dst
      {
        BegunNext(msg, i);
        EncodeByte(src[i], Begun(msg, i));
        i := i + 1;
      }
      StoreTxByte(END, Begun(msg, length));
      assert msg[..length] == src[..length];
      if txIndex <= txBufferSize {
        return txIndex;
      }
      return -1;
    }
  }

  // The encoding up to the first i bytes of a message.
  ghost function Begun(msg: seq<byte>, i: nat): seq<byte>
    requires i <= |msg|
  {
    [END] + Escape(msg[..i])
  }

  lemma BegunFirst(msg: seq<byte>)
    ensures [] + [END] == Begun(msg, 0)
  {
  }

  lemma BegunNext(msg: seq<byte>, i: nat)
    requires i < |msg|
    ensures Begun(msg, i + 1) == Begun(msg, i) + EscapeByte(msg[i])
  {
    assert msg[..i + 1][..i] == msg[..i];
  }

  lemma BegunLast(msg: seq<byte>, n: nat)
    requires n <= |msg|
    ensures Encode(msg[..n]) == Begun(msg, n) + [END]
  {
  }
}
