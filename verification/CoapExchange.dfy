// A packet serialized into a buffer and parsed there again.
module CoapExchange {
  import opened Common
  import opened Coap
  import CoapMachine
  import opened CoapParser

  // refused: the parser's status, None for NO_ERROR; without an error the object shows
  // the packet as it arrives.
  method Exchange(p: Packet, buffer: array<u8>) returns (received: CoapPacket, refused: Option<Status>)
    requires WellFormed(p) && p.code != 0 && Serialize(p).Some?
    requires |WholeHeader(p)| + 1 + |p.payload| <= buffer.Length && |Serialize(p).value| < buffer.Length
    modifies buffer
    ensures received.Valid()
    ensures refused == if ProxyIn(p.fields, ORDER) then Some(ProxyingNotSupported) else None
    ensures refused.None? ==> received.View() == Arrived(p)
    ensures refused.None? && |p.payload| <= MAX_CHUNK_SIZE &&
            (forall n :: n in p.fields ==> FieldSurvives(n, p.fields[n])) ==>
              received.View() == p
  {
    ParsesSerialized(p);
    RoundTripIff(p);
    hide WholeHeader, Serialize, ParseMessage, ProxyIn, Arrived, Typed, FieldSurvives;
    var n := CoapMachine.SerializeMessage(p, buffer);
    received := new CoapPacket(buffer);
    refused := received.ParseMessage(n);
  }

  // The engine's way: the payload lies in the buffer behind the space for the
  // header. The packet arrives unchanged exactly when, besides the conditions on its
  // fields and the payload's length, the marker has room in front of the payload.
  method ExchangeInPlace(p: Packet, from: nat, buffer: array<u8>)
    returns (received: CoapPacket, refused: Option<Status>)
    requires WellFormed(p) && p.code != 0 && Serialize(p).Some?
    requires |WholeHeader(p)| + 1 + |p.payload| <= buffer.Length && |Serialize(p).value| < buffer.Length
    requires MAX_HEADER_SIZE <= from && from + |p.payload| <= buffer.Length
    requires buffer[from..from + |p.payload|] == p.payload
    modifies buffer
    ensures received.Valid()
    ensures refused == if ProxyIn(p.fields, ORDER) then Some(ProxyingNotSupported) else None
    ensures refused.None? ==> received.View() == Arrived(CoapMachine.InPlace(p, from))
    ensures refused.None? ==>
              (received.View() == p <==>
               && |p.payload| <= MAX_CHUNK_SIZE && (forall n :: n in p.fields ==> FieldSurvives(n, p.fields[n]))
               && (p.payload == [] || |WholeHeader(p)| < from || p.payload[0] == 0xFF))
  {
    ghost var q := CoapMachine.InPlace(p, from);
    CoapMachine.InPlaceIff(p, from);
    ParsesSerialized(q);
    RoundTripIff(q);
    hide WholeHeader, Serialize, ParseMessage, ProxyIn, Arrived, Typed, FieldSurvives;
    var n := CoapMachine.SerializeInPlace(p, from, buffer);
    received := new CoapPacket(buffer);
    refused := received.ParseMessage(n);
  }
}
