// What one node makes of what it hears: whom it asks and for what, what it serves, and
// which pages a profile renews.
module DelugeHandlers {
  import opened Common
  import opened Deluge
  import Crc16

  // ----- summaries -----

  // The number of pages up to the first one that is missing.
  ghost predicate Available(pages: seq<Page>, h: nat) {
    h <= |pages| && (forall p :: 0 <= p < h ==> pages[p].complete) && (h < |pages| ==> !pages[h].complete)
  }

  lemma OneAvailable(pages: seq<Page>, h: nat)
    requires Available(pages, h)
    ensures Highest(pages) == h
  {
  }

  // The sender has a page, of the version this node is to have, that is missing here.
  ghost predicate Offers(n: Node, m: Msg)
    requires m.Summary?
  {
    m.version == n.updateVersion && m.highest <= |n.pages| &&
    exists p :: 0 <= p < m.highest && !n.pages[p].complete
  }

  // A summary makes a node ask its sender exactly when it offers a missing page and the
  // node is not hushed; what it says of the sender's version is noted.
  lemma SummaryIff(n: Node, m: Msg, hushed: bool, h: nat)
    requires m.Summary? && Available(n.pages, h)
    ensures var t := HandleSummary(n, m, hushed);
            && (if Offers(n, m) && !hushed
                then t.mode == Rx && t.rxTimer && t.summaryFrom == Some(m.sender) &&
                     (t.txTimer <==> n.txTimer && n.mode != Tx)
                else t.mode == n.mode && t.rxTimer == n.rxTimer && t.summaryFrom == n.summaryFrom &&
                     t.txTimer == n.txTimer)
            && t.recvAdv == n.recvAdv + (if m.version == n.version && m.highest == h then 1 else 0)
            && (t.inconsistent <==> n.inconsistent || m.version != n.version || m.highest != h)
            && (t.broadcastProfile <==> n.broadcastProfile || m.version < n.version)
            && t.txPage == n.txPage && t.txSet == n.txSet && t.nrequests == n.nrequests
  {
    OneAvailable(n.pages, h);
    if m.highest <= |n.pages| {
      if h < m.highest {
        assert !n.pages[h].complete;
      }
    }
  }

  // ----- requests -----

  // A request asks for exactly the packets of the page in progress that are missing.
  lemma RequestAsksMissing(n: Node)
    requires n.rxPage < |n.pages|
    ensures var m := RequestFor(n);
            && m.dest == n.summaryFrom && m.page == n.rxPage && m.version == n.pages[n.rxPage].version
            && forall k :: 0 <= k < N_PKT ==> (k in m.set_ <==> k !in n.pages[n.rxPage].packetSet)
  {
  }

  // The node can serve the page: it has its version, the page, and those before it.
  ghost predicate Serves(n: Node, m: Msg)
    requires m.Request?
  {
    m.version == n.version && m.page < |n.pages| && forall p :: 0 <= p < m.page ==> n.pages[p].complete
  }

  lemma CompleteUpTo(pages: seq<Page>, p: nat)
    requires p <= |pages| && forall q :: 0 <= q < p ==> pages[q].complete
    ensures p <= Highest(pages)
  {
  }

  // What becomes of the transmit set: a request for the page being sent adds to it, one for
  // another page replaces it; the timer that sends it is started.
  lemma RequestIff(n: Node, m: Msg)
    requires m.Request?
    ensures var t := HandleRequest(n, m);
            if Serves(n, m)
            then t.mode == Tx && t.txTimer && t.txPage == ToS8(m.page) &&
                 t.txSet == m.set_ + if n.txPage == m.page then n.txSet else {}
            else t == n.(inconsistent := n.inconsistent || (m.page < |n.pages| && m.version != n.version))
  {
    ServesIff(n, m);
    hide Serves, Highest;
  }

  lemma ServesIff(n: Node, m: Msg)
    requires m.Request?
    ensures Serves(n, m) <==> m.version == n.version && m.page < |n.pages| && m.page <= Highest(n.pages)
  {
    if Serves(n, m) {
      CompleteUpTo(n.pages, m.page);
    }
  }

  // The node after a number of requests, one after the other.
  function HearRequests(n: Node, ms: seq<Msg>): Node
    requires forall k :: 0 <= k < |ms| ==> ms[k].Request?
  {
    if ms == [] then n else HandleRequest(HearRequests(n, ms[..|ms| - 1]), ms[|ms| - 1])
  }

  ghost predicate AskedFor(ms: seq<Msg>, k: nat) {
    exists i :: 0 <= i < |ms| && ms[i].Request? && k in ms[i].set_
  }

  // Some requests for one page that the node can serve.
  ghost predicate Requests(n: Node, ms: seq<Msg>, p: nat) {
    forall i :: 0 <= i < |ms| ==> ms[i].Request? && ms[i].page == p && Serves(n, ms[i])
  }

  lemma AskedForNext(ms: seq<Msg>, m: Msg, k: nat)
    requires m.Request?
    ensures AskedFor(ms + [m], k) <==> AskedFor(ms, k) || k in m.set_
  {
    if AskedFor(ms, k) {
      var i :| 0 <= i < |ms| && ms[i].Request? && k in ms[i].set_;
      assert (ms + [m])[i] == ms[i];
    }
    if k in m.set_ {
      assert (ms + [m])[|ms|] == m;
    }
  }

  lemma {:induction false} RequestsGather(n: Node, ms: seq<Msg>, p: nat)
    requires Requests(n, ms, p) && p < 128
    ensures var t := HearRequests(n, ms);
            && SameImage(n, t)
            && (if ms == [] then t == n else t.txTimer && t.txPage == p)
            && forall k :: k in t.txSet <==> AskedFor(ms, k) || (k in n.txSet && (ms == [] || n.txPage == p))
    decreases |ms|
  {
    if ms != [] {
      var before, m := ms[..|ms| - 1], ms[|ms| - 1];
      RequestsGather(n, before, p);
      var t := HearRequests(n, before);
      RequestIff(t, m);
      assert ms == before + [m];
      hide AskedFor, HandleRequest, HearRequests;
      forall k: nat
        ensures AskedFor(ms, k) <==> AskedFor(before, k) || k in m.set_
      {
        AskedForNext(before, m, k);
      }
      SameServed(n, t, m);
      NothingAsked();
    }
  }

  lemma NothingAsked()
    ensures forall k :: !AskedFor([], k)
  {
  }

  lemma SameServed(n: Node, t: Node, m: Msg)
    requires SameImage(n, t) && m.Request?
    ensures Serves(n, m) <==> Serves(t, m)
  {
  }

  // When the timer fires, every packet asked for since the node turned to the page, or
  // that it had still to send of it, is sent, and no other.
  lemma RequestsServed(n: Node, ms: seq<Msg>, p: nat)
    requires Requests(n, ms, p) && ms != [] && p < 128 && Shape(n, |n.pages|) && p < |n.pages|
    ensures var t := HearRequests(n, ms);
            && Shape(t, |t.pages|) && t.txTimer && t.txPage < |t.pages|
            && (forall m :: m in TxPackets(t) <==>
                  exists k :: 0 <= k < N_PKT && m == PacketOf(n, p, k) &&
                              (AskedFor(ms, k) || (n.txPage == p && k in n.txSet)))
            && AfterTx(t).txSet == {}
  {
    RequestsGather(n, ms, p);
    var t := HearRequests(n, ms);
    hide AskedFor, HearRequests, Requests;
    SamePackets(n, t, p);
    hide PacketOf, Shape;
  }

  lemma SamePackets(n: Node, t: Node, p: nat)
    requires SameImage(n, t) && Shape(n, |n.pages|) && p < |n.pages|
    ensures Shape(t, |t.pages|)
    ensures forall k :: 0 <= k < N_PKT ==> PacketOf(t, p, k) == PacketOf(n, p, k)
  {
    hide Slice, PayloadCrc;
  }

  // ----- profiles -----

  // A profile of a newer version renews exactly the pages it has a newer version of, and
  // reception starts at the first page that is not complete; any other is ignored.
  lemma ProfileIff(n: Node, m: Msg, h: nat)
    requires m.Profile? && |m.vector| == |n.pages| <= 255
    requires h <= |n.pages| && forall p :: 0 <= p < h ==> n.pages[p].complete && m.vector[p] <= n.pages[p].version
    requires h < |n.pages| ==> !n.pages[h].complete || m.vector[h] > n.pages[h].version
    ensures var t := HandleProfile(n, m);
            if m.version <= n.updateVersion then t == n
            else && t.updateVersion == m.version && t.version == n.version && t.file == n.file && t.buffer == n.buffer
                 && |t.pages| == |n.pages|
                 && (forall p :: 0 <= p < |n.pages| ==>
                       t.pages[p] ==
                       if m.vector[p] > n.pages[p].version then Page(m.vector[p], {}, false) else n.pages[p])
                 && t.rxPage == h && t.mode == Rx && t.rxTimer && t.txSet == {}
  {
    if m.version > n.updateVersion {
      OneAvailable(HandleProfile(n, m).pages, h);
    }
  }

  // ----- one node hearing another -----

  // All pages up to p are complete.
  ghost predicate Has(n: Node, p: nat) {
    p < |n.pages| && forall q :: 0 <= q <= p ==> n.pages[q].complete
  }

  // A node asks the one whose summary it hears exactly when both are to have the same
  // version and the other has some page, and all before it, that is missing here.
  lemma SummaryHeardIff(a: Node, b: Node, i: nat, hushed: bool)
    requires |a.pages| == |b.pages| <= 255 && !b.rxTimer && b.mode != Rx
    ensures var t := HandleSummary(b, SummaryOf(a, i), hushed);
            && (t.rxTimer <==> a.updateVersion == b.updateVersion && !hushed && HasMore(a, b))
            && (t.rxTimer ==> t.summaryFrom == Some(i) && t.mode == Rx)
  {
    SummaryIff(b, SummaryOf(a, i), hushed, Highest(b.pages));
    OffersIff(a, b, i);
    hide HandleSummary, Offers, HasMore;
  }

  ghost predicate HasMore(a: Node, b: Node) {
    exists p :: 0 <= p < |b.pages| && Has(a, p) && !Has(b, p)
  }

  lemma OffersIff(a: Node, b: Node, i: nat)
    requires |a.pages| == |b.pages| <= 255
    ensures Offers(b, SummaryOf(a, i)) <==> a.updateVersion == b.updateVersion && HasMore(a, b)
  {
    var m := SummaryOf(a, i);
    HasIff(a);
    HasIff(b);
    hide Has;
    if Offers(b, m) {
      var p :| 0 <= p < m.highest && !b.pages[p].complete;
      assert Has(a, p) && !Has(b, p);
    }
    if HasMore(a, b) {
      var p :| 0 <= p < |b.pages| && Has(a, p) && !Has(b, p);
      assert Highest(b.pages) <= p < m.highest;
    }
  }

  lemma HasIff(n: Node)
    ensures forall p :: 0 <= p < |n.pages| ==> (Has(n, p) <==> p < Highest(n.pages))
    ensures forall p :: 0 <= p < |n.pages| && !n.pages[p].complete ==> !Has(n, p)
  {
    forall p | 0 <= p < |n.pages|
      ensures Has(n, p) <==> p < Highest(n.pages)
    {
      if Has(n, p) {
        CompleteUpTo(n.pages, p + 1);
      }
    }
  }

  // A profile tells of the version the sender is at and of the versions of its pages.
  lemma ProfileHeard(a: Node, b: Node)
    requires |a.pages| == |b.pages| <= 255
    ensures var t := HandleProfile(b, ProfileOf(a));
            if a.version <= b.updateVersion then t == b
            else && t.updateVersion == a.version && |t.pages| == |b.pages|
                 && forall p :: 0 <= p < |b.pages| ==>
                      t.pages[p] == if a.pages[p].version > b.pages[p].version
                                    then Page(a.pages[p].version, {}, false) else b.pages[p]
  {
  }

  // Only packets of the page in progress are looked at; one of another version than the
  // node is at is noted.
  lemma PacketNoted(n: Node, m: Msg)
    requires m.Packet? && Shape(n, |n.pages|) && WellFormed(m, |n.pages|)
    ensures var t := HandlePacket(n, m);
            && (m.page != n.rxPage ==> t == n)
            && (m.page == n.rxPage ==> (t.inconsistent <==> n.inconsistent || m.version != n.version))
  {
    hide Patch, PayloadCrc, Slice;
  }

  // ----- timers -----

  // A second request in a row is the last one until something else starts reception again.
  lemma RequestsEnd(n: Node)
    requires n.mode == Rx && n.nrequests < CONST_LAMBDA
    ensures var t := AfterRequest(n);
            && SameImage(n, t)
            && (n.nrequests == 0 ==> t == n.(nrequests := 1, rxTimer := true))
            && (n.nrequests == 1 ==> t.nrequests == 0 && t.mode == Maintain && !t.rxTimer && t.txTimer == n.txTimer)
  {
  }

  // Once its packets are sent, nothing is left to send: a later request is served alone.
  lemma ServedAlone(n: Node, m: Msg)
    requires m.Request? && n.txPage >= 0 && n.txSet != {} && Serves(n, m)
    ensures var t := AfterTx(n);
            && SameImage(n, t) && t.mode == Maintain && !t.txTimer && t.txSet == {}
            && (t.rxTimer <==> n.rxTimer && n.mode != Rx)
            && HandleRequest(t, m).txSet == m.set_ && t.txPage == -1
  {
    RequestIff(AfterTx(n), m);
    SameServed(n, AfterTx(n), m);
  }

  // ----- the checksum of a packet -----

  lemma SwapLinear(a: bv16, b: bv16)
    ensures Swap(Crc16.Xor(a, b)) == Crc16.Xor(Swap(a), Swap(b))
  {
  }

  function FoldPart(a: bv16): bv16 {
    (a & 0xff00) << 4
  }

  function SpreadPart(a: bv16): bv16 {
    (a >> 8) >> 4
  }

  function TailPart(a: bv16): bv16 {
    (a & 0xff00) >> 5
  }

  lemma FoldPartLinear(a: bv16, b: bv16)
    ensures FoldPart(Crc16.Xor(a, b)) == Crc16.Xor(FoldPart(a), FoldPart(b))
  {
  }

  lemma SpreadPartLinear(a: bv16, b: bv16)
    ensures SpreadPart(Crc16.Xor(a, b)) == Crc16.Xor(SpreadPart(a), SpreadPart(b))
  {
  }

  lemma TailPartLinear(a: bv16, b: bv16)
    ensures TailPart(Crc16.Xor(a, b)) == Crc16.Xor(TailPart(a), TailPart(b))
  {
  }

  lemma StepsAre(a: bv16)
    ensures Fold(a) == Crc16.Xor(a, FoldPart(a)) && Spread(a) == Crc16.Xor(a, SpreadPart(a))
    ensures Tail(a) == Crc16.Xor(a, TailPart(a))
  {
  }

  lemma StepsLinear(a: bv16, b: bv16)
    ensures Fold(Crc16.Xor(a, b)) == Crc16.Xor(Fold(a), Fold(b))
    ensures Spread(Crc16.Xor(a, b)) == Crc16.Xor(Spread(a), Spread(b))
    ensures Tail(Crc16.Xor(a, b)) == Crc16.Xor(Tail(a), Tail(b))
  {
    hide *;
    StepsAre(a);
    StepsAre(b);
    StepsAre(Crc16.Xor(a, b));
    FoldPartLinear(a, b);
    SpreadPartLinear(a, b);
    TailPartLinear(a, b);
    Crc16.XorSwap(a, b, FoldPart(a), FoldPart(b));
    Crc16.XorSwap(a, b, SpreadPart(a), SpreadPart(b));
    Crc16.XorSwap(a, b, TailPart(a), TailPart(b));
  }

  lemma SwirlLinear(a: bv16, b: bv16)
    ensures Swirl(Crc16.Xor(a, b)) == Crc16.Xor(Swirl(a), Swirl(b))
  {
    hide Swap, Fold, Spread, Tail, Crc16.Xor;
    SwapLinear(a, b);
    StepsLinear(Swap(a), Swap(b));
    StepsLinear(Fold(Swap(a)), Fold(Swap(b)));
    StepsLinear(Spread(Fold(Swap(a))), Spread(Fold(Swap(b))));
  }

  // Eight rounds of division by the polynomial, on the three parts of a word.
  lemma HighPart(a: bv16)
    ensures Swirl(a & 0xFF00) == Crc16.Shift8(a & 0xFF00)
  {
    assert Swirl(a & 0xFF00) == a >> 8;
    Crc16.Parts(a);
  }

  lemma LowNibble(a: bv16)
    requires a & 0xFFF0 == 0
    ensures Swirl(a) == Crc16.Shift8(a)
  {
  }

  lemma HighNibble(a: bv16)
    requires a & 0xFF0F == 0
    ensures Swirl(a) == Crc16.Shift8(a)
  {
  }

  function LowPart(a: bv16): bv16 {
    a & 0x0F
  }

  function MiddlePart(a: bv16): bv16 {
    a & 0xF0
  }

  function UpperPart(a: bv16): bv16 {
    a & 0xFF00
  }

  lemma PartsDivide(a: bv16)
    ensures Swirl(UpperPart(a)) == Crc16.Shift8(UpperPart(a))
    ensures Swirl(MiddlePart(a)) == Crc16.Shift8(MiddlePart(a))
    ensures Swirl(LowPart(a)) == Crc16.Shift8(LowPart(a))
  {
    hide Swirl, Crc16.Shift8;
    HighPart(a);
    HighNibble(a & 0xF0);
    LowNibble(a & 0x0F);
  }

  lemma WordParts(a: bv16)
    ensures a == Crc16.Xor(UpperPart(a), Crc16.Xor(MiddlePart(a), LowPart(a)))
  {
  }

  lemma SwirlDivides(a: bv16)
    ensures Swirl(a) == Crc16.Shift8(a)
  {
    hide *;
    var x, y, z := UpperPart(a), MiddlePart(a), LowPart(a);
    WordParts(a);
    PartsDivide(a);
    SwirlLinear(x, Crc16.Xor(y, z));
    SwirlLinear(y, z);
    Crc16.Shift8Linear(x, Crc16.Xor(y, z));
    Crc16.Shift8Linear(y, z);
  }

  // One byte of the checksum: add it, and divide by the polynomial eight times, as the
  // modem link does.
  lemma ChecksumDivides(b: u8, acc: u16)
    ensures Crc16Add(b, acc) == Crc16.Shift8(AddedTo(b, acc)) as int
  {
    hide Swirl, Crc16.Shift8, AddedTo;
    SwirlDivides(AddedTo(b, acc));
  }
}
