// The Deluge node as the program keeps it: one object whose handlers update it in place.
module DelugeNode {
  import opened Common
  import opened Deluge

  ghost function PacketsBelow(n: Node, p: nat, k: nat): set<Msg>
    requires Shape(n, |n.pages|) && p < |n.pages| && k <= N_PKT
  {
    set i: nat | i < k && i in n.txSet :: PacketOf(n, p, i)
  }

  lemma NextPacket(n: Node, p: nat, k: nat)
    requires Shape(n, |n.pages|) && p < |n.pages| && k < N_PKT
    ensures PacketsBelow(n, p, k + 1) == PacketsBelow(n, p, k) + if k in n.txSet then {PacketOf(n, p, k)} else {}
  {
  }

  class Object {
    var version: u8
    var updateVersion: u8
    var pages: seq<Page>
    var currentRxPage: u8
    var currentTxPage: s8
    var txSet: Bits
    var nrequests: nat
    const currentPage: array<u8>
    var file: seq<Bytes>
    var state: Mode
    var rxTimer: bool
    var txTimer: bool
    var summaryFrom: Option<nat>
    var recvAdv: nat
    var broadcastProfile: bool
    var inconsistent: bool

    ghost function View(): Node
      reads this, currentPage
    {
      Node(version, updateVersion, pages, currentRxPage, currentTxPage, txSet, nrequests, currentPage[..], file,
           state, rxTimer, txTimer, summaryFrom, recvAdv, broadcastProfile, inconsistent)
    }

    ghost predicate Valid()
      reads this, currentPage
    {
      Shape(View(), |pages|) && currentTxPage < |pages|
    }

    // init_object: every page of the file given is complete at its version.
    constructor (file: seq<Bytes>, version: u8)
      requires 0 < |file| <= 255 && forall p :: 0 <= p < |file| ==> |file[p]| == S_PAGE
      ensures Valid() && fresh(currentPage)
      ensures View() == Fresh0(version, file)
    {
      this.file := file;
      this.version, updateVersion := version, version;
      currentRxPage, currentTxPage, nrequests := 0, 0, 0;
      txSet := {};
      pages := seq(|file|, i => Page(version, ALL_PACKETS, true));
      currentPage := new u8[S_PAGE](i => 0);
      state, rxTimer, txTimer, summaryFrom := Maintain, false, false, None;
      recvAdv, broadcastProfile, inconsistent := 0, false, false;
      new;
      assert currentPage[..] == seq(S_PAGE, i => 0);
    }

    method TransitionTo(mode: Mode)
      modifies this`state, this`rxTimer, this`txTimer
      ensures View() == Transition(old(View()), mode)
    {
      if mode != state {
        match state {
          case Maintain =>
          case Rx => rxTimer := false;
          case Tx => txTimer := false;
        }
        state := mode;
      }
    }

    method StartReceiving()
      modifies this`state, this`rxTimer, this`txTimer
      ensures View() == Transition(old(View()), Rx).(rxTimer := true)
    {
      TransitionTo(Rx);
      rxTimer := true;
    }

    method HighestAvailablePage() returns (h: nat)
      ensures h == Highest(pages)
    {
      h := 0;
      while h < |pages|
        invariant h <= |pages| && Complete(pages, h)
      {
        if !pages[h].complete {
          break;
        }
        h := h + 1;
      }
      CompletePrefix(pages, h);
    }

    method CompareSummary(m: Msg, highest: nat)
      requires m.Summary? && highest == Highest(pages)
      modifies this`inconsistent, this`recvAdv, this`broadcastProfile
      ensures View() == Compare(old(View()), m)
    {
      if m.version != version || m.highest != highest {
        inconsistent := true;
      } else {
        recvAdv := recvAdv + 1;
      }
      if m.version < version {
        broadcastProfile := true;
      }
    }

    method HandleSummary(m: Msg, hushed: bool)
      requires m.Summary?
      modifies this
      ensures View() == Deluge.HandleSummary(old(View()), m, hushed)
    {
      var highest := HighestAvailablePage();
      CompareSummary(m, highest);
      hide Compare, Transition;
      if m.version == updateVersion && m.highest > highest {
        if m.highest > |pages| {
          return;
        }
        if hushed {
          return;
        }
        summaryFrom := Some(m.sender);
        StartReceiving();
      }
    }

    method HandleRequest(m: Msg)
      requires m.Request?
      modifies this
      ensures View() == Deluge.HandleRequest(old(View()), m)
    {
      if m.page >= |pages| {
        return;
      }
      if m.version != version {
        inconsistent := true;
      }
      var highest := HighestAvailablePage();
      if m.version == version && m.page <= highest {
        if m.page == currentTxPage {
          txSet := txSet + m.set_;
        } else {
          currentTxPage := ToS8(m.page);
          txSet := m.set_;
        }
        TransitionTo(Tx);
        txTimer := true;
      }
    }

    method HandlePacket(m: Msg)
      requires Valid() && m.Packet? && WellFormed(m, |pages|)
      modifies this, currentPage
      ensures Valid()
      ensures View() == Deluge.HandlePacket(old(View()), m)
    {
      if m.page != currentRxPage {
        return;
      }
      if m.version != version {
        inconsistent := true;
      }
      if m.version == pages[m.page].version && !pages[m.page].complete {
        StorePacket(m);
      }
    }

    method StorePacket(m: Msg)
      requires Valid() && m.Packet? && WellFormed(m, |pages|) && m.page == currentRxPage
      modifies this, currentPage
      ensures View() == Deluge.StorePacket(old(View()), m)
    {
      CopyPayload(m.num, m.payload);
      var crc := CrcOf(m.payload);
      if m.crc != crc {
        return;
      }
      CountPacket(m.page, m.num);
    }

    method CountPacket(p: nat, k: nat)
      requires Valid() && p < |pages| && p == currentRxPage
      modifies this
      ensures View() == Deluge.CountPacket(old(View()), p, k)
    {
      var got := pages[p].packetSet + {k};
      if got == ALL_PACKETS {
        PageDone(p);
      } else {
        pages := pages[p := pages[p].(packetSet := got)];
      }
    }

    method PageDone(p: nat)
      requires Valid() && p < |pages| && p == currentRxPage
      modifies this
      ensures View() == Deluge.PageDone(old(View()), p)
    {
      hide Transition, ToU8;
      StorePage(p);
      if p == |pages| - 1 {
        version := updateVersion;
      } else if currentRxPage < |pages| {
        rxTimer := true;
      }
      TransitionTo(Maintain);
    }

    method StorePage(p: nat)
      requires Valid() && p < |pages| && p == currentRxPage
      modifies this`file, this`pages, this`currentRxPage
      ensures View() == old(View()).(pages := old(pages)[p := Page(old(pages)[p].version, ALL_PACKETS, true)],
                                     file := old(file)[p := currentPage[..]],
                                     rxPage := ToU8(p + 1))
    {
      file := file[p := currentPage[..]];
      pages := pages[p := Page(pages[p].version, ALL_PACKETS, true)];
      currentRxPage := ToU8(currentRxPage + 1);
    }

    method CopyPayload(k: nat, payload: Bytes)
      requires currentPage.Length == S_PAGE && k < N_PKT && |payload| == S_PKT
      modifies currentPage
      ensures currentPage[..] == Patch(old(currentPage[..]), k, payload)
    {
      var i := 0;
      while i < S_PKT
        invariant 0 <= i <= S_PKT
        invariant currentPage[..] == old(currentPage[..S_PKT * k]) + payload[..i] + old(currentPage[S_PKT * k + i..])
      {
        currentPage[S_PKT * k + i] := payload[i];
        i := i + 1;
      }
    }

    static method CrcOf(data: Bytes) returns (crc: u16)
      ensures crc == PayloadCrc(data, 0)
    {
      crc := 0;
      var i := 0;
      while i < |data|
        invariant 0 <= i <= |data|
        invariant PayloadCrc(data[i..], crc) == PayloadCrc(data, 0)
      {
        crc := Crc16Add(data[i], crc);
        i := i + 1;
      }
    }

    method HandleProfile(m: Msg)
      requires m.Profile? && |m.vector| == |pages| <= 255
      modifies this
      ensures View() == Deluge.HandleProfile(old(View()), m)
    {
      if m.version <= updateVersion {
        return;
      }
      hide Transition;
      ghost var n := View();
      txSet := {};
      RenewPages(m.vector);
      currentRxPage := HighestAvailablePage();
      updateVersion := m.version;
      assert View() == n.(txSet := {}, pages := pages, rxPage := Highest(pages), updateVersion := m.version);
      StartReceiving();
    }

    method RenewPages(vector: seq<u8>)
      requires |vector| == |pages|
      modifies this`pages
      ensures pages == RenewAll(old(pages), vector)
    {
      var i := 0;
      while i < |pages|
        invariant 0 <= i <= |pages| == |vector|
        invariant forall k :: 0 <= k < i ==> pages[k] == Renew(old(pages)[k], vector[k])
        invariant pages[i..] == old(pages)[i..]
      {
        assert pages[i] == old(pages)[i];
        if vector[i] > pages[i].version {
          pages := pages[i := Page(vector[i], {}, false)];
        }
        i := i + 1;
      }
    }

    // The rx timer fires. With no page left to receive, the program would read
    // past its page table; the caller must rule that out.
    method SendRequest() returns (sent: Msg)
      requires rxTimer && currentRxPage < |pages|
      modifies this
      ensures sent == RequestFor(old(View())) && View() == AfterRequest(old(View()))
    {
      var page := pages[currentRxPage];
      sent := Request(summaryFrom, page.version, currentRxPage, BYTE_BITS - page.packetSet);
      nrequests := nrequests + 1;
      if nrequests == CONST_LAMBDA {
        nrequests := 0;
        rxTimer := false;
        TransitionTo(Maintain);
      } else {
        rxTimer := true;
      }
    }

    method SendPage(p: nat) returns (sent: set<Msg>)
      requires Valid() && p < |pages|
      modifies this`txSet
      ensures sent == PagePackets(old(View()), p)
      ensures View() == old(View()).(txSet := {})
    {
      ghost var n := View();
      sent := {};
      var k := 0;
      while k < N_PKT
        invariant 0 <= k <= N_PKT
        invariant sent == PacketsBelow(n, p, k)
        modifies {}
      {
        NextPacket(n, p, k);
        if k in txSet {
          var payload := Slice(file[p], k);
          var crc := CrcOf(payload);
          sent := sent + {Packet(pages[p].version, p, k, crc, payload)};
        }
        k := k + 1;
      }
      txSet := {};
    }

    method TxCallback() returns (sent: set<Msg>)
      requires Valid() && txTimer
      modifies this
      ensures sent == TxPackets(old(View())) && View() == AfterTx(old(View()))
    {
      txTimer := false;
      sent := {};
      if currentTxPage >= 0 && txSet != {} {
        sent := SendPage(currentTxPage);
        currentTxPage := -1;
        TransitionTo(Maintain);
      }
    }

    // self: the node's own address.
    method AdvertiseSummary(self: nat) returns (sent: set<Msg>)
      requires |pages| <= 255
      ensures sent == if recvAdv >= CONST_K then {} else {SummaryOf(View(), self)}
    {
      if recvAdv >= CONST_K {
        return {};
      }
      var highest := HighestAvailablePage();
      sent := {Summary(self, updateVersion, highest)};
    }

    method SendProfile() returns (sent: set<Msg>)
      modifies this`broadcastProfile
      ensures sent == if old(broadcastProfile) && recvAdv < CONST_K then {ProfileOf(old(View()))} else {}
      ensures View() == if old(broadcastProfile) &&
              recvAdv < CONST_K then old(View()).(broadcastProfile := false) else old(View())
    {
      sent := {};
      if broadcastProfile && recvAdv < CONST_K {
        broadcastProfile := false;
        var vector: seq<u8> := [];
        while |vector| < |pages|
          invariant |vector| <= |pages|
          invariant forall i :: 0 <= i < |vector| ==> vector[i] == pages[i].version
          modifies {}
        {
          vector := vector + [pages[|vector|].version];
        }
        sent := {Profile(version, vector)};
        assert vector == ProfileOf(View()).vector;
      }
    }

    method CommandDispatcher(m: Msg, len: nat, hushed: bool)
      requires Valid() && WellFormed(m, |pages|)
      modifies this, currentPage
      ensures View() == Receive(old(View()), m, len, hushed)
    {
      match m {
        case Summary(_, _, _) =>
          if len >= SUMMARY_SIZE {
            HandleSummary(m, hushed);
          }
        case Request(_, _, _, _) =>
          if len >= REQUEST_SIZE {
            HandleRequest(m);
          }
        case Packet(_, _, _, _, _) =>
          if len >= PACKET_SIZE {
            HandlePacket(m);
          }
        case Profile(_, _) =>
          if len >= PROFILE_HEADER && |m.vector| > 0 && len >= PROFILE_HEADER + |m.vector| * m.vector[0] {
            HandleProfile(m);
          }
      }
    }
  }
}
