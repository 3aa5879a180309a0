// The transaction layer as the program keeps it: a fixed pool of slots and a list of
// the open ones, updated in place.
module TransactionPool {
  import opened Common
  import opened Transactions

  class Pool {
    const slots: array<Slot>
    const used: array<bool>
    var open: seq<nat>
    var count: nat
    var log: seq<Event>
    var last: Option<Request>

    ghost predicate Valid()
      reads this, slots, used
    {
      slots.Length == used.Length == POOL_SIZE && (slots as object) != used && Shaped(View())
    }

    ghost function View(): State
      reads this, slots, used
    {
      State(slots[..], used[..], open, count, log, last)
    }

    constructor ()
      ensures Valid() && Initial(View()) && fresh(slots) && fresh(used)
    {
      slots := new Slot[POOL_SIZE](i => Slot(0, 0, 0, None, false, 0));
      used := new bool[POOL_SIZE](i => false);
      open, count, log, last := [], 0, [], None;
      new;
      assert used[..] == [false, false, false, false];
    }

    // memb_alloc, filling in the slot, list_add; the callback is only set on request.
    method NewTransaction(mid: u16, con: bool, registers: bool) returns (k: Option<nat>)
      requires Valid()
      modifies this`open, this`count, this`log, slots, used
      ensures Valid() && k == FreeSlot(old(View()).used)
      ensures View() == if k.Some? then New(old(View()), k.value, mid, con, registers) else old(View())
    {
      ghost var was := View();
      var i := 0;
      while i < POOL_SIZE && used[i]
        invariant 0 <= i <= POOL_SIZE && forall j :: 0 <= j < i ==> used[j]
      {
        i := i + 1;
      }
      if i == POOL_SIZE {
        return None;
      }
      used[i] := true;
      slots[i] := slots[i].(mid := mid, counter := 0, con := con, id := count);
      if registers {
        slots[i] := slots[i].(owner := Some(count));
      }
      open := open + [i];
      log := log + [Opened(count, registers)];
      count := count + 1;
      assert View() == New(was, i, mid, con, registers);
      return Some(i);
    }

    method ClearTransaction(k: nat)
      requires Valid() && k < POOL_SIZE
      modifies this`open, this`log, used
      ensures Valid() && View() == Clear(old(View()), k)
    {
      ghost var was := View();
      open := Remove(open, k);
      used[k] := false;
      log := log + [Freed(slots[k].id)];
      assert View() == Clear(was, k);
    }

    // Freeing a transaction, then calling the callback it had.
    method CloseTransaction(k: nat)
      requires Valid() && k < POOL_SIZE
      modifies this`open, this`log, used
      ensures Valid() && View() == Close(old(View()), k)
    {
      var id, callback := slots[k].id, slots[k].owner;
      ClearTransaction(k);
      if callback.Some? {
        log := log + [Fired(id, callback.value)];
      }
    }

    method SendTransaction(k: nat, random: nat)
      requires Valid() && k < POOL_SIZE
      modifies this`open, this`log, slots, used
      ensures Valid() && View() == Send(old(View()), k, random)
    {
      ghost var was := View();
      hide Remove, Clear, Close;
      var t := slots[k];
      if t.con && t.counter < MAX_RETRANSMIT {
        if t.counter == 0 {
          slots[k] := t.(interval := FirstInterval(random));
        } else {
          slots[k] := t.(interval := 2 * t.interval);
        }
        log := log + [Sent(t.id, slots[k].interval)];
        assert View() == Send(was, k, random);
      } else {
        log := log + [Sent(t.id, 0)];
        if t.con {
          CloseTransaction(k);
        } else {
          ClearTransaction(k);
        }
      }
    }

    method GetTransactionByMid(mid: u16) returns (k: Option<nat>)
      requires Valid()
      ensures k == Find(View(), mid, 0)
    {
      var i := 0;
      while i < |open|
        invariant 0 <= i <= |open| && Find(View(), mid, i) == Find(View(), mid, 0)
      {
        if slots[open[i]].mid == mid {
          return Some(open[i]);
        }
        i := i + 1;
      }
      return None;
    }

    method OpenAndSend(mid: u16, con: bool, registers: bool, random: nat)
      requires Valid()
      modifies this`open, this`count, this`log, slots, used
      ensures Valid() && View() == Open(old(View()), mid, con, registers, random)
    {
      hide Send, New;
      var k := NewTransaction(mid, con, registers);
      if k.Some? {
        SendTransaction(k.value, random);
      }
    }

    method ReceiveAnswer(mid: u16)
      requires Valid()
      modifies this`open, this`log, this`last, used
      ensures Valid() && View() == Receive(old(View()), mid)
    {
      hide Close;
      var k := GetTransactionByMid(mid);
      if k.Some? {
        CloseTransaction(k.value);
      }
      last := None;
    }

    method ServeRequest(mid: u16, answered: bool)
      requires Valid()
      modifies this`open, this`count, this`log, this`last, slots, used
      ensures Valid() && View() == Serve(old(View()), mid, answered)
    {
      hide Send, Clear;
      ghost var was := View();
      var id := count;
      var k := NewTransaction(mid, false, false);
      last := if k.Some? then Some(Request(k.value, id)) else None;
      if k.Some? {
        assert View() == New(was, k.value, mid, false, false).(last := last);
        hide New;
        if answered {
          SendTransaction(k.value, 0);
        } else {
          ClearTransaction(k.value);
        }
      }
    }

    // The pointer of the last request is used again; a free slot stays free.
    method RefuseDatagram()
      requires Valid()
      modifies this`open, this`log, used
      ensures Valid() && View() == Refuse(old(View()))
    {
      if last.Some? && used[last.value.slot] {
        ClearTransaction(last.value.slot);
      }
    }

    method RetryTransaction(k: nat)
      requires Valid() && k < POOL_SIZE
      modifies this`open, this`log, slots, used
      ensures Valid() && View() == Retry(old(View()), k)
    {
      ghost var was := View();
      hide Send;
      slots[k] := slots[k].(counter := slots[k].counter + 1);
      assert View() == was.(pool := was.pool[k := was.pool[k].(counter := was.pool[k].counter + 1)]);
      SendTransaction(k, 0);
    }

    // The walk follows the next pointers: that of a removed element is null.
    method CheckTransactions(expired: set<nat>)
      requires Valid()
      modifies this`open, this`log, slots, used
      ensures Valid() && View() == Check(old(View()), expired, 0)
    {
      hide Retry;
      var i := 0;
      while i < |open|
        invariant Valid() && 0 <= i <= |open|
        invariant Check(View(), expired, i) == Check(old(View()), expired, 0)
        decreases |open| - i
      {
        var k := open[i];
        if k in expired {
          RetryTransaction(k);
          if !used[k] {
            return;
          }
        }
        i := i + 1;
      }
    }
  }
}
