// How transactions end: which one each step frees, and, over whole runs, what a freed
// transaction was freed by and whether its callback was called.
module TransactionEnds {
  import opened Common
  import opened Transactions

  // The first slot the walk comes to whose attempts are used up.
  function Spent(s: State, expired: set<nat>, i: nat): (k: Option<nat>)
    requires Shaped(s) && i <= |s.open|
    ensures k.Some? ==> k.value < POOL_SIZE && k.value in s.open
    decreases |s.open| - i
  {
    if i == |s.open| then None
    else
      var k := s.open[i];
      if k in expired && s.pool[k].counter + 1 == MAX_RETRANSMIT then Some(k) else Spent(s, expired, i + 1)
  }

  // The slot of an open transaction that the step frees.
  function FreedSlot(s: State, step: Step): (k: Option<nat>)
    requires Shaped(s)
    ensures k.Some? ==> k.value < POOL_SIZE
  {
    match step
    case OpenStep(mid, con, registers, random) => None
    case ServeStep(mid, answered) => None
    case ReceiveStep(mid) => Find(s, mid, 0)
    case CheckStep(expired) => Spent(s, expired, 0)
    case RefuseStep =>
      if s.last.Some? && s.used[s.last.value.slot] then Some(s.last.value.slot) else None
  }

  // The transaction the step frees: an open one, or the one it opens when no answer
  // to it is waited for.
  function Ends(s: State, step: Step): Option<nat>
    requires Shaped(s)
  {
    if (step.ServeStep? || (step.OpenStep? && !step.con)) && FreeSlot(s.used).Some? then Some(s.count)
    else if FreedSlot(s, step).Some? then Some(s.pool[FreedSlot(s, step).value].id)
    else None
  }

  // The messages of a transaction when the step has freed it.
  ghost predicate Ended(step: Step, waits: seq<nat>) {
    match step
    case OpenStep(_, _, _, _) => waits == [0]
    case ServeStep(_, answered) => waits == if answered then [0] else []
    case CheckStep(_) => |waits| == MAX_RETRANSMIT + 1
    case _ => 1 <= |waits| <= MAX_RETRANSMIT && waits[|waits| - 1] > 0
  }

  // Whether the callback of the slot is called, if it has one.
  predicate Reports(step: Step) {
    step.ReceiveStep? || step.CheckStep?
  }

  // What the log says of one transaction.
  datatype Account = Account(waits: seq<nat>, frees: nat, fires: nat, registers: bool)

  function Of(log: seq<Event>, id: nat): Account {
    Account(Waits(log, id), Frees(log, id), Fires(log, id), Opened(id, true) in log)
  }

  function Settled(a: Account, calls: bool): Account {
    a.(frees := a.frees + 1, fires := a.fires + if calls then 1 else 0)
  }

  lemma LoggedAccount(log: seq<Event>, e: Event, id: nat)
    ensures e.id != id ==> Of(log + [e], id) == Of(log, id)
    ensures e == Freed(id) ==> Of(log + [e], id) == Settled(Of(log, id), false)
    ensures e.Sent? && e.id == id ==> Of(log + [e], id) == Of(log, id).(waits := Waits(log, id) + [e.wait])
    ensures e.Fired? && e.id == id ==> Of(log + [e], id) == Of(log, id).(fires := Fires(log, id) + 1)
    ensures e.Opened? && e.id == id ==>
              Of(log + [e], id) == Of(log, id).(registers := e.registers || Opened(id, true) in log)
  {
    Logged(log, e, id);
  }

  // ----- one transaction through one step -----

  lemma ClearAccount(s: State, k: nat, id: nat)
    requires Shaped(s) && k < POOL_SIZE
    ensures Of(Clear(s, k).log, id) == if id == s.pool[k].id then Settled(Of(s.log, id), false) else Of(s.log, id)
  {
    hide Of, Settled;
    LoggedAccount(s.log, Freed(s.pool[k].id), id);
  }

  lemma CloseAccount(s: State, k: nat, id: nat)
    requires Shaped(s) && k < POOL_SIZE
    ensures Of(Close(s, k).log, id) ==
            if id == s.pool[k].id then Settled(Of(s.log, id), s.pool[k].owner.Some?) else Of(s.log, id)
  {
    ClearAccount(s, k, id);
    var t := s.pool[k];
    if t.owner.Some? {
      LoggedAccount(Clear(s, k).log, Fired(t.id, t.owner.value), id);
    }
  }

  lemma SendAccount(s: State, k: nat, random: nat, id: nat)
    requires Shaped(s) && k < POOL_SIZE
    ensures var t, a, b := s.pool[k], Of(s.log, id), Of(Send(s, k, random).log, id);
            && (id != t.id ==> b == a)
            && (id == t.id && t.con && t.counter < MAX_RETRANSMIT ==> b == a.(waits := b.waits))
            && (id == t.id && !(t.con && t.counter < MAX_RETRANSMIT) ==>
                b == Settled(a.(waits := a.waits + [0]), t.con && t.owner.Some?))
  {
    var t := s.pool[k];
    hide Waits, Frees, Fires, FirstInterval;
    if t.con && t.counter < MAX_RETRANSMIT {
      LoggedAccount(s.log, Sent(t.id, Send(s, k, random).pool[k].interval), id);
    } else {
      LoggedAccount(s.log, Sent(t.id, 0), id);
      var sent := s.(log := s.log + [Sent(t.id, 0)]);
      CloseAccount(sent, k, id);
      ClearAccount(sent, k, id);
    }
  }

  // The account of a transaction that is opened and sent.
  lemma OpenAccount(s: State, mid: u16, con: bool, registers: bool, random: nat, id: nat)
    requires Shaped(s) && FreeSlot(s.used).Some?
    ensures var a, b := Of(s.log, id), Of(Open(s, mid, con, registers, random).log, id);
            && (id != s.count ==> b == a)
            && (id == s.count && con ==> b.frees == a.frees && b.fires == a.fires)
            && (id == s.count && !con ==> b.waits == a.waits + [0] && b.frees == a.frees + 1 && b.fires == a.fires)
  {
    var k := FreeSlot(s.used).value;
    LoggedAccount(s.log, Opened(s.count, registers), id);
    SendAccount(New(s, k, mid, con, registers), k, random, id);
  }

  lemma ServeAccount(s: State, mid: u16, answered: bool, id: nat)
    requires Shaped(s) && FreeSlot(s.used).Some?
    ensures var a, b := Of(s.log, id), Of(Serve(s, mid, answered).log, id);
            && (id != s.count ==> b == a)
            && (id == s.count ==> b == Settled(a.(waits := b.waits, registers := b.registers), false))
            && (id == s.count ==> b.waits == a.waits + if answered then [0] else [])
  {
    var k := FreeSlot(s.used).value;
    LoggedAccount(s.log, Opened(s.count, false), id);
    var r := New(s, k, mid, false, false).(last := Some(Request(k, s.count)));
    SendAccount(r, k, 0, id);
    ClearAccount(r, k, id);
  }

  // A slot passed over by the walk is as it was, and the others stay.
  lemma RetryAccount(s: State, k: nat, id: nat)
    requires Inv(s) && k < POOL_SIZE && s.used[k]
    ensures var t, a, b, r := s.pool[k], Of(s.log, id), Of(Retry(s, k).log, id), Retry(s, k);
            && (forall j :: 0 <= j < POOL_SIZE && j != k ==> r.pool[j] == s.pool[j])
            && r.pool[k] == s.pool[k].(counter := r.pool[k].counter, interval := r.pool[k].interval)
            && r.count == s.count
            && (id != t.id ==> b == a)
            && (if t.counter + 1 < MAX_RETRANSMIT
                then r.used == s.used && (id == t.id ==> b == a.(waits := b.waits))
                else !r.used[k] && (id == t.id ==>
                       b == Settled(a.(waits := a.waits + [0]), t.owner.Some?) && |b.waits| == MAX_RETRANSMIT + 1))
  {
    LiveBeside(s, k);
    var t := s.pool[k].(counter := s.pool[k].counter + 1);
    hide Inv, InvBeside, Of, Waits, Frees, Fires;
    SendAccount(s.(pool := s.pool[k := t]), k, 0, id);
  }

  // What a step does to the account of a transaction: when it is freed, and its callback
  // called, is counted; one that was freed before keeps its account.
  ghost predicate Effect(s: State, r: State, id: nat, freed: Option<nat>, calls: bool)
    requires Shaped(s)
  {
    var a, b := Of(s.log, id), Of(r.log, id);
    && b.frees == a.frees + (if freed == Some(id) then 1 else 0)
    && b.fires == a.fires + (if freed == Some(id) && calls then 1 else 0)
    && (id < s.count ==> b.registers == a.registers && (!Holds(s, id) ==> b == a))
  }

  function IdAt(s: State, k: Option<nat>): Option<nat>
    requires Shaped(s) && (k.Some? ==> k.value < POOL_SIZE)
  {
    if k.Some? then Some(s.pool[k.value].id) else None
  }

  predicate Calls(s: State, k: Option<nat>)
    requires Shaped(s) && (k.Some? ==> k.value < POOL_SIZE)
  {
    k.Some? && s.pool[k.value].owner.Some?
  }

  // One step of the walk.
  lemma WalkStep(s: State, expired: set<nat>, i: nat)
    requires Shaped(s) && i <= |s.open|
    ensures i == |s.open| ==> Check(s, expired, i) == s && Spent(s, expired, i) == None
    ensures i < |s.open| && s.open[i] !in expired ==>
              Check(s, expired, i) == Check(s, expired, i + 1) && Spent(s, expired, i) == Spent(s, expired, i + 1)
    ensures i < |s.open| && s.open[i] in expired ==>
              var r := Retry(s, s.open[i]);
              Check(s, expired, i) == if r.used[s.open[i]] then Check(r, expired, i + 1) else r
  {
    hide Retry;
  }

  // What the rest of the walk does to one transaction.
  ghost predicate Walked(s: State, expired: set<nat>, i: nat, id: nat)
    requires Shaped(s) && i <= |s.open|
  {
    var r, k := Check(s, expired, i), Spent(s, expired, i);
    && Effect(s, r, id, IdAt(s, k), Calls(s, k))
    && (IdAt(s, k) == Some(id) ==> |Waits(r.log, id)| == MAX_RETRANSMIT + 1)
  }

  lemma WalkedRetry(s: State, expired: set<nat>, i: nat, id: nat)
    requires Inv(s) && Shaped(s) && i < |s.open| && s.used[s.open[i]] && s.open[i] in expired
    requires var r := Retry(s, s.open[i]);
             r.used[s.open[i]] ==> Shaped(r) && Walked(r, expired, i + 1, id)
    ensures Walked(s, expired, i, id)
  {
    var k, spent := s.open[i], Spent(s, expired, i);
    WalkStep(s, expired, i);
    RetryEffect(s, k, id);
    RetryRest(s, k, expired, i + 1);
    hide Inv, Check, Spent, Retry, Waits, Effect, Holds, IdAt, Calls;
    var r := Retry(s, k);
    if r.used[k] {
      EffectAfter(s, r, Check(r, expired, i + 1), id, IdAt(s, spent), Calls(s, spent));
    }
  }

  lemma WalkedOn(s: State, expired: set<nat>, i: nat, id: nat)
    requires Shaped(s) && i <= |s.open|
    requires i < |s.open| ==> s.open[i] !in expired && Walked(s, expired, i + 1, id)
    ensures Walked(s, expired, i, id)
  {
    WalkStep(s, expired, i);
    NoEffect(s, s, id);
    hide Check, Spent, Waits, Effect;
  }

  lemma {:induction false} CheckAccount(s: State, expired: set<nat>, i: nat, id: nat)
    requires Inv(s) && i <= |s.open|
    ensures Shaped(s) && Walked(s, expired, i, id)
    decreases |s.open| - i
  {
    InvShaped(s);
    hide Inv, Retry, Walked;
    if i == |s.open| || s.open[i] !in expired {
      if i < |s.open| {
        CheckAccount(s, expired, i + 1, id);
      }
      WalkedOn(s, expired, i, id);
    } else {
      var k := s.open[i];
      assert k in s.open;
      RetryKeeps(s, k);
      var r := Retry(s, k);
      if r.used[k] {
        CheckAccount(r, expired, i + 1, id);
      }
      WalkedRetry(s, expired, i, id);
    }
  }

  lemma EffectAfter(s: State, m: State, r: State, id: nat, freed: Option<nat>, calls: bool)
    requires Shaped(s) && Shaped(m) && m.count == s.count && (Holds(m, id) <==> Holds(s, id))
    requires Effect(s, m, id, None, false) && Effect(m, r, id, freed, calls)
    ensures Effect(s, r, id, freed, calls)
  {
    hide Holds, Of;
  }

  lemma RetryEffect(s: State, k: nat, id: nat)
    requires Inv(s) && k < POOL_SIZE && s.used[k]
    ensures Shaped(s)
    ensures var r := Retry(s, k);
            if r.used[k] then Effect(s, r, id, None, false)
            else && Effect(s, r, id, IdAt(s, Some(k)), Calls(s, Some(k)))
                 && (IdAt(s, Some(k)) == Some(id) ==> |Waits(r.log, id)| == MAX_RETRANSMIT + 1)
  {
    OpenWaits(s, k);
    RetryAccount(s, k, id);
    hide Inv, Retry, Waits, Frees, Fires;
  }

  // The rest of the walk after a transaction was sent again.
  lemma RetryRest(s: State, k: nat, expired: set<nat>, i: nat)
    requires Inv(s) && Shaped(s) && 0 < i <= |s.open| && s.open[i - 1] == k && s.used[k] && k in expired
    ensures var r, spent := Retry(s, k), Spent(s, expired, i - 1);
            if r.used[k] then
              && r.open == s.open && r.count == s.count
              && Spent(r, expired, i) == spent
              && IdAt(r, spent) == IdAt(s, spent) && Calls(r, spent) == Calls(s, spent)
              && forall id :: Holds(r, id) <==> Holds(s, id)
            else spent == Some(k)
  {
    RetryAccount(s, k, 0);
    var r := Retry(s, k);
    assert ListOk(s);
    hide Inv, Retry, Of;
    if r.used[k] {
      SpentStays(s, r, k, expired, i);
      forall id
        ensures Holds(r, id) <==> Holds(s, id)
      {
        HoldsStays(s, r, id);
      }
    }
  }

  lemma HoldsStays(s: State, r: State, id: nat)
    requires Shaped(s) && Shaped(r) && r.used == s.used
    requires forall j :: 0 <= j < POOL_SIZE ==> r.pool[j].id == s.pool[j].id
    ensures Holds(r, id) <==> Holds(s, id)
  {
    forall k | 0 <= k < POOL_SIZE && s.used[k] && s.pool[k].id == id
      ensures Holds(r, id)
    {
      assert r.used[k] && r.pool[k].id == id;
    }
    forall k | 0 <= k < POOL_SIZE && r.used[k] && r.pool[k].id == id
      ensures Holds(s, id)
    {
      assert s.used[k] && s.pool[k].id == id;
    }
  }

  // What is in a slot the walk has left behind does not matter to the rest of it.
  lemma {:induction false} SpentStays(s: State, r: State, k: nat, expired: set<nat>, i: nat)
    requires Shaped(s) && Shaped(r) && r.open == s.open && i <= |s.open|
    requires forall j :: i <= j < |s.open| ==> s.open[j] != k
    requires forall j :: 0 <= j < POOL_SIZE && j != k ==> r.pool[j] == s.pool[j]
    ensures Spent(r, expired, i) == Spent(s, expired, i)
    decreases |s.open| - i
  {
    if i < |s.open| {
      SpentStays(s, r, k, expired, i + 1);
    }
  }

  lemma OpenWaits(s: State, k: nat)
    requires Inv(s) && k < POOL_SIZE && s.used[k]
    ensures var waits := Waits(s.log, s.pool[k].id);
            1 <= |waits| <= MAX_RETRANSMIT && waits[|waits| - 1] > 0
    ensures Holds(s, s.pool[k].id) && s.pool[k].id < s.count
  {
    LiveBeside(s, k);
  }

  lemma SlotEffect(s: State, k: nat, id: nat)
    requires Inv(s) && k < POOL_SIZE && s.used[k]
    ensures Shaped(s)
    ensures Effect(s, Close(s, k), id, IdAt(s, Some(k)), Calls(s, Some(k)))
    ensures Effect(s, Clear(s, k), id, IdAt(s, Some(k)), false)
  {
    OpenWaits(s, k);
    CloseAccount(s, k, id);
    ClearAccount(s, k, id);
    hide Inv, Close, Clear, Of, Holds;
  }

  lemma SlotWaits(s: State, k: nat, step: Step)
    requires Inv(s) && k < POOL_SIZE && s.used[k] && (step.ReceiveStep? || step.RefuseStep?)
    ensures Shaped(s) && Ended(step, Waits(Close(s, k).log, s.pool[k].id)) &&
            Ended(step, Waits(Clear(s, k).log, s.pool[k].id))
  {
    OpenWaits(s, k);
    CloseAccount(s, k, s.pool[k].id);
    ClearAccount(s, k, s.pool[k].id);
    hide Inv, Close, Clear, Waits, Frees, Fires;
  }

  lemma OpenEffect(s: State, mid: u16, con: bool, registers: bool, random: nat, id: nat)
    requires Inv(s) && FreeSlot(s.used).Some?
    ensures Shaped(s)
    ensures var r := Open(s, mid, con, registers, random);
            && Effect(s, r, id, if con then None else Some(s.count), false)
            && (!con && id == s.count ==> Waits(r.log, id) == [0])
  {
    InvShaped(s);
    OpenAccount(s, mid, con, registers, random, id);
    OpenedWaits(s, mid, con, registers, random);
    hide Inv, Open, Holds, Of, FreeSlot, Waits;
  }

  lemma OpenedWaits(s: State, mid: u16, con: bool, registers: bool, random: nat)
    requires Inv(s) && Shaped(s) && FreeSlot(s.used).Some?
    ensures !con ==> Waits(Open(s, mid, con, registers, random).log, s.count) == [0]
  {
    assert Unborn(s.count, s.log);
    OpenAccount(s, mid, con, registers, random, s.count);
    hide Inv, Open, Holds;
  }

  lemma ServeEffect(s: State, mid: u16, answered: bool, id: nat)
    requires Inv(s) && FreeSlot(s.used).Some?
    ensures Shaped(s)
    ensures var r := Serve(s, mid, answered);
            && Effect(s, r, id, Some(s.count), false)
            && (id == s.count ==> Waits(r.log, id) == if answered then [0] else [])
  {
    InvShaped(s);
    assert id >= s.count ==> Unborn(id, s.log);
    ServeAccount(s, mid, answered, id);
    hide Inv, Serve, Frees, Fires, Waits, Holds;
  }

  lemma FoundUsed(s: State, mid: u16)
    requires Inv(s)
    ensures Shaped(s)
    ensures Find(s, mid, 0).Some? ==> s.used[Find(s, mid, 0).value]
  {
    InvShaped(s);
    hide Inv;
  }

  lemma ReceiveEffect(s: State, mid: u16, id: nat)
    requires Inv(s)
    ensures Shaped(s)
    ensures var r, k := Receive(s, mid), Find(s, mid, 0);
            && Effect(s, r, id, IdAt(s, k), Calls(s, k))
            && (IdAt(s, k) == Some(id) ==> Ended(ReceiveStep(mid), Waits(r.log, id)))
  {
    FoundUsed(s, mid);
    var k := Find(s, mid, 0);
    hide Inv, Shaped, Find, Close, Waits, Of, Effect, Calls, Ended;
    if k.Some? {
      SlotEffect(s, k.value, id);
      SlotWaits(s, k.value, ReceiveStep(mid));
      SameEffect(s, Close(s, k.value), id, IdAt(s, k), Calls(s, k));
    } else {
      NoEffect(s, s.(last := None), id);
    }
  }

  lemma SameEffect(s: State, r: State, id: nat, freed: Option<nat>, calls: bool)
    requires Shaped(s) && Effect(s, r, id, freed, calls)
    ensures Effect(s, r.(last := None), id, freed, calls)
  {
  }

  lemma RefuseEffect(s: State, id: nat)
    requires Inv(s)
    ensures Shaped(s)
    ensures var r, k := Refuse(s), FreedSlot(s, RefuseStep);
            && Effect(s, r, id, IdAt(s, k), false)
            && (IdAt(s, k) == Some(id) ==> Ended(RefuseStep, Waits(r.log, id)))
  {
    InvShaped(s);
    if s.last.Some? && s.used[s.last.value.slot] {
      SlotEffect(s, s.last.value.slot, id);
      SlotWaits(s, s.last.value.slot, RefuseStep);
    } else {
      NoEffect(s, s, id);
    }
    hide Inv, Clear, Effect, Waits, Ended;
  }

  // Each step frees at most one transaction, and calls at most its callback.
  lemma StepEffect(s: State, step: Step, id: nat)
    requires Inv(s)
    ensures Shaped(s)
    ensures Effect(s, Act(s, step), id, Ends(s, step), Reports(step) && Calls(s, FreedSlot(s, step)))
    ensures Ends(s, step) == Some(id) ==> Ended(step, Waits(Act(s, step).log, id))
  {
    InvShaped(s);
    hide Inv, Open, Serve, Receive, Refuse, Check, Waits, Effect, Find, Spent, FreeSlot;
    match step
    case OpenStep(mid, con, registers, random) =>
      if FreeSlot(s.used).Some? {
        OpenEffect(s, mid, con, registers, random, id);
      } else {
        NoEffect(s, s, id);
        OpenFull(s, step);
      }
    case ServeStep(mid, answered) =>
      if FreeSlot(s.used).Some? {
        ServeEffect(s, mid, answered, id);
      } else {
        NoEffect(s, s.(last := None), id);
        OpenFull(s, step);
      }
    case ReceiveStep(mid) => ReceiveEffect(s, mid, id);
    case RefuseStep => RefuseEffect(s, id);
    case CheckStep(expired) => CheckAccount(s, expired, 0, id);
  }

  lemma NoEffect(s: State, r: State, id: nat)
    requires Shaped(s) && r.log == s.log
    ensures Effect(s, r, id, None, false)
  {
  }

  lemma OpenFull(s: State, step: Step)
    requires Shaped(s) && FreeSlot(s.used).None?
    ensures step.OpenStep? ==> Act(s, step) == s
    ensures step.ServeStep? ==> Act(s, step) == s.(last := None)
  {
  }

  // ----- whole runs -----

  // Step n of the run frees the transaction.
  ghost predicate EndsAt(s: State, steps: seq<Step>, n: nat, id: nat)
    requires Inv(s) && n < |steps|
  {
    var before := RunFrom(s, steps[..n]);
    Shaped(before) && Ends(before, steps[n]) == Some(id)
  }

  // ... and calls its callback.
  ghost predicate CallsAt(s: State, steps: seq<Step>, n: nat)
    requires Inv(s) && n < |steps|
  {
    var before := RunFrom(s, steps[..n]);
    Shaped(before) && Reports(steps[n]) && Calls(before, FreedSlot(before, steps[n]))
  }

  lemma Earlier(s: State, steps: seq<Step>, n: nat, id: nat)
    requires Inv(s) && n < |steps| - 1
    ensures EndsAt(s, steps[..|steps| - 1], n, id) == EndsAt(s, steps, n, id)
    ensures CallsAt(s, steps[..|steps| - 1], n) == CallsAt(s, steps, n)
  {
    assert steps[..|steps| - 1][..n] == steps[..n];
  }

  // The last step of a run.
  lemma LastStep(s: State, steps: seq<Step>, id: nat)
    requires Inv(s) && steps != []
    ensures var n := |steps| - 1;
            var before, r := RunFrom(s, steps[..n]), RunFrom(s, steps);
            && Inv(before) && Shaped(before) && r == Act(before, steps[n])
            && Effect(before, r, id, if EndsAt(s, steps, n, id) then Some(id) else None, CallsAt(s, steps, n))
            && (EndsAt(s, steps, n, id) ==> Ended(steps[n], Waits(r.log, id)))
  {
    var before := RunFrom(s, steps[..|steps| - 1]);
    StepEffect(before, steps[|steps| - 1], id);
    hide Inv, Shaped, Of, Holds, Ended, Ends, Act, Calls, FreedSlot;
  }

  lemma FreedOnce(s: State, steps: seq<Step>, id: nat)
    requires Initial(s)
    ensures Inv(s)
    ensures var r := RunFrom(s, steps);
            && Frees(r.log, id) <= 1 && Fires(r.log, id) <= Frees(r.log, id)
            && (Frees(r.log, id) == 1 ==> Shaped(r) && id < r.count && !Holds(r, id))
  {
    RunSafe(s, steps, id);
    InvShaped(RunFrom(s, steps));
  }

  // A transaction that was freed was freed by some step,
  lemma {:induction false} FreedBySomeStep(s: State, steps: seq<Step>, id: nat) returns (n: nat)
    requires Initial(s) && Inv(s) && Frees(RunFrom(s, steps).log, id) == 1
    ensures n < |steps| && EndsAt(s, steps, n, id)
    decreases |steps|
  {
    hide Inv, Initial, EndsAt, CallsAt, Holds;
    if steps == [] {
      assert RunFrom(s, []).log == [] by {
        hide *;
        InitialLog(s);
      }
      assert false;
    }
    LastStep(s, steps, id);
    n := |steps| - 1;
    if !EndsAt(s, steps, n, id) {
      n := FreedBySomeStep(s, steps[..|steps| - 1], id);
      Earlier(s, steps, n, id);
    }
  }

  lemma InitialLog(s: State)
    requires Initial(s) && Inv(s)
    ensures RunFrom(s, []).log == [] && RunFrom(s, []).last == None
  {
  }

  // by no other, and from then on its messages and callbacks stay what they were.
  lemma {:induction false} EndedBy(s: State, steps: seq<Step>, n: nat, id: nat)
    requires Initial(s) && Inv(s) && n < |steps| && EndsAt(s, steps, n, id)
    ensures var log := RunFrom(s, steps).log;
            && Frees(log, id) == 1
            && Fires(log, id) == (if CallsAt(s, steps, n) then 1 else 0)
            && Ended(steps[n], Waits(log, id))
    ensures forall m :: n < m < |steps| ==> !EndsAt(s, steps, m, id)
    decreases |steps|
  {
    hide Inv, Initial, EndsAt, CallsAt, Ended, Holds, Act, Waits, Frees, Fires, RunFrom;
    var last := |steps| - 1;
    LastStep(s, steps, id);
    FreedOnce(s, steps, id);
    FreedOnce(s, steps[..last], id);
    if n < last {
      Earlier(s, steps, n, id);
      EndedBy(s, steps[..last], n, id);
      forall m | n < m < |steps|
        ensures !EndsAt(s, steps, m, id)
      {
        if m < last {
          Earlier(s, steps, m, id);
        }
      }
    }
  }

  // How a transaction was freed shows in its messages, but for answers and refusals,
  // which come in the middle of the attempts.
  lemma FreedIff(s: State, steps: seq<Step>, id: nat)
    requires Initial(s)
    ensures Inv(s)
    ensures var log := RunFrom(s, steps).log;
            && (Frees(log, id) == 1 <==> exists n :: 0 <= n < |steps| && EndsAt(s, steps, n, id))
            && (forall m, n ::
                  0 <= m < n < |steps| ==> !EndsAt(s, steps, m, id) || !EndsAt(s, steps, n, id))
            && forall n :: 0 <= n < |steps| && EndsAt(s, steps, n, id) ==> Ended(steps[n], Waits(log, id))
  {
    FreedOnce(s, steps, id);
    hide Initial, Inv, EndsAt, Ended;
    if Frees(RunFrom(s, steps).log, id) == 1 {
      var n := FreedBySomeStep(s, steps, id);
    }
    forall n | 0 <= n < |steps| && EndsAt(s, steps, n, id)
      ensures Frees(RunFrom(s, steps).log, id) == 1 && Ended(steps[n], Waits(RunFrom(s, steps).log, id))
      ensures forall m :: n < m < |steps| ==> !EndsAt(s, steps, m, id)
    {
      EndedBy(s, steps, n, id);
    }
  }

  lemma {:induction false} RegistersStay(s: State, steps: seq<Step>, n: nat, id: nat)
    requires Initial(s) && Inv(s) && n < |steps| && EndsAt(s, steps, n, id)
    requires id < RunFrom(s, steps[..n]).count
    ensures Opened(id, true) in RunFrom(s, steps).log <==> Opened(id, true) in RunFrom(s, steps[..n]).log
    decreases |steps|
  {
    hide Inv, Initial, EndsAt, CallsAt, Ended, Holds, Waits, Frees, Fires, RunFrom;
    var last := |steps| - 1;
    LastStep(s, steps, id);
    if n < last {
      Earlier(s, steps, n, id);
      EndedBy(s, steps[..last], n, id);
      FreedOnce(s, steps[..last], id);
      assert steps[..last][..n] == steps[..n];
      RegistersStay(s, steps[..last], n, id);
    }
  }

  // A registered callback is called when an answer or the last attempt frees its transaction.
  lemma RegisteredCalls(s: State, steps: seq<Step>, n: nat, id: nat)
    requires Initial(s) && Inv(s) && n < |steps| && EndsAt(s, steps, n, id) && Reports(steps[n])
    requires Opened(id, true) in RunFrom(s, steps).log
    ensures CallsAt(s, steps, n)
  {
    var before := RunFrom(s, steps[..n]);
    var k := FreedSlot(before, steps[n]).value;
    FoundOpen(before, steps[n]);
    OpenWaits(before, k);
    RegistersStay(s, steps, n, id);
    RunOwners(s, steps[..n]);
    hide Inv, Initial, Shaped, RunFrom;
  }

  lemma FoundOpen(s: State, step: Step)
    requires Inv(s)
    ensures Shaped(s) && (FreedSlot(s, step).Some? ==> s.used[FreedSlot(s, step).value])
  {
    InvShaped(s);
    hide Inv, Find, Spent;
  }

  lemma SilentAt(s: State, steps: seq<Step>, n: nat, id: nat)
    requires Initial(s) && Inv(s) && n < |steps| && EndsAt(s, steps, n, id)
    requires var log := RunFrom(s, steps).log;
             Opened(id, true) in log && Waits(log, id) != [] && Waits(log, id) != [0]
    ensures Fires(RunFrom(s, steps).log, id) == if steps[n] == RefuseStep then 0 else 1
  {
    hide Initial, Inv, EndsAt, CallsAt, RunFrom, Waits;
    EndedBy(s, steps, n, id);
    CallsReports(s, steps, n);
    if Reports(steps[n]) {
      RegisteredCalls(s, steps, n, id);
    }
  }

  // A confirmable transaction is freed without a call of the callback it registered
  // exactly when a datagram that was not parsed freed it.
  lemma SilentIff(s: State, steps: seq<Step>, id: nat)
    requires Initial(s)
    ensures Inv(s)
    ensures var log := RunFrom(s, steps).log;
            Opened(id, true) in log && Waits(log, id) != [] && Waits(log, id) != [0] ==>
              (Frees(log, id) == 1 && Fires(log, id) == 0 <==>
               exists n :: 0 <= n < |steps| && EndsAt(s, steps, n, id) && steps[n] == RefuseStep)
  {
    FreedIff(s, steps, id);
    hide Initial, Inv, EndsAt, RunFrom, Waits, Ended;
    var log := RunFrom(s, steps).log;
    if Opened(id, true) in log && Waits(log, id) != [] && Waits(log, id) != [0] {
      forall n | 0 <= n < |steps| && EndsAt(s, steps, n, id)
        ensures Fires(log, id) == if steps[n] == RefuseStep then 0 else 1
      {
        SilentAt(s, steps, n, id);
      }
    }
  }

  lemma CallsReports(s: State, steps: seq<Step>, n: nat)
    requires Inv(s) && n < |steps|
    ensures CallsAt(s, steps, n) ==> steps[n] != RefuseStep
  {
  }

  // ----- what a refused datagram frees -----

  // The most recent datagram that was parsed is the request of step n, which x was
  // opened for.
  ghost predicate Serving(s: State, steps: seq<Step>, n: nat, x: Request)
    requires Inv(s) && n < |steps|
  {
    var before := RunFrom(s, steps[..n]);
    steps[n].ServeStep? && FreeSlot(before.used) == Some(x.slot) && x.id == before.count && LastParsed(steps, n)
  }

  predicate LastParsed(steps: seq<Step>, n: nat) {
    forall m :: n < m < |steps| ==> !steps[m].ServeStep? && !steps[m].ReceiveStep?
  }

  ghost predicate Uses(s: State, k: nat, id: nat) {
    Shaped(s) && k < POOL_SIZE && s.used[k] && s.pool[k].id == id
  }

  // Open transactions may be freed, but none is opened.
  ghost predicate Shrinks(s: State, r: State) {
    && Shaped(s) && Shaped(r) && r.count == s.count && r.last == s.last
    && forall j :: 0 <= j < POOL_SIZE && r.used[j] ==>
         s.used[j] && r.pool[j].id == s.pool[j].id && r.pool[j].mid == s.pool[j].mid
  }

  lemma SendShrinks(s: State, k: nat, random: nat)
    requires Shaped(s) && k < POOL_SIZE
    ensures Shrinks(s, Clear(s, k)) && Shrinks(s, Close(s, k)) && Shrinks(s, Send(s, k, random))
    ensures Shrinks(s, Retry(s, k))
  {
    hide FirstInterval, Remove;
  }

  lemma {:induction false} CheckShrinks(s: State, expired: set<nat>, i: nat)
    requires Shaped(s) && i <= |s.open|
    ensures Shrinks(s, Check(s, expired, i))
    decreases |s.open| - i
  {
    hide Retry, Check, Spent;
    WalkStep(s, expired, i);
    if i < |s.open| {
      SendShrinks(s, s.open[i], 0);
      var r := Retry(s, s.open[i]);
      if s.open[i] !in expired {
        CheckShrinks(s, expired, i + 1);
      } else if r.used[s.open[i]] {
        CheckShrinks(r, expired, i + 1);
      }
    }
  }

  // What coap_receive points to: the slot of the request's own transaction, which is
  // freed at once, so that whoever uses the slot came later.
  ghost predicate Newer(s: State) {
    && Shaped(s)
    && (s.last.Some? ==> s.last.value.id < s.count)
    && (s.last.Some? && s.used[s.last.value.slot] ==> s.pool[s.last.value.slot].id > s.last.value.id)
  }

  lemma StepNewer(s: State, step: Step)
    requires Newer(s)
    ensures var r := Act(s, step);
            && Newer(r)
            && r.last == match step
                         case ServeStep(_, _) =>
                           var k := FreeSlot(s.used);
                           if k.Some? then Some(Request(k.value, s.count)) else None
                         case ReceiveStep(_) => None
                         case _ => s.last
  {
    var k := FreeSlot(s.used);
    hide Send, Clear, Close, Check, Find, FreeSlot;
    match step
    case OpenStep(mid, con, registers, random) =>
      if k.Some? {
        SendShrinks(New(s, k.value, mid, con, registers), k.value, random);
      }
    case ServeStep(mid, answered) =>
      if k.Some? {
        var r := New(s, k.value, mid, false, false).(last := Some(Request(k.value, s.count)));
        SendShrinks(r, k.value, 0);
        UnconfirmedFreed(r, k.value);
      }
    case ReceiveStep(mid) =>
      if Find(s, mid, 0).Some? {
        SendShrinks(s, Find(s, mid, 0).value, 0);
      }
    case RefuseStep =>
      if s.last.Some? {
        SendShrinks(s, s.last.value.slot, 0);
      }
    case CheckStep(expired) => CheckShrinks(s, expired, 0);
  }

  lemma UnconfirmedFreed(s: State, k: nat)
    requires Shaped(s) && k < POOL_SIZE && !s.pool[k].con
    ensures !Send(s, k, 0).used[k] && !Clear(s, k).used[k]
  {
  }

  lemma {:induction false} RunNewer(s: State, steps: seq<Step>)
    requires Initial(s) && Inv(s)
    ensures Newer(RunFrom(s, steps))
    decreases |steps|
  {
    if steps != [] {
      RunNewer(s, steps[..|steps| - 1]);
      StepNewer(RunFrom(s, steps[..|steps| - 1]), steps[|steps| - 1]);
    }
  }

  lemma LastParsedStep(steps: seq<Step>, n: nat)
    requires n < |steps| - 1
    ensures LastParsed(steps, n) <==>
              LastParsed(steps[..|steps| - 1], n) && !steps[|steps| - 1].ServeStep? && !steps[|steps| - 1].ReceiveStep?
  {
  }

  lemma ServingStep(s: State, steps: seq<Step>, n: nat, x: Request)
    requires Inv(s) && n < |steps|
    ensures var last := |steps| - 1;
            Serving(s, steps, n, x) <==>
              if n == last
              then steps[n].ServeStep? && FreeSlot(RunFrom(s, steps[..last]).used) == Some(x.slot) &&
                   x.id == RunFrom(s, steps[..last]).count
              else Serving(s, steps[..last], n, x) && !steps[last].ServeStep? && !steps[last].ReceiveStep?
  {
    hide Inv, RunFrom, FreeSlot;
    if n < |steps| - 1 {
      LastParsedStep(steps, n);
      assert steps[..|steps| - 1][..n] == steps[..n];
      hide LastParsed;
    }
  }

  ghost predicate Served(s: State, steps: seq<Step>, x: Request)
    requires Inv(s)
  {
    exists n :: 0 <= n < |steps| && Serving(s, steps, n, x)
  }

  lemma ServedStep(s: State, steps: seq<Step>, x: Request)
    requires Inv(s) && steps != []
    ensures var last := |steps| - 1;
            Served(s, steps, x) <==>
              if steps[last].ServeStep?
              then FreeSlot(RunFrom(s, steps[..last]).used) == Some(x.slot) && x.id == RunFrom(s, steps[..last]).count
              else Served(s, steps[..last], x) && !steps[last].ReceiveStep?
  {
    var last := |steps| - 1;
    hide Inv, Serving, RunFrom, FreeSlot;
    ServingStep(s, steps, last, x);
    forall n | 0 <= n < last
      ensures Serving(s, steps, n, x) <==>
              Serving(s, steps[..last], n, x) && !steps[last].ServeStep? && !steps[last].ReceiveStep?
    {
      ServingStep(s, steps, n, x);
    }
  }

  // It points to a transaction exactly while the most recent datagram that was parsed is
  // the request that one was opened for.
  lemma {:induction false} PointerIff(s: State, steps: seq<Step>, x: Request)
    requires Initial(s) && Inv(s)
    ensures RunFrom(s, steps).last == Some(x) <==> Served(s, steps, x)
    decreases |steps|
  {
    hide Initial, Inv, Newer, FreeSlot, Act;
    if steps == [] {
      InitialLog(s);
    } else {
      hide Served;
      var last := |steps| - 1;
      RunNewer(s, steps[..last]);
      StepNewer(RunFrom(s, steps[..last]), steps[last]);
      PointerIff(s, steps[..last], x);
      ServedStep(s, steps, x);
    }
  }

  // A datagram that is not parsed frees a transaction exactly when that one uses the slot
  // of the request parsed last. It was opened after that request's own, waits for an
  // answer, and has attempts left.
  lemma RefusalFreesIff(s: State, steps: seq<Step>, id: nat)
    requires Initial(s)
    ensures Inv(s)
    ensures var r := RunFrom(s, steps);
            Frees(RunFrom(s, steps + [RefuseStep]).log, id) == Frees(r.log, id) + 1 <==>
            exists x :: Served(s, steps, x) && Uses(r, x.slot, id)
    ensures var r := RunFrom(s, steps);
            forall x :: Served(s, steps, x) && Uses(r, x.slot, id) ==>
              x.id < id < r.count && Ended(RefuseStep, Waits(r.log, id)) && Frees(r.log, id) == 0
  {
    InitialInv(s);
    var r := RunFrom(s, steps);
    RunSnoc(s, steps, RefuseStep);
    hide Initial, Inv, Served, RunFrom, Act, Ended, Waits, Frees;
    RefusedNow(r, id);
    forall x
      ensures Served(s, steps, x) <==> r.last == Some(x)
    {
      PointerIff(s, steps, x);
    }
    RunNewer(s, steps);
    forall x | r.last == Some(x) && Uses(r, x.slot, id)
      ensures x.id < id < r.count && Ended(RefuseStep, Waits(r.log, id)) && Frees(r.log, id) == 0
    {
      Waiting(r, x.slot);
    }
  }

  lemma RefusedNow(s: State, id: nat)
    requires Inv(s) && Shaped(s)
    ensures Frees(Act(s, RefuseStep).log, id) == Frees(s.log, id) + 1 <==>
            s.last.Some? && Uses(s, s.last.value.slot, id)
  {
    StepEffect(s, RefuseStep, id);
    hide Inv, Act, Waits, Fires, Frees, Holds;
  }

  lemma Waiting(s: State, k: nat)
    requires Inv(s) && Shaped(s) && k < POOL_SIZE && s.used[k]
    ensures Ended(RefuseStep, Waits(s.log, s.pool[k].id)) && Frees(s.log, s.pool[k].id) == 0
    ensures s.pool[k].id < s.count
  {
    OpenWaits(s, k);
    LiveBeside(s, k);
    hide Inv, InvBeside;
  }

  lemma ServedAlone(s: State, mid: u16, answered: bool)
    requires Empty(s)
    ensures var r := Serve(s, mid, answered);
            Empty(r) && r.count == s.count + 1 && r.last == Some(Request(0, s.count))
  {
    FirstFree(s.used);
    hide FreeSlot, FirstInterval;
  }

  // A request is answered, a transaction of the node's own gets its slot, and the next
  // datagram is not parsed.
  lemma DroppedUnanswered(s: State, mid1: u16, mid2: u16, answered: bool, random: nat)
    requires Initial(s)
    ensures Inv(s)
    ensures var log := RunFrom(s, [ServeStep(mid1, answered), OpenStep(mid2, true, true, random), RefuseStep]).log;
            Frees(log, 1) == 1 && Fires(log, 1) == 0 && Ended(RefuseStep, Waits(log, 1))
  {
    InitialInv(s);
    assert Empty(s) && s.count == 0;
    var a, b := ServeStep(mid1, answered), OpenStep(mid2, true, true, random);
    var steps := [a, b, RefuseStep];
    assert RunFrom(s, []) == s;
    assert [] + [a] == [a] && [a] + [b] == [a, b] && steps[..2] == [a, b];
    hide Inv, Initial, Serve, Open, RunFrom, Empty, Frees, Fires, Waits, Ended;
    ServedAlone(s, mid1, answered);
    DroppedState(Serve(s, mid1, answered), mid2, random);
    hide Act, Ends;
    RunSnoc(s, [], a);
    RunSnoc(s, [a], b);
    ServedThenOpened(s, mid1, answered, mid2, random);
    assert EndsAt(s, steps, 2, 1);
    hide EndsAt, CallsAt;
    EndedBy(s, steps, 2, 1);
    CallsReports(s, steps, 2);
  }

  lemma ServedThenOpened(s: State, mid1: u16, answered: bool, mid2: u16, random: nat)
    requires Shaped(s) && Shaped(Serve(s, mid1, answered))
    ensures Shaped(Act(s, ServeStep(mid1, answered)))
    ensures Act(Act(s, ServeStep(mid1, answered)), OpenStep(mid2, true, true, random)) ==
            Open(Serve(s, mid1, answered), mid2, true, true, random)
  {
  }

  lemma DroppedState(s: State, mid: u16, random: nat)
    requires Empty(s) && s.count == 1 && s.last == Some(Request(0, 0))
    ensures var r := Open(s, mid, true, true, random);
            Shaped(r) && Ends(r, RefuseStep) == Some(1)
  {
    OpenedAlone(s, mid, true, random);
    hide Open;
  }
}
