/** What one event does to the open exchanges, slot by slot, in every run. */
module TransactionMeaning {
  import opened Basics
  import opened Transactions

  /** Slot i holds an exchange with this message id. */
  predicate Holds(y: Pool, i: nat, mid: nat) {
    i < |y.slots| && y.slots[i].Some? && y.slots[i].value.mid == mid
  }

  // ----- acknowledgements -----

  /** The exchange found has the message id, and none listed before it has; nothing is found exactly if
      no listed exchange has it. */
  lemma {:induction false} FindMeaning(y: Pool, mid: nat, at: nat)
    ensures var r := Find(y, mid, at);
      && (r.Some? ==> exists k :: at <= k < |y.list| && y.list[k] == r.value && Holds(y, r.value, mid)
                                  && forall j :: at <= j < k ==> !Holds(y, y.list[j], mid))
      && (r.None? <==> forall k :: at <= k < |y.list| ==> !Holds(y, y.list[k], mid))
    decreases if at < |y.list| then |y.list| - at else 0
  {
    if at < |y.list| && !Holds(y, y.list[at], mid) {
      FindMeaning(y, mid, at + 1);
    }
  }

  /** In every run, an acknowledgement changes nothing if no open exchange has its message id. Otherwise
      it ends one that has it, and leaves every other slot as it was. */
  lemma AcknowledgeMeaning(events: seq<Event>, mid: nat)
    ensures var y, y' := Run(EmptyPool(), events), Run(EmptyPool(), events + [Acknowledge(mid)]);
      && |y.slots| == |y'.slots| == 4
      && ((forall i :: 0 <= i < 4 ==> !Holds(y, i, mid)) ==> y' == y)
      && ((exists i :: 0 <= i < 4 && Holds(y, i, mid)) ==>
           exists i :: 0 <= i < 4 && Holds(y, i, mid) && Freed(y, y', i, y.slots[i].value, Acknowledged))
  {
    hide Run, PoolOk, Find;
    var y := Run(EmptyPool(), events);
    AfterRun(events, Acknowledge(mid));
    FindMeaning(y, mid, 0);
    ListedOrFree(y);
    if exists i :: 0 <= i < 4 && Holds(y, i, mid) {
      var i :| 0 <= i < 4 && Holds(y, i, mid);
      var k :| 0 <= k < |y.list| && y.list[k] == i;
      assert Find(y, mid, 0).Some?;
      var found := Find(y, mid, 0).value;
      assert Freed(y, Step(y, Acknowledge(mid)), found, y.slots[found].value, Acknowledged);
    }
  }

  /** One exchange has ended: its slot is free, it is logged with the reason, and no other slot changed. */
  predicate Freed(y: Pool, y': Pool, i: nat, t: Tx, why: Reason) {
    && i < |y.slots| == |y'.slots| && y'.slots[i] == None
    && (forall j :: 0 <= j < |y.slots| && j != i ==> y'.slots[j] == y.slots[j])
    && |y'.closed| == |y.closed| + 1 && y'.closed[..|y.closed|] == y.closed
    && y'.closed[|y.closed|].tx == t && y'.closed[|y.closed|].why == why
    && y'.started == y.started
  }

  /** The state after one more event, and what is known of it. */
  lemma {:induction false} RunOneMore(y: Pool, events: seq<Event>, e: Event)
    ensures Run(y, events + [e]) == Step(Run(y, events), e)
    decreases |events|
  {
    hide Step;
    if events == [] {
      assert (events + [e])[1..] == [];
    } else {
      assert (events + [e])[1..] == events[1..] + [e] && (events + [e])[0] == events[0];
      RunOneMore(Step(y, events[0]), events[1..], e);
    }
  }

  lemma AfterRun(events: seq<Event>, e: Event)
    ensures var y := Run(EmptyPool(), events);
      PoolOk(y) && |y.slots| == 4 && Run(EmptyPool(), events + [e]) == Step(y, e)
  {
    hide Run, Step, Remove;
    assert PoolOk(EmptyPool());
    RunKeeps(EmptyPool(), events);
    RunOneMore(EmptyPool(), events, e);
  }

  lemma ListedOrFree(y: Pool)
    requires PoolOk(y)
    ensures |y.slots| == 4 && NoDuplicates(y.list)
    ensures forall i :: 0 <= i < 4 ==> (y.slots[i].Some? <==> exists k :: 0 <= k < |y.list| && y.list[k] == i)
    ensures forall k :: 0 <= k < |y.list| ==> y.list[k] < 4 && y.slots[y.list[k]].Some?
  {
    hide NoDuplicates, Waiting, ClosedOk;
    forall i | 0 <= i < 4 ensures y.slots[i].Some? <==> exists k :: 0 <= k < |y.list| && y.list[k] == i {
      assert y.slots[i].Some? <==> i in y.list;
    }
    forall k | 0 <= k < |y.list| ensures y.list[k] < 4 && y.slots[y.list[k]].Some? {
      assert y.list[k] in y.list;
    }
  }

  // ----- new messages -----

  /** In every run, a new message takes a free slot, if there is one: a confirmable one is kept there
      with its first transmission and its interval, any other ends after its one transmission. No
      other slot changes; without a free slot, nothing does. */
  lemma SendMeaning(events: seq<Event>, mid: nat, con: bool, now: nat, initial: nat)
    ensures var y, y' := Run(EmptyPool(), events), Run(EmptyPool(), events + [SendNew(mid, con, now, initial)]);
      && |y.slots| == |y'.slots| == 4
      && ((forall i :: 0 <= i < 4 ==> y.slots[i].Some?) ==> y' == y)
      && ((exists i :: 0 <= i < 4 && y.slots[i].None?) ==>
           exists i :: 0 <= i < 4 && y.slots[i].None? && y'.started == y.started + 1
             && (forall j :: 0 <= j < 4 && j != i ==> y'.slots[j] == y.slots[j])
             && (if con then
                  y'.slots[i] == Some(Tx(mid, true, 0, initial, initial, [now])) && y'.closed == y.closed
                else
                  y'.slots[i] == None && |y'.closed| == |y.closed| + 1
                  && y'.closed[|y.closed|].tx == Tx(mid, false, 0, 0, 0, [now])
                  && y'.closed[|y.closed|].why == NonConfirmable))
  {
    hide Run, PoolOk, Remove;
    var y := Run(EmptyPool(), events);
    AfterRun(events, SendNew(mid, con, now, initial));
    var i := FreeSlot(y.slots);
    assert [] + [now] == [now];
    if i < 4 {
      var y' := Step(y, SendNew(mid, con, now, initial));
      assert y.slots[i].None? && forall j :: 0 <= j < 4 && j != i ==> y'.slots[j] == y.slots[j];
    }
  }

  // ----- timers -----

  /** The time for another transmission has come. */
  predicate Due(t: Tx, now: nat) {
    t.sends != [] && now >= t.sends[|t.sends| - 1] + t.interval
  }

  /** The transmission would be one too many. */
  predicate Last(t: Tx) {
    t.counter == 3
  }

  /** What becomes of an exchange that the walk comes to. */
  function Visited(t: Tx, now: nat): Option<Tx> {
    if !Due(t, now) then Some(t)
    else if Last(t) then None
    else Some(t.(counter := t.counter + 1, interval := 2 * t.interval, sends := t.sends + [now]))
  }

  /** Every listed slot holds an exchange. */
  predicate Listed(y: Pool) {
    |y.slots| == 4 && forall k :: 0 <= k < |y.list| ==> y.list[k] < 4 && y.slots[y.list[k]].Some?
  }

  /** The walk ends between two positions, because an exchange ends there. */
  predicate Cut(y: Pool, at: nat, k: nat, now: nat)
    requires Listed(y)
  {
    exists j :: at <= j < k && j < |y.list| && Due(y.slots[y.list[j]].value, now) && Last(y.slots[y.list[j]].value)
  }

  lemma CutStep(y: Pool, y1: Pool, at: nat, k: nat, now: nat)
    requires Listed(y) && Listed(y1) && y1.list == y.list && at < k < |y.list|
    requires forall j :: at < j < |y.list| ==> y1.slots[y.list[j]] == y.slots[y.list[j]]
    requires !(Due(y.slots[y.list[at]].value, now) && Last(y.slots[y.list[at]].value))
    ensures Cut(y1, at + 1, k, now) <==> Cut(y, at, k, now)
  {
    hide Due, Last;
  }

  /** A walk over the list, from a position on, for each listed exchange: up to one that ends, every
      exchange is visited; those before the position and behind that one stay. */
  lemma {:induction false} CheckMeaning(y: Pool, at: nat, now: nat, k: nat)
    requires PoolOk(y) && k < |y.list|
    ensures |Checked(y, at, now).slots| == 4 && Listed(y)
    ensures Checked(y, at, now).slots[y.list[k]] ==
      if k < at || Cut(y, at, k, now) then y.slots[y.list[k]] else Visited(y.slots[y.list[k]].value, now)
    ensures forall i :: 0 <= i < 4 && i !in y.list ==> Checked(y, at, now).slots[i] == y.slots[i]
    decreases if at < |y.list| then |y.list| - at else 0
  {
    hide PoolOk, NoDuplicates, Remove, Checked, Due, Last, Sent, Visited, Cut;
    ListedOrFree(y);
    CheckedStep(y, at, now);
    NotCut(y, at, now);
    if at < |y.list| {
      var i := y.list[at];
      var t := y.slots[i].value;
      var counted := y.(slots := y.slots[i := Some(t.(counter := t.counter + 1))]);
      var y1 := if Due(t, now) then Sent(counted, i, now, 0) else y;
      VisitOne(y, at, now);
      if Due(t, now) && Last(t) {
        if at < k { CutHere(y, at, k, now); }
      } else {
        CheckMeaning(y1, at + 1, now, k);
        if at < k { CutStep(y, y1, at, k, now); }
        NotCut(y1, at + 1, now);
      }
    }
  }

  lemma NotCut(y: Pool, at: nat, now: nat)
    requires Listed(y)
    ensures forall k: nat :: k <= at ==> !Cut(y, at, k, now)
  {
  }

  lemma CutHere(y: Pool, at: nat, k: nat, now: nat)
    requires Listed(y) && at < k < |y.list|
    requires Due(y.slots[y.list[at]].value, now) && Last(y.slots[y.list[at]].value)
    ensures Cut(y, at, k, now)
  {
  }

  /** One exchange of the list is visited, and no other slot changes. */
  lemma VisitOne(y: Pool, at: nat, now: nat)
    requires PoolOk(y) && Listed(y) && at < |y.list|
    ensures var i := y.list[at];
      var t := y.slots[i].value;
      var counted := y.(slots := y.slots[i := Some(t.(counter := t.counter + 1))]);
      var y1 := if Due(t, now) then Sent(counted, i, now, 0) else y;
      && (Expired(t, now) <==> Due(t, now))
      && PoolOk(y1) && y1.slots == y.slots[i := Visited(t, now)]
      && (if Due(t, now) && Last(t) then |y1.list| < |y.list| else y1.list == y.list && Listed(y1))
      && (forall k :: 0 <= k < |y.list| && k != at ==> y.list[k] != i)
  {
    hide PoolOk, NoDuplicates, Remove;
    var i := y.list[at];
    OpenFacts(y, i);
    Others(y, at);
    if Due(y.slots[i].value, now) { Retransmitted(y, i, now); }
  }

  lemma CheckedStep(y: Pool, at: nat, now: nat)
    ensures Checked(y, at, now) ==
      if at >= |y.list| then y
      else
        var i := y.list[at];
        if i >= |y.slots| || y.slots[i].None? || !Expired(y.slots[i].value, now) then Checked(y, at + 1, now)
        else
          var t := y.slots[i].value;
          var y' := Sent(y.(slots := y.slots[i := Some(t.(counter := t.counter + 1))]), i, now, 0);
          if |y'.list| == |y.list| then Checked(y', at + 1, now) else y'
  {
    hide Sent;
  }

  lemma OpenFacts(y: Pool, i: nat)
    requires PoolOk(y) && i < 4 && |y.slots| == 4 && y.slots[i].Some?
    ensures var t := y.slots[i].value; t.con && t.counter <= 3 && t.sends != [] && i in y.list
    ensures |Remove(y.list, i)| == |y.list| - 1 && NoDuplicates(y.list)
  {
    hide NoDuplicates, Remove, ClosedOk;
    assert Waiting(y.slots[i].value);
    RemoveOne(y.list, i);
  }

  lemma Others(y: Pool, at: nat)
    requires NoDuplicates(y.list) && at < |y.list|
    ensures forall k :: 0 <= k < |y.list| && k != at ==> y.list[k] != y.list[at]
  {
  }

  /** In every run, a timer event is such a walk over the whole list, which holds all open exchanges: up
      to the first one that is due for the last time, each exchange that is due is transmitted once more
      and waits twice as long, and that one ends; nothing else changes. */
  lemma TimerMeaning(events: seq<Event>, now: nat, k: nat)
    ensures var y, y' := Run(EmptyPool(), events), Run(EmptyPool(), events + [CheckTimers(now)]);
      && Listed(y) && |y'.slots| == 4
      && (forall i :: 0 <= i < 4 ==> (y.slots[i].Some? <==> exists j :: 0 <= j < |y.list| && y.list[j] == i))
      && (k < |y.list| ==>
           var t := y.slots[y.list[k]].value;
           y'.slots[y.list[k]] == if Cut(y, 0, k, now) then Some(t) else Visited(t, now))
      && (forall i :: 0 <= i < 4 && i !in y.list ==> y'.slots[i] == y.slots[i])
  {
    hide Run, PoolOk, Checked, Cut, Visited;
    AfterRun(events, CheckTimers(now));
    var y := Run(EmptyPool(), events);
    ListedOrFree(y);
    if k < |y.list| {
      CheckMeaning(y, 0, now, k);
    } else if y.list != [] {
      CheckMeaning(y, 0, now, 0);
    } else {
      CheckedStep(y, 0, now);
    }
  }
}
