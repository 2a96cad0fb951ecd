/** The admission controller: slots, a queue, and windows that count requests,
    and any run of arrivals, finishes, closes and timeouts. */
module Admissions {
  import opened Collections
  import opened AdmissionRecords

  class Admission {
    const maxConcurrent: nat
    const maxPerMinute: Option<int>
    const maxQueued: nat
    var active: int
    var queue: seq<nat>
    var clients: map<Client, nat>
    /** The window objects, shared by the table and by the requests that opened them. */
    var windows: seq<Window>
    /** Every request so far, in order of arrival. */
    var requests: seq<Request>
    /** The admitted requests, in order of admission. */
    ghost var admissions: seq<nat>
    /** The client that each window was opened for, and the client of each request. */
    ghost var owners: seq<Client>
    ghost var callers: seq<Client>

    constructor (maxConcurrent: nat, maxPerMinute: Option<int>, maxQueued: nat)
      ensures Valid() && requests == [] && admissions == [] && windows == []
      ensures this.maxConcurrent == maxConcurrent && this.maxPerMinute == maxPerMinute && this.maxQueued == maxQueued
    {
      this.maxConcurrent, this.maxPerMinute, this.maxQueued := maxConcurrent, maxPerMinute, maxQueued;
      active, queue, clients, windows, requests, admissions := 0, [], map[], [], [], [];
      owners, callers := [], [];
    }

    /** As many slots in use as requests run (and `owed` being handed back), never too
        many, and all of them while anybody waits. */
    ghost predicate SlotsCounted(owed: int)
      reads this
    {
      && active == |RunningSet(requests)| + owed && active <= maxConcurrent
      && (queue != [] ==> active == maxConcurrent) && |queue| <= maxQueued
    }

    /** Every window counts its admitted and waiting requests, within the limit. */
    ghost predicate WindowsCounted()
      reads this
    {
      Counted(windows, requests, queue, maxPerMinute) && WindowsHeld()
    }

    /** The table knows each client's window, and is not too large. */
    ghost predicate WindowsHeld()
      reads this
    {
      (forall c :: c in clients ==> clients[c] < |windows|) && |clients| <= MAX_TRACKED_CLIENTS
    }

    ghost predicate Balanced(owed: int)
      reads this
    {
      && SlotsCounted(owed) && AllSound(requests, queue, |windows|) && InOrder(requests, queue, admissions)
      && WindowsCounted()
    }

    ghost predicate Separate()
      reads this
    {
      |owners| == |windows| && Separated(clients, owners, requests, callers)
    }

    ghost predicate Valid()
      reads this
    {
      Balanced(0) && Separate()
    }

    /** From these running and waiting requests, `id` runs no more: the first waiter has its
        slot, or else the slot is free. */
    ghost predicate SlotFreed(id: nat, running0: set<nat>, queue0: seq<nat>, active0: int, admissions0: seq<nat>)
      reads this
    {
      if queue0 == [] then
        && RunningSet(requests) == running0 - {id} && id !in RunningSet(requests)
        && active == active0 - 1 && queue == [] && admissions == admissions0
      else
        && RunningSet(requests) == running0 - {id} + {queue0[0]} && id !in RunningSet(requests)
        && active == active0 && queue == queue0[1..] && admissions == admissions0 + [queue0[0]]
    }

    /** Nothing has changed. */
    ghost predicate Untouched(requests0: seq<Request>, queue0: seq<nat>, active0: int, admissions0: seq<nat>)
      reads this
    {
      requests == requests0 && queue == queue0 && active == active0 && admissions == admissions0
    }

    /** From these records a slot went to the first waiter, or back to the free ones. */
    ghost predicate SlotPassed(requests0: seq<Request>, queue0: seq<nat>, active0: int, admissions0: seq<nat>)
      reads this
    {
      if queue0 == [] then Untouched(requests0, [], active0 - 1, admissions0)
      else queue0[0] < |requests0| && Untouched(requests0[queue0[0] := Admitted(requests0[queue0[0]].window)],
                                               queue0[1..], active0, admissions0 + [queue0[0]])
    }

    /** Starts a request, unless it was settled before. */
    method Admit(id: nat)
      requires id < |requests|
      modifies this`requests, this`admissions
      ensures var r := old(requests)[id];
        if r.settled then requests == old(requests) && admissions == old(admissions) else
        admissions == old(admissions) + [id] && requests == old(requests)[id := r.(settled := true, released := false,
          releaseOnFinish := true, releaseOnClose := true, started := r.started + 1)]
    {
      if requests[id].settled { return; }
      var r := requests[id].(settled := true);
      r := r.(released := false);
      r := r.(releaseOnFinish := true);
      r := r.(releaseOnClose := true);
      r := r.(started := r.started + 1);
      requests := requests[id := r];
      admissions := admissions + [id];
    }

    /** Admits a waiter: its timer and its close callback are taken off first. */
    method AdmitWaiter(id: nat)
      requires id < |requests|
      modifies this`requests, this`admissions
      ensures var r := old(requests)[id]; r == Queued(r.window) ==>
        requests == old(requests)[id := Admitted(r.window)] && admissions == old(admissions) + [id]
    {
      requests := requests[id := requests[id].(timer := false)];
      requests := requests[id := requests[id].(dropOnClose := false)];
      Admit(id);
    }

    /** Hands a slot to the next waiter, or gives it back. */
    method ReleaseSlot()
      requires Balanced(1)
      modifies this`active, this`queue, this`requests, this`admissions
      ensures Balanced(0)
      ensures SlotPassed(old(requests), old(queue), old(active), old(admissions))
      ensures Kept(old(requests), old(queue), requests, queue)
    {
      if queue != [] {
        var next := queue[0];
        AdmitHead(requests, queue, admissions, |windows|);
        PassKept(requests, queue, Admitted(requests[next].window));
        queue := queue[1..];
        assert Sound(requests[next], next in old(queue));
        AdmitWaiter(next);
        return;
      }
      active := active - 1;
    }

    /** The shared release callback, attached once to each of two events: it comes off
        the one that fired, and hands the slot back the first time. */
    method Release(id: nat, finished: bool)
      requires Balanced(0) && id < |requests| && requests[id].started > 0
      modifies this`active, this`queue, this`requests, this`admissions
      ensures Balanced(0)
      ensures var r := Fired(old(requests)[id], finished);
        if r.released then Untouched(old(requests)[id := r], old(queue), old(active), old(admissions))
        else SlotPassed(old(requests)[id := r.(released := true)], old(queue), old(active), old(admissions))
      ensures Kept(old(requests), old(queue), requests, queue)
      ensures if old(id in RunningSet(requests)) then
          SlotFreed(id, old(RunningSet(requests)), old(queue), old(active), old(admissions))
        else
          && RunningSet(requests) == old(RunningSet(requests)) && queue == old(queue)
          && active == old(active) && admissions == old(admissions)
    {
      StartedSound(requests, queue, |windows|, id);
      var r := Fired(requests[id], finished);
      EndEffect(requests, queue, admissions, |windows|, id, r);
      if !r.released {
        r := r.(released := true);
        GiveBack(id, r);
      } else {
        TakeOff(id, r);
      }
    }

    /** The second of the two callbacks only comes off. */
    method TakeOff(id: nat, r: Request)
      requires Balanced(0) && id < |requests| && Done(requests[id]) && Done(r) && r.window == requests[id].window
      modifies this`requests
      ensures Balanced(0) && requests == old(requests)[id := r] && Kept(old(requests), old(queue), requests, queue)
    {
      DoneBalanced(windows, requests, queue, admissions, id, r, maxPerMinute);
      requests := requests[id := r];
    }

    /** The first of the two callbacks: the request is marked, and its slot handed back. */
    method GiveBack(id: nat, r: Request)
      requires Balanced(0) && id < |requests| && Running(requests[id]) && Done(r) && r.window == requests[id].window
      requires r.started == requests[id].started && r.answered == requests[id].answered
      modifies this`active, this`queue, this`requests, this`admissions
      ensures Balanced(0) && Kept(old(requests), old(queue), requests, queue)
      ensures SlotPassed(old(requests)[id := r], old(queue), old(active), old(admissions))
    {
      ReleaseBalanced(windows, requests, queue, admissions, id, r, maxPerMinute);
      requests := requests[id := r];
      ReleaseSlot();
      FiredKept(old(requests), old(queue), id, r, requests, queue);
    }

    /** Takes the charge for a request that never ran back off its window. */
    method Refund(w: Option<nat>)
      requires w.Some? ==> w.value < |windows|
      modifies this`windows
      ensures windows == Refunded(old(windows), w)
    {
      if w.Some? {
        windows := windows[w.value := windows[w.value].(requests := windows[w.value].requests - 1)];
      }
    }

    /** Where a request stands in the queue; -1 when it does not. */
    method IndexOf(id: nat) returns (k: int)
      ensures if id in queue then 0 <= k < |queue| && queue[k] == id else k == -1
    {
      k := 0;
      while k < |queue|
        invariant 0 <= k <= |queue| && forall j :: 0 <= j < k ==> queue[j] != id
      {
        if queue[k] == id { return; }
        k := k + 1;
      }
      k := -1;
    }

    /** Answers a waiter that will not be admitted, unless it was settled before. */
    method Reject(id: nat)
      requires id < |requests| && (requests[id].window.Some? ==> requests[id].window.value < |windows|)
      modifies this`requests, this`windows
      ensures var r := old(requests)[id];
        if r.settled then requests == old(requests) && windows == old(windows) else
        && windows == Refunded(old(windows), r.window)
        && requests == old(requests)[id := r.(settled := true, timer := false, dropOnClose := false,
                                              answered := r.answered + 1)]
    {
      var r := requests[id];
      if r.settled { return; }
      r := r.(settled := true);
      r := r.(timer := false);
      r := r.(dropOnClose := false);
      Refund(r.window);
      r := r.(answered := r.answered + 1);
      requests := requests[id := r];
    }

    /** Takes a waiter out of the queue and rejects it. */
    method Drop(id: nat)
      requires Balanced(0) && id in queue
      modifies this`queue, this`requests, this`windows
      ensures Balanced(0) && WasDropped(old(requests), old(queue), old(windows), id)
      ensures Kept(old(requests), old(queue), requests, queue)
      ensures Left(id, old(RunningSet(requests)), old(queue))
    {
      DropEffect(requests, queue, admissions, |windows|, id);
      var k := IndexOf(id);
      RejectWaiter(requests, queue, admissions, |windows|, k);
      RefundCounted(windows, requests, queue, maxPerMinute, k);
      SkipKept(requests, queue, k, Rejected(requests[id].window));
      assert Sound(requests[id], id in queue);
      if k != -1 {
        queue := queue[..k] + queue[k + 1..];
      }
      Reject(id);
    }

    /** The request left the queue, was rejected, and its window got the charge back. */
    ghost predicate WasDropped(requests0: seq<Request>, queue0: seq<nat>, windows0: seq<Window>, id: nat)
      reads this
    {
      && id < |requests0| && requests == requests0[id := Rejected(requests0[id].window)]
      && windows == Refunded(windows0, requests0[id].window)
      && exists k :: 0 <= k < |queue0| && queue0[k] == id && queue == Dropped(queue0, k)
    }

    /** The response finished: whoever ran hands the slot to the next in line. */
    method OnFinish(id: nat)
      requires Valid() && id < |requests|
      modifies this
      ensures Valid() && windows == old(windows) && clients == old(clients) && callers == old(callers)
      ensures Kept(old(requests), old(queue), requests, queue) && |requests| == |old(requests)|
      ensures var r := old(requests)[id];
        if !r.releaseOnFinish then Untouched(old(requests), old(queue), old(active), old(admissions))
        else if r.released then Untouched(old(requests)[id := Fired(r, true)], old(queue), old(active), old(admissions))
        else SlotPassed(old(requests)[id := Fired(r, true).(released := true)], old(queue), old(active),
                        old(admissions))
      ensures old(id in RunningSet(requests)) ==>
        SlotFreed(id, old(RunningSet(requests)), old(queue), old(active), old(admissions))
      ensures old(id !in RunningSet(requests)) ==>
        && RunningSet(requests) == old(RunningSet(requests)) && queue == old(queue)
        && active == old(active) && admissions == old(admissions)
    {
      assert Sound(requests[id], id in queue);
      if requests[id].releaseOnFinish {
        Release(id, true);
      }
      SeparatedKept(clients, owners, old(requests), callers, old(queue), requests, queue);
    }

    /** The connection closed: a waiter leaves the queue, whoever ran hands the slot on. */
    method OnClose(id: nat)
      requires Valid() && id < |requests|
      modifies this
      ensures Valid() && clients == old(clients) && callers == old(callers)
      ensures Kept(old(requests), old(queue), requests, queue) && |requests| == |old(requests)|
      ensures var r := old(requests)[id];
        if id in old(queue) then
          && WasDropped(old(requests), old(queue), old(windows), id)
          && active == old(active) && admissions == old(admissions)
        else if !r.releaseOnClose then
          Untouched(old(requests), old(queue), old(active), old(admissions)) && windows == old(windows)
        else && windows == old(windows)
             && if r.released then Untouched(old(requests)[id := Fired(r, false)], old(queue), old(active),
                                             old(admissions))
                else SlotPassed(old(requests)[id := Fired(r, false).(released := true)], old(queue), old(active),
                                old(admissions))
      ensures old(id in RunningSet(requests)) ==>
        SlotFreed(id, old(RunningSet(requests)), old(queue), old(active), old(admissions))
      ensures old(id in queue) ==> Left(id, old(RunningSet(requests)), old(queue))
      ensures old(id !in RunningSet(requests)) ==>
        RunningSet(requests) == old(RunningSet(requests)) && active == old(active) && admissions == old(admissions)
      ensures old(id !in RunningSet(requests) && id !in queue) ==> queue == old(queue)
    {
      EndEffect(requests, queue, admissions, |windows|, id, requests[id]);
      assert Sound(requests[id], id in queue);
      if requests[id].dropOnClose {
        Drop(id);
      } else if requests[id].releaseOnClose {
        Release(id, false);
      }
      SeparatedKept(clients, owners, old(requests), callers, old(queue), requests, queue);
    }

    /** The waiting time is over; nothing happens unless the timer is still set. */
    method OnTimeout(id: nat)
      requires Valid() && id < |requests|
      modifies this
      ensures Valid() && active == old(active) && admissions == old(admissions)
      ensures clients == old(clients) && callers == old(callers)
      ensures Kept(old(requests), old(queue), requests, queue) && |requests| == |old(requests)|
      ensures if id in old(queue) then WasDropped(old(requests), old(queue), old(windows), id)
        else Untouched(old(requests), old(queue), old(active), old(admissions)) && windows == old(windows)
      ensures old(id in queue) ==> Left(id, old(RunningSet(requests)), old(queue))
    {
      assert Sound(requests[id], id in queue);
      if requests[id].timer {
        Drop(id);
      }
      SeparatedKept(clients, owners, old(requests), callers, old(queue), requests, queue);
    }

    /** Waiter `id` is answered once and waits no more; everybody else runs or waits as before. */
    ghost predicate Left(id: nat, running0: set<nat>, queue0: seq<nat>)
      reads this
    {
      && id !in queue && id < |requests| && requests[id].started == 0 && requests[id].answered == 1
      && RunningSet(requests) == running0
      && exists k :: 0 <= k < |queue0| && queue0[k] == id && queue == queue0[..k] + queue0[k + 1..]
    }

    /** Forgets the clients whose window has run out. */
    method Sweep(now: int)
      requires forall c :: c in clients ==> clients[c] < |windows|
      modifies this`clients
      ensures clients == Swept(old(clients), windows, now) && |clients| <= |old(clients)|
    {
      var todo: set<Client> := clients.Keys;
      while todo != {}
        invariant todo <= old(clients).Keys
        invariant forall c :: c in clients ==> c in old(clients) && clients[c] == old(clients)[c]
        invariant forall c :: c in old(clients) ==>
          (c in clients <==> c in todo || Fresh(windows[old(clients)[c]], now))
        decreases |todo|
      {
        var c :| c in todo;
        todo := todo - {c};
        if now - windows[clients[c]].startedAt >= WINDOW_MS {
          clients := map d | d in clients && d != c :: clients[d];
        }
      }
      SubsetCount(clients.Keys, old(clients).Keys);
    }

    /** One owner for each window, and the windows in the table are their clients' own. */
    ghost predicate OwnTable()
      reads this
    {
      |owners| == |windows| && forall c :: c in clients ==> clients[c] < |owners| && owners[clients[c]] == c
    }

    /** Charges the request to its client's window, opening one if need be. */
    method TakeWindow(client: Client, now: int) returns (ok: bool, w: Option<nat>)
      requires WindowsHeld() && OwnTable()
      modifies this`clients, this`windows, this`owners
      ensures ok <==> maxPerMinute.None? || Allowed(old(clients), old(windows), client, now, maxPerMinute.value)
      ensures maxPerMinute.None? || !ok ==> w == None && windows == old(windows)
      ensures ok ==> ChargedTo(old(windows), windows, w, now, maxPerMinute)
      ensures ok && maxPerMinute.Some? ==> HasCharged(old(clients), old(windows), w, client, now)
      ensures clients == if maxPerMinute.None? then old(clients)
        else if ok && w.Some? then Retained(old(clients), old(windows), client, now)[client := w.value]
        else Retained(old(clients), old(windows), client, now)
      ensures WindowsHeld() && OwnTable() && old(owners) <= owners && (w.Some? ==> owners[w.value] == client)
      ensures maxPerMinute.Some? ==> OthersKept(old(clients), old(windows), clients, windows, client, now)
    {
      if maxPerMinute.None? { return true, None; }
      RetainedOwn(clients, windows, client, now, maxPerMinute.value);
      ok := MakeRoom(client, now);
      if !ok { return false, None; }
      ghost var clients1 := clients;
      ok, w := ChargeWindow(client, now);
      OthersThrough(old(clients), old(windows), clients1, clients, windows, client, now);
    }

    /** The window charged is the client's, which it had before unless that one was a minute old. */
    ghost predicate HasCharged(clients0: map<Client, nat>, windows0: seq<Window>, w: Option<nat>, client: Client,
                               now: int)
      requires forall c :: c in clients0 ==> clients0[c] < |windows0|
      reads this
    {
      && w.Some? && w.value < |windows| && client in clients && clients[client] == w.value
      && now - windows[w.value].startedAt < 60_000
      && w.value == (if client in clients0 && now - windows0[clients0[client]].startedAt < 60_000 then clients0[client]
                     else |windows0|)
      && var before := Before(clients0, windows0, client, now);
         windows[w.value] == before.(requests := before.requests + 1)
    }

    /** Makes sure that the table has the client, or room for it. */
    method MakeRoom(client: Client, now: int) returns (ok: bool)
      requires WindowsHeld() && OwnTable()
      modifies this`clients
      ensures clients == Retained(old(clients), windows, client, now)
      ensures ok <==> client in clients || |clients| < MAX_TRACKED_CLIENTS
      ensures OwnTable() && OthersKept(old(clients), windows, clients, windows, client, now) && WindowsHeld()
    {
      if client !in clients && |clients| >= MAX_TRACKED_CLIENTS {
        Sweep(now);
        ok := |clients| < MAX_TRACKED_CLIENTS;
      } else {
        ok := true;
      }
      OthersRetained(old(clients), windows, client, now);
    }

    method ChargeWindow(client: Client, now: int) returns (ok: bool, w: Option<nat>)
      requires maxPerMinute.Some? && WindowsHeld() && OwnTable()
      requires client in clients || |clients| < MAX_TRACKED_CLIENTS
      modifies this`clients, this`windows, this`owners
      ensures ok <==> Before(old(clients), old(windows), client, now).requests < maxPerMinute.value
      ensures !ok ==> w == None && windows == old(windows) && clients == old(clients)
      ensures ok ==> ChargedTo(old(windows), windows, w, now, maxPerMinute)
      ensures ok ==> HasCharged(old(clients), old(windows), w, client, now)
      ensures ok ==> clients == old(clients)[client := w.value]
      ensures WindowsHeld() && OwnTable() && old(owners) <= owners && (w.Some? ==> owners[w.value] == client)
      ensures OthersSame(old(clients), old(windows), clients, windows, client)
    {
      if client in clients && now - windows[clients[client]].startedAt < WINDOW_MS {
        w := Some(clients[client]);
        if windows[w.value].requests >= maxPerMinute.value { return false, None; }
      } else {
        if 0 >= maxPerMinute.value { return false, None; }
        w := Some(|windows|);
        windows := windows + [Window(now, 0)];
        owners := owners + [client];
      }
      Enter(client, w.value);
      ok := true;
    }

    /** One more request for this window, which is now the client's in the table. */
    method Enter(client: Client, w: nat)
      requires w < |windows| && OwnTable() && owners[w] == client
      requires |clients| <= MAX_TRACKED_CLIENTS && (client in clients || |clients| < MAX_TRACKED_CLIENTS)
      modifies this`clients, this`windows
      ensures windows == old(windows)[w := old(windows)[w].(requests := old(windows)[w].requests + 1)]
      ensures clients == old(clients)[client := w] && WindowsHeld() && OwnTable()
      ensures OthersSame(old(clients), old(windows), clients, windows, client)
    {
      windows := windows[w := windows[w].(requests := windows[w].requests + 1)];
      clients := clients[client := w];
    }

    /** The new request `id` started when a slot was free, else waits last in the queue, else
        found the queue full. */
    ghost predicate Placed(r: Request, id: nat, queue0: seq<nat>, active0: int, admissions0: seq<nat>)
      reads this
    {
      if active0 < maxConcurrent then
        r == Admitted(r.window) && queue == queue0 == [] && active == active0 + 1 && admissions == admissions0 + [id]
      else if |queue0| >= maxQueued then
        r == Refused(r.window) && queue == queue0 && active == active0 && admissions == admissions0
      else
        r == Queued(r.window) && queue == queue0 + [id] && active == active0 && admissions == admissions0
    }

    /** The new request `id` runs when a slot was free, else waits last in line, else is answered. */
    ghost predicate Served(id: nat, running0: set<nat>, queue0: seq<nat>, active0: int, admissions0: seq<nat>)
      reads this
    {
      id < |requests| &&
      if active0 < maxConcurrent then
        && RunningSet(requests) == running0 + {id} && queue == queue0 == [] && requests[id].answered == 0
        && active == active0 + 1 && admissions == admissions0 + [id]
      else if |queue0| < maxQueued then
        && RunningSet(requests) == running0 && queue == queue0 + [id] && requests[id].answered == 0
        && active == active0 && admissions == admissions0
      else TurnedAway(id, running0, queue0, active0, admissions0)
    }

    /** The new request `id` is answered at once, and whoever runs or waits goes on as before. */
    ghost predicate TurnedAway(id: nat, running0: set<nat>, queue0: seq<nat>, active0: int, admissions0: seq<nat>)
      reads this
    {
      && id < |requests| && requests[id].started == 0 && requests[id].answered == 1
      && RunningSet(requests) == running0 && queue == queue0 && active == active0 && admissions == admissions0
    }

    /** The client's own window counts one request more than before, or none more if the request
        was answered at once. */
    ghost predicate OwnCounted(clients0: map<Client, nat>, windows0: seq<Window>, client: Client, now: int, r: Request)
      requires forall c :: c in clients0 ==> clients0[c] < |windows0|
      reads this
    {
      && client in clients && clients[client] < |windows|
      && var before := Before(clients0, windows0, client, now);
         windows[clients[client]] == before.(requests := before.requests + if r.answered == 0 then 1 else 0)
    }

    /** A request arrives: over its budget it is answered at once; otherwise it starts, waits,
        or finds the queue full. Only a client's own window ever decides. */
    method Arrive(client: Client, now: int) returns (id: nat)
      requires Valid()
      modifies this
      ensures Valid() && id == |old(requests)| && |requests| == id + 1 && requests == old(requests) + [requests[id]]
      ensures callers == old(callers) + [client] && Kept(old(requests), old(queue), requests, queue)
      ensures if maxPerMinute.Some? && !Allowed(old(clients), old(windows), client, now, maxPerMinute.value) then
          && requests[id] == Refused(None) && windows == old(windows)
          && TurnedAway(id, old(RunningSet(requests)), old(queue), old(active), old(admissions))
        else
          && Placed(requests[id], id, old(queue), old(active), old(admissions))
          && Served(id, old(RunningSet(requests)), old(queue), old(active), old(admissions))
      ensures maxPerMinute.Some? ==>
        && OthersKept(old(clients), old(windows), clients, windows, client, now)
        && (Allowed(old(clients), old(windows), client, now, maxPerMinute.value) ==>
             OwnCounted(old(clients), old(windows), client, now, requests[id]))
      ensures (&& maxPerMinute.Some? && 0 < maxPerMinute.value && old(client in clients || |clients| < 10_000)
               && !(client in old(clients) && now - old(windows)[old(clients)[client]].startedAt < 60_000)) ==>
        Served(id, old(RunningSet(requests)), old(queue), old(active), old(admissions))
    {
      id := |requests|;
      Decide(client, now);
      callers := callers + [client];
    }

    /** Charges the request, if there is a limit, and places it or turns it away. */
    method Decide(client: Client, now: int)
      requires Valid()
      modifies this`active, this`queue, this`requests, this`windows, this`admissions, this`clients, this`owners
      ensures Balanced(0) && |owners| == |windows| && Separated(clients, owners, requests, callers + [client])
      ensures |requests| == |old(requests)| + 1 && requests == old(requests) + [requests[|old(requests)|]]
      ensures Kept(old(requests), old(queue), requests, queue)
      ensures var id := |old(requests)|;
        if maxPerMinute.Some? && !Allowed(old(clients), old(windows), client, now, maxPerMinute.value) then
          && requests[id] == Refused(None) && windows == old(windows)
          && TurnedAway(id, old(RunningSet(requests)), old(queue), old(active), old(admissions))
        else
          && Placed(requests[id], id, old(queue), old(active), old(admissions))
          && Served(id, old(RunningSet(requests)), old(queue), old(active), old(admissions))
      ensures maxPerMinute.Some? ==>
        && OthersKept(old(clients), old(windows), clients, windows, client, now)
        && (Allowed(old(clients), old(windows), client, now, maxPerMinute.value) ==>
             OwnCounted(old(clients), old(windows), client, now, requests[|old(requests)|]))
    {
      var ok, w := ChargeOwn(client, now);
      if ok {
        PlaceFor(old(clients), old(windows), w, client, now);
      } else {
        TurnAwayFor(client);
      }
    }

    /** Charges the request, unless there is no limit, or the client is over its budget. */
    method ChargeOwn(client: Client, now: int) returns (ok: bool, w: Option<nat>)
      requires Valid()
      modifies this`clients, this`windows, this`owners
      ensures ok <==> maxPerMinute.None? || Allowed(old(clients), old(windows), client, now, maxPerMinute.value)
      ensures ok ==> Charging(old(windows), w, now) && Taken(old(clients), old(windows), w, client, now)
      ensures !ok ==> Balanced(0) && windows == old(windows)
      ensures !ok ==> OthersKept(old(clients), old(windows), clients, windows, client, now)
      ensures OwnTable() && MayJoin(clients, owners, requests, callers, if ok then w else None, client)
    {
      ok, w := TakeWindow(client, now);
      SeparatedMore(old(clients), old(owners), clients, owners, requests, callers, if ok then w else None, client);
      if ok {
        ChargeSound(old(windows), windows, requests, queue, w, now, maxPerMinute);
      }
    }

    /** The client's own window counts one request more, and nobody else's has changed. */
    ghost predicate Taken(clients0: map<Client, nat>, windows0: seq<Window>, w: Option<nat>, client: Client, now: int)
      requires forall c :: c in clients0 ==> clients0[c] < |windows0|
      reads this
    {
      && OwnTable() && (w.Some? <==> maxPerMinute.Some?)
      && (w.Some? ==>
           && w.value < |windows| && owners[w.value] == client && client in clients && clients[client] == w.value
           && now - windows[w.value].startedAt < 60_000
           && OthersKept(clients0, windows0, clients, windows, client, now)
           && var before := Before(clients0, windows0, client, now);
              windows[w.value] == before.(requests := before.requests + 1))
    }

    method PlaceFor(ghost clients0: map<Client, nat>, ghost windows0: seq<Window>, w: Option<nat>,
                    ghost client: Client, ghost now: int)
      requires forall c :: c in clients0 ==> clients0[c] < |windows0|
      requires Charging(windows0, w, now) && Taken(clients0, windows0, w, client, now)
      requires MayJoin(clients, owners, requests, callers, w, client)
      modifies this`active, this`queue, this`requests, this`windows, this`admissions
      ensures Balanced(0) && |owners| == |windows| && Separated(clients, owners, requests, callers + [client])
      ensures |requests| == |old(requests)| + 1 && requests == old(requests) + [requests[|old(requests)|]]
      ensures Kept(old(requests), old(queue), requests, queue)
      ensures Placed(requests[|old(requests)|], |old(requests)|, old(queue), old(active), old(admissions))
      ensures Served(|old(requests)|, old(RunningSet(requests)), old(queue), old(active), old(admissions))
      ensures w.Some? ==>
        && OthersKept(clients0, windows0, clients, windows, client, now)
        && OwnCounted(clients0, windows0, client, now, requests[|old(requests)|])
    {
      PlaceOwn(clients0, windows0, w, client, now);
    }

    /** The request just charged to the client's window finds its place. */
    method PlaceOwn(ghost clients0: map<Client, nat>, ghost windows0: seq<Window>, w: Option<nat>,
                    ghost client: Client, ghost now: int)
      requires forall c :: c in clients0 ==> clients0[c] < |windows0|
      requires Charging(windows0, w, now) && Taken(clients0, windows0, w, client, now)
      modifies this`active, this`queue, this`requests, this`windows, this`admissions
      ensures Balanced(0) && |windows| == |old(windows)| && |requests| == |old(requests)| + 1
      ensures requests == old(requests) + [requests[|old(requests)|]] && requests[|old(requests)|].window == w
      ensures Kept(old(requests), old(queue), requests, queue)
      ensures Placed(requests[|old(requests)|], |old(requests)|, old(queue), old(active), old(admissions))
      ensures Served(|old(requests)|, old(RunningSet(requests)), old(queue), old(active), old(admissions))
      ensures w.Some? ==>
        && OthersKept(clients0, windows0, clients, windows, client, now)
        && OwnCounted(clients0, windows0, client, now, requests[|old(requests)|])
    {
      if w.Some? {
        OthersRefunded(clients0, windows0, clients, windows, owners, w, client, now);
      }
      Place(windows0, w, now);
      KeptMore(old(requests), old(queue), requests[|old(requests)|], queue);
    }

    /** Over its budget: the client's request is answered, and charged to no window. */
    method TurnAwayFor(ghost client: Client)
      requires Balanced(0) && MayJoin(clients, owners, requests, callers, None, client)
      modifies this`requests
      ensures Balanced(0) && requests == old(requests) + [Refused(None)]
      ensures Separated(clients, owners, requests, callers + [client])
      ensures RunningSet(requests) == old(RunningSet(requests)) && Kept(old(requests), queue, requests, queue)
    {
      KeptMore(requests, queue, Refused(None), queue);
      TurnAway();
    }

    /** Answered at once, and nothing else happens. */
    method TurnAway()
      requires Balanced(0)
      modifies this`requests
      ensures Balanced(0) && requests == old(requests) + [Refused(None)]
      ensures RunningSet(requests) == old(RunningSet(requests))
    {
      RunningMore(requests, Refused(None));
      AppendRefused(requests, queue, admissions, |windows|, None);
      requests := requests + [Refused(None)];
    }

    /** The request just arrived has been charged to window `w`, and nothing else done. */
    ghost predicate Charging(windows0: seq<Window>, w: Option<nat>, now: int)
      reads this
    {
      && SlotsCounted(0) && AllSound(requests, queue, |windows|) && InOrder(requests, queue, admissions)
      && Counted(windows0, requests, queue, maxPerMinute) && ChargedTo(windows0, windows, w, now, maxPerMinute)
      && ChargedBefore(windows0, windows, requests, queue)
      && WindowsHeld()
    }

    /** Starts the request just charged, or queues it, or refuses it and takes the charge back. */
    method Place(ghost windows0: seq<Window>, w: Option<nat>, ghost now: int)
      requires Charging(windows0, w, now)
      modifies this`active, this`queue, this`requests, this`windows, this`admissions
      ensures Balanced(0) && |requests| == |old(requests)| + 1
      ensures requests == old(requests) + [requests[|old(requests)|]]
      ensures requests[|old(requests)|].window == w && (windows == old(windows) || windows == Refunded(old(windows), w))
      ensures Placed(requests[|old(requests)|], |old(requests)|, old(queue), old(active), old(admissions))
      ensures Served(|old(requests)|, old(RunningSet(requests)), old(queue), old(active), old(admissions))
      ensures windows == if requests[|old(requests)|].answered == 0 then old(windows) else Refunded(old(windows), w)
    {
      if active < maxConcurrent {
        StartNew(windows0, w, now);
      } else if |queue| >= maxQueued {
        Shed(windows0, w, now);
      } else {
        Enqueue(windows0, w, now);
      }
    }

    /** Answers the request just charged, and takes the charge back. */
    method Shed(ghost windows0: seq<Window>, w: Option<nat>, ghost now: int)
      requires Charging(windows0, w, now)
      modifies this`requests, this`windows
      ensures Balanced(0) && requests == old(requests) + [Refused(w)] && windows == Refunded(old(windows), w)
      ensures RunningSet(requests) == old(RunningSet(requests))
    {
      RunningMore(requests, Refused(w));
      AppendRefused(requests, queue, admissions, |windows|, w);
      RefundAtOnce(windows0, windows, requests, queue, w, now, maxPerMinute);
      Refund(w);
      requests := requests + [Refused(w)];
    }

    method StartNew(ghost windows0: seq<Window>, w: Option<nat>, ghost now: int)
      requires Charging(windows0, w, now) && active < maxConcurrent
      modifies this`active, this`requests, this`admissions
      ensures Balanced(0) && active == old(active) + 1 && queue == []
      ensures requests == old(requests) + [Admitted(w)] && admissions == old(admissions) + [|old(requests)|]
      ensures RunningSet(requests) == old(RunningSet(requests)) + {|old(requests)|}
    {
      StartBalanced(windows0, windows, requests, queue, admissions, w, now, maxPerMinute);
      RunningMore(requests, Admitted(w));
      StartBoth(w, requests + [Admitted(w)], admissions + [|requests|]);
    }

    /** The request just charged goes straight through, to these records and admissions. */
    method StartBoth(w: Option<nat>, ghost requests': seq<Request>, ghost admissions': seq<nat>)
      requires requests' == requests + [Admitted(w)] && admissions' == admissions + [|requests|]
      requires AllSound(requests', queue, |windows|) && InOrder(requests', queue, admissions')
      requires Counted(windows, requests', queue, maxPerMinute) && WindowsHeld() && |queue| <= maxQueued
      requires active + 1 == |RunningSet(requests')| <= maxConcurrent && queue == []
      modifies this`active, this`requests, this`admissions
      ensures Balanced(0) && active == old(active) + 1 && requests == requests' && admissions == admissions'
    {
      var id := |requests|;
      active := active + 1;
      requests := requests + [Arrived(w)];
      LastReplaced(old(requests), Arrived(w), Admitted(w));
      Admit(id);
    }

    method Enqueue(ghost windows0: seq<Window>, w: Option<nat>, ghost now: int)
      requires Charging(windows0, w, now) && active >= maxConcurrent && |queue| < maxQueued
      modifies this`queue, this`requests
      ensures Balanced(0) && requests == old(requests) + [Queued(w)] && queue == old(queue) + [|old(requests)|]
      ensures RunningSet(requests) == old(RunningSet(requests))
    {
      var id := |requests|;
      RunningMore(requests, Queued(w));
      AppendQueued(requests, queue, admissions, |windows|, w);
      ChargeCounted(windows0, windows, requests, queue, requests + [Queued(w)], queue + [id], w, now, maxPerMinute);
      requests := requests + [Queued(w)];
      queue := queue + [id];
    }
  }

  // ----- runs

  datatype Event = Arrival(client: Client, now: int) | Finish(id: nat) | Close(id: nat) | Timeout(id: nat)

  method React(a: Admission, event: Event)
    requires a.Valid()
    modifies a
    ensures a.Valid() && Kept(old(a.requests), old(a.queue), a.requests, a.queue)
  {
    match event
    case Arrival(client, now) =>
      var id := a.Arrive(client, now);
    case Finish(id) => if id < |a.requests| { a.OnFinish(id); }
    case Close(id) => if id < |a.requests| { a.OnClose(id); }
    case Timeout(id) => if id < |a.requests| { a.OnTimeout(id); }
  }

  /** Any number of arrivals, finishes, closes and timeouts, in any order. */
  method Serve(a: Admission, events: seq<Event>)
    requires a.Valid()
    modifies a
    ensures a.Valid() && Kept(old(a.requests), old(a.queue), a.requests, a.queue)
    ensures a.active == |RunningSet(a.requests)| <= a.maxConcurrent && |a.queue| <= a.maxQueued
    ensures a.queue != [] ==> a.active == a.maxConcurrent
    ensures SettledOnce(a.requests, a.queue) && NoOvertaking(a.requests, a.queue)
    ensures Counted(a.windows, a.requests, a.queue, a.maxPerMinute)
    ensures |a.callers| == |a.requests| && OwnWindows(a.clients, a.windows, a.requests, a.callers, a.queue)
  {
    for k := 0 to |events|
      invariant a.Valid() && Kept(old(a.requests), old(a.queue), a.requests, a.queue)
    {
      React(a, events[k]);
    }
    FirstComeFirstServed(a.requests, a.queue, a.admissions);
    WindowsApart(a.clients, a.owners, a.windows, a.requests, a.callers, a.queue, a.maxPerMinute);
    forall i: nat | i < |a.requests|
      ensures a.requests[i].started + a.requests[i].answered == if i in a.queue then 0 else 1
    {
      assert Sound(a.requests[i], i in a.queue);
    }
  }

  /** Progress: ending whoever runs, one after another in any order, each by a finished response
      or by a closed connection, leaves no slot in use and admits every waiter in the order of the
      queue, unless there are no slots at all. */
  method EndAll(a: Admission, closes: nat -> bool)
    requires a.Valid()
    modifies a
    ensures a.Valid() && a.active == 0 && RunningSet(a.requests) == {}
    ensures if a.maxConcurrent > 0 then a.queue == [] && a.admissions == old(a.admissions) + old(a.queue)
      else a.queue == old(a.queue) && a.admissions == old(a.admissions)
    ensures Kept(old(a.requests), old(a.queue), a.requests, a.queue)
  {
    while a.active > 0
      invariant a.maxConcurrent == 0 ==> a.queue == old(a.queue) && a.admissions == old(a.admissions)
      invariant a.Valid() && a.admissions + a.queue == old(a.admissions) + old(a.queue)
      invariant Kept(old(a.requests), old(a.queue), a.requests, a.queue)
      decreases a.active + |a.queue|
    {
      var id :| id in RunningSet(a.requests);
      EndOne(a, id, closes(id));
    }
    assert a.maxConcurrent > 0 ==> a.queue == [] && a.admissions + [] == a.admissions;
  }

  /** One of the running requests ends: its slot goes to the first in line, if any. */
  method EndOne(a: Admission, id: nat, closes: bool)
    requires a.Valid() && id in RunningSet(a.requests)
    modifies a
    ensures a.Valid() && a.admissions + a.queue == old(a.admissions) + old(a.queue)
    ensures if old(a.queue) == [] then a.active == old(a.active) - 1 && a.queue == []
      else a.active == old(a.active) && a.queue == old(a.queue)[1..]
    ensures Kept(old(a.requests), old(a.queue), a.requests, a.queue)
    ensures id !in RunningSet(a.requests)
  {
    HeadMoves(a.admissions, a.queue);
    if closes {
      a.OnClose(id);
    } else {
      a.OnFinish(id);
    }
  }
}
