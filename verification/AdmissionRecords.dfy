/** What one step of the admission controller does to its records, its slots and its windows. */
module AdmissionRecords {
  import opened Collections

  const WINDOW_MS: int := 60_000
  const MAX_TRACKED_CLIENTS: nat := 10_000

  /** A client, by address. */
  datatype Client = Client(address: nat)

  datatype Window = Window(startedAt: int, requests: int)

  /** One request, with the flags its callbacks share and the callbacks still attached.
      `started` counts calls of the next handler, `answered` the replies sent here. */
  datatype Request = Request(
    window: Option<nat>, settled: bool, released: bool,
    releaseOnFinish: bool, releaseOnClose: bool, dropOnClose: bool, timer: bool,
    started: nat, answered: nat)

  function Refused(w: Option<nat>): Request { Request(w, false, false, false, false, false, false, 0, 1) }

  function Arrived(w: Option<nat>): Request { Request(w, false, false, false, false, false, false, 0, 0) }

  function Queued(w: Option<nat>): Request { Request(w, false, false, false, false, true, true, 0, 0) }

  function Admitted(w: Option<nat>): Request { Request(w, true, false, true, true, false, false, 1, 0) }

  function Rejected(w: Option<nat>): Request { Request(w, true, false, false, false, false, false, 0, 1) }

  /** Holds a slot: started, and the slot not given back. */
  predicate Running(r: Request) { r.started > 0 && !r.released }

  /** Its slot is given back; the other release callback may still be attached. */
  predicate Done(r: Request) {
    r.started == 1 && r.answered == 0 && r.settled && r.released && !r.dropOnClose && !r.timer
  }

  /** The only states a request can be in. */
  predicate Sound(r: Request, waiting: bool) {
    if waiting then r == Queued(r.window)
    else r == Refused(r.window) || r == Rejected(r.window) || r == Admitted(r.window) || Done(r)
  }

  function RunningSet(requests: seq<Request>): set<nat> {
    set i: nat | i < |requests| && Running(requests[i])
  }

  /** The admitted and the waiting requests that count against window `w`. */
  function Charged(requests: seq<Request>, queue: seq<nat>, w: nat): set<nat> {
    set i: nat | i < |requests| && requests[i].window == Some(w) && (requests[i].started > 0 || i in queue)
  }

  /** One request more is charged to window `w`, if there is one, and nothing else changes. */
  ghost predicate OneMore(requests: seq<Request>, queue: seq<nat>, requests': seq<Request>, queue': seq<nat>,
                          w: Option<nat>)
  {
    && (forall x: nat :: w != Some(x) ==> Charged(requests', queue', x) == Charged(requests, queue, x))
    && forall x: nat :: w == Some(x) ==> |Charged(requests', queue', x)| == |Charged(requests, queue, x)| + 1
  }

  predicate Increasing(s: seq<nat>) { forall i, j :: 0 <= i < j < |s| ==> s[i] < s[j] }

  /** Every request is in a proper state, and the queue is those that wait. */
  predicate AllSound(requests: seq<Request>, queue: seq<nat>, windows: nat) {
    && (forall k :: 0 <= k < |queue| ==> queue[k] < |requests|)
    && (forall i: nat :: i < |requests| ==> Sound(requests[i], i in queue))
    && (forall i: nat :: i < |requests| && requests[i].window.Some? ==> requests[i].window.value < windows)
  }

  /** Requests are admitted in order of arrival, and the queue holds the next ones. */
  predicate InOrder(requests: seq<Request>, queue: seq<nat>, admissions: seq<nat>) {
    && Increasing(admissions + queue)
    && (forall k :: 0 <= k < |admissions| ==> admissions[k] < |requests|)
    && (forall i: nat :: i < |requests| ==> (requests[i].started > 0 <==> i in admissions))
  }

  // ----- what one change of the records does to the counts

  lemma MarkReleased(requests: seq<Request>, queue: seq<nat>, admissions: seq<nat>, windows: nat, id: nat, r: Request)
    requires AllSound(requests, queue, windows) && InOrder(requests, queue, admissions)
    requires id < |requests| && Running(requests[id]) && Done(r) && r.window == requests[id].window
    ensures AllSound(requests[id := r], queue, windows) && InOrder(requests[id := r], queue, admissions)
    ensures |RunningSet(requests)| == |RunningSet(requests[id := r])| + 1
    ensures forall w: nat :: Charged(requests[id := r], queue, w) == Charged(requests, queue, w)
  {
    assert RunningSet(requests) == RunningSet(requests[id := r]) + {id};
    assert Sound(requests[id], id in queue);
  }

  lemma HeadWaits(queue: seq<nat>, admissions: seq<nat>)
    requires queue != [] && Increasing(admissions + queue)
    ensures queue[0] !in queue[1..] && queue[0] !in admissions && Increasing(admissions + [queue[0]] + queue[1..])
    ensures forall i :: i in queue <==> i == queue[0] || i in queue[1..]
  {
    var s := admissions + queue;
    assert s == admissions + [queue[0]] + queue[1..];
    assert forall k :: 0 <= k < |admissions| ==> s[k] == admissions[k];
    assert forall k :: 0 <= k < |queue| ==> s[|admissions| + k] == queue[k];
    assert queue == [queue[0]] + queue[1..];
  }

  lemma AdmitHead(requests: seq<Request>, queue: seq<nat>, admissions: seq<nat>, windows: nat)
    requires AllSound(requests, queue, windows) && InOrder(requests, queue, admissions) && queue != []
    ensures var id := queue[0];
      var requests', admissions' := requests[id := Admitted(requests[id].window)], admissions + [id];
      && AllSound(requests', queue[1..], windows) && InOrder(requests', queue[1..], admissions')
      && |RunningSet(requests')| == |RunningSet(requests)| + 1
      && forall w: nat :: Charged(requests', queue[1..], w) == Charged(requests, queue, w)
  {
    HeadWaits(queue, admissions);
    var id := queue[0];
    assert Sound(requests[id], id in queue);
    assert RunningSet(requests[id := Admitted(requests[id].window)]) == RunningSet(requests) + {id};
    HeadCharged(requests, queue, windows);
  }

  /** It was charged while it waited. */
  lemma HeadCharged(requests: seq<Request>, queue: seq<nat>, windows: nat)
    requires AllSound(requests, queue, windows) && queue != []
    requires forall i :: i in queue <==> i == queue[0] || i in queue[1..]
    ensures forall w: nat ::
      Charged(requests[queue[0] := Admitted(requests[queue[0]].window)], queue[1..], w) == Charged(requests, queue, w)
  {
  }

  lemma SkipWaits(queue: seq<nat>, admissions: seq<nat>, k: int)
    requires 0 <= k < |queue| && Increasing(admissions + queue)
    ensures queue[k] !in Dropped(queue, k) && queue[k] !in admissions && Increasing(admissions + Dropped(queue, k))
    ensures forall i :: i in queue <==> i == queue[k] || i in Dropped(queue, k)
  {
    var s, q := admissions + queue, Dropped(queue, k);
    assert forall j :: 0 <= j < |admissions| ==> s[j] == admissions[j];
    assert forall j :: 0 <= j < |queue| ==> s[|admissions| + j] == queue[j];
    assert forall j :: 0 <= j < |q| ==> q[j] == queue[if j < k then j else j + 1];
    assert queue == queue[..k] + [queue[k]] + queue[k + 1..];
  }

  lemma RejectWaiter(requests: seq<Request>, queue: seq<nat>, admissions: seq<nat>, windows: nat, k: int)
    requires AllSound(requests, queue, windows) && InOrder(requests, queue, admissions) && 0 <= k < |queue|
    ensures var id := queue[k];
      var requests' := requests[id := Rejected(requests[id].window)];
      && AllSound(requests', Dropped(queue, k), windows) && InOrder(requests', Dropped(queue, k), admissions)
      && RunningSet(requests') == RunningSet(requests)
      && OneMore(requests', Dropped(queue, k), requests, queue, requests[id].window)
  {
    SkipWaits(queue, admissions, k);
    var id := queue[k];
    var requests' := requests[id := Rejected(requests[id].window)];
    assert Sound(requests[id], id in queue);
    if requests[id].window.Some? {
      var w := requests[id].window.value;
      assert Charged(requests, queue, w) == Charged(requests', Dropped(queue, k), w) + {id};
    }
  }

  /** A new request that waits. */
  lemma AppendQueued(requests: seq<Request>, queue: seq<nat>, admissions: seq<nat>, windows: nat, w: Option<nat>)
    requires AllSound(requests, queue, windows) && InOrder(requests, queue, admissions)
    requires w.Some? ==> w.value < windows
    ensures var requests', queue' := requests + [Queued(w)], queue + [|requests|];
      && AllSound(requests', queue', windows) && InOrder(requests', queue', admissions)
      && RunningSet(requests') == RunningSet(requests)
      && OneMore(requests, queue, requests', queue', w)
  {
    var requests', queue', id := requests + [Queued(w)], queue + [|requests|], |requests|;
    assert admissions + queue' == (admissions + queue) + [id];
    assert forall i :: i in queue' <==> i in queue || i == id;
    assert forall k :: 0 <= k < |queue| ==> queue[k] in queue;
    if w.Some? {
      assert Charged(requests', queue', w.value) == Charged(requests, queue, w.value) + {id};
    }
  }

  /** A new request that is admitted at once. */
  lemma AppendAdmitted(requests: seq<Request>, admissions: seq<nat>, windows: nat, w: Option<nat>)
    requires AllSound(requests, [], windows) && InOrder(requests, [], admissions) && (w.Some? ==> w.value < windows)
    ensures var requests', admissions' := requests + [Admitted(w)], admissions + [|requests|];
      && AllSound(requests', [], windows) && InOrder(requests', [], admissions')
      && |RunningSet(requests')| == |RunningSet(requests)| + 1
      && OneMore(requests, [], requests', [], w)
  {
    var waiting, id := requests + [Queued(w)], |requests|;
    AppendQueued(requests, [], admissions, windows, w);
    assert [] + [id] == [id] && [id][1..] == [];
    AdmitHead(waiting, [id], admissions, windows);
    assert waiting[id := Admitted(w)] == requests + [Admitted(w)];
  }

  /** A new request that is turned away. */
  lemma AppendRefused(requests: seq<Request>, queue: seq<nat>, admissions: seq<nat>, windows: nat, w: Option<nat>)
    requires AllSound(requests, queue, windows) && InOrder(requests, queue, admissions)
    requires w.Some? ==> w.value < windows
    ensures var requests' := requests + [Refused(w)];
      && AllSound(requests', queue, windows) && InOrder(requests', queue, admissions)
      && RunningSet(requests') == RunningSet(requests)
      && forall x: nat :: Charged(requests', queue, x) == Charged(requests, queue, x)
  {
  }

  /** More window objects change nothing. */
  lemma MoreWindows(requests: seq<Request>, queue: seq<nat>, windows: nat, windows': nat)
    requires AllSound(requests, queue, windows) && windows <= windows'
    ensures AllSound(requests, queue, windows')
    ensures forall w: nat :: windows <= w ==> Charged(requests, queue, w) == {}
  {
  }

  /** What was started or answered stays so, and never becomes anything more or waits again;
      and a request keeps its window. */
  predicate Kept(requests: seq<Request>, queue: seq<nat>, requests': seq<Request>, queue': seq<nat>) {
    && |requests| <= |requests'|
    && (forall i: nat :: i < |requests| ==> requests'[i].window == requests[i].window)
    && (forall i: nat :: i < |requests| && i !in queue ==>
         requests'[i].started == requests[i].started && requests'[i].answered == requests[i].answered)
    && forall i: nat :: i in queue' && i < |requests| ==> i in queue
  }

  lemma SkipKept(requests: seq<Request>, queue: seq<nat>, k: int, r: Request)
    requires 0 <= k < |queue| && queue[k] < |requests| && r.window == requests[queue[k]].window
    ensures Kept(requests, queue, requests[queue[k] := r], Dropped(queue, k))
  {
    assert queue[k] in queue;
  }

  lemma PassKept(requests: seq<Request>, queue: seq<nat>, r: Request)
    requires queue != [] && queue[0] < |requests| && r.window == requests[queue[0]].window
    ensures Kept(requests, queue, requests[queue[0] := r], queue[1..])
  {
    assert queue[0] in queue && forall i :: i in queue[1..] ==> i in queue;
  }

  lemma FiredKept(requests: seq<Request>, queue: seq<nat>, id: nat, r: Request, requests': seq<Request>,
                  queue': seq<nat>)
    requires id < |requests| && r.started == requests[id].started && r.answered == requests[id].answered
    requires r.window == requests[id].window
    requires Kept(requests[id := r], queue, requests', queue')
    ensures Kept(requests, queue, requests', queue')
  {
  }

  // ----- windows

  predicate Fresh(window: Window, now: int) { now - window.startedAt < WINDOW_MS }

  /** The table without the clients whose window has run out. */
  function Swept(clients: map<Client, nat>, windows: seq<Window>, now: int): map<Client, nat>
    requires forall c :: c in clients ==> clients[c] < |windows|
  {
    map c | c in clients && Fresh(windows[clients[c]], now) :: clients[c]
  }

  /** A full table is swept when a client that is not in it asks. */
  function Retained(clients: map<Client, nat>, windows: seq<Window>, client: Client, now: int): map<Client, nat>
    requires forall c :: c in clients ==> clients[c] < |windows|
  {
    if client !in clients && |clients| >= MAX_TRACKED_CLIENTS then Swept(clients, windows, now) else clients
  }

  /** Every window in the table was opened for that client, and every request charged to a
      window is of the client that the window was opened for. */
  predicate Separated(clients: map<Client, nat>, owners: seq<Client>, requests: seq<Request>, callers: seq<Client>) {
    && |callers| == |requests|
    && (forall c :: c in clients ==> clients[c] < |owners| && owners[clients[c]] == c)
    && forall i: nat :: i < |requests| && requests[i].window.Some? ==>
         requests[i].window.value < |owners| && owners[requests[i].window.value] == callers[i]
  }

  lemma SeparatedKept(clients: map<Client, nat>, owners: seq<Client>, requests: seq<Request>, callers: seq<Client>,
                      queue: seq<nat>, requests': seq<Request>, queue': seq<nat>)
    requires Separated(clients, owners, requests, callers)
    requires Kept(requests, queue, requests', queue') && |requests'| == |requests|
    ensures Separated(clients, owners, requests', callers)
  {
  }

  /** Whether the per-client limit lets this request in: there is room in the table, perhaps after
      a sweep, and the client's own window, if it has one that is less than a minute old, has
      requests left. */
  predicate Allowed(clients: map<Client, nat>, windows: seq<Window>, client: Client, now: int, max: int)
    requires forall c :: c in clients ==> clients[c] < |windows|
  {
    && (client in clients || |clients| < 10_000
        || exists c :: c in clients && now - windows[clients[c]].startedAt >= 60_000)
    && if client in clients && now - windows[clients[client]].startedAt < 60_000
       then windows[clients[client]].requests < max else 0 < max
  }

  /** The client's own window before a request: the one it has that is less than a minute old,
      or else a new one. */
  function Before(clients: map<Client, nat>, windows: seq<Window>, client: Client, now: int): Window
    requires forall c :: c in clients ==> clients[c] < |windows|
  {
    if client in clients && now - windows[clients[client]].startedAt < 60_000 then windows[clients[client]]
    else Window(now, 0)
  }

  /** Requests still counted against the window that `client` has in the table. */
  function OwnCharged(clients: map<Client, nat>, requests: seq<Request>, queue: seq<nat>, callers: seq<Client>,
                      client: Client): set<nat>
    requires client in clients && |callers| == |requests|
  {
    set i: nat | i < |requests| && callers[i] == client && requests[i].window == Some(clients[client])
                 && (requests[i].started > 0 || i in queue)
  }

  /** A window only ever counts its own client's requests. */
  lemma CountsOwn(clients: map<Client, nat>, owners: seq<Client>, windows: seq<Window>, requests: seq<Request>,
                  callers: seq<Client>, queue: seq<nat>, max: Option<int>, client: Client)
    requires Separated(clients, owners, requests, callers) && |owners| == |windows|
    requires Counted(windows, requests, queue, max) && client in clients
    ensures windows[clients[client]].requests == |OwnCharged(clients, requests, queue, callers, client)|
  {
    var w := clients[client];
    assert WindowCounted(windows[w], Charged(requests, queue, w), max);
    assert Charged(requests, queue, w) == OwnCharged(clients, requests, queue, callers, client);
  }

  /** Different clients have different windows, and each counts the requests of its client. */
  ghost predicate OwnWindows(clients: map<Client, nat>, windows: seq<Window>, requests: seq<Request>,
                             callers: seq<Client>, queue: seq<nat>)
    requires |callers| == |requests|
  {
    && (forall c, d :: c in clients && d in clients && c != d ==> clients[c] != clients[d])
    && forall c :: c in clients ==>
         clients[c] < |windows| && windows[clients[c]].requests == |OwnCharged(clients, requests, queue, callers, c)|
  }

  lemma WindowsApart(clients: map<Client, nat>, owners: seq<Client>, windows: seq<Window>, requests: seq<Request>,
                     callers: seq<Client>, queue: seq<nat>, max: Option<int>)
    requires Separated(clients, owners, requests, callers) && |owners| == |windows|
    requires Counted(windows, requests, queue, max)
    ensures OwnWindows(clients, windows, requests, callers, queue)
  {
    forall c | c in clients
      ensures windows[clients[c]].requests == |OwnCharged(clients, requests, queue, callers, c)|
    {
      CountsOwn(clients, owners, windows, requests, callers, queue, max, c);
    }
  }

  /** Sweeping touches no window. */
  lemma OthersRetained(clients: map<Client, nat>, windows: seq<Window>, client: Client, now: int)
    requires forall c :: c in clients ==> clients[c] < |windows|
    ensures OthersKept(clients, windows, Retained(clients, windows, client, now), windows, client, now)
  {
  }

  /** Sweeping does not concern the client who asks, and makes room exactly if a window has run out. */
  lemma RetainedOwn(clients: map<Client, nat>, windows: seq<Window>, client: Client, now: int, max: int)
    requires (forall c :: c in clients ==> clients[c] < |windows|) && |clients| <= 10_000
    ensures var kept := Retained(clients, windows, client, now);
      && (client in kept <==> client in clients) && (client in clients ==> kept[client] == clients[client])
      && Before(kept, windows, client, now) == Before(clients, windows, client, now)
      && (Allowed(clients, windows, client, now, max) <==>
           (client in kept || |kept| < 10_000) && Before(kept, windows, client, now).requests < max)
  {
    var swept := Swept(clients, windows, now);
    SubsetCount(swept.Keys, clients.Keys);
    if exists c :: c in clients && now - windows[clients[c]].startedAt >= 60_000 {
      var c :| c in clients && now - windows[clients[c]].startedAt >= 60_000;
      SubsetCount(swept.Keys, clients.Keys - {c});
    } else {
      assert swept == clients;
    }
  }

  /** First the sweep, then the charge. */
  lemma OthersThrough(clients0: map<Client, nat>, windows0: seq<Window>, clients1: map<Client, nat>,
                      clients: map<Client, nat>, windows: seq<Window>, client: Client, now: int)
    requires forall c :: c in clients0 ==> clients0[c] < |windows0|
    requires forall c :: c in clients1 ==> clients1[c] < |windows0|
    requires OthersKept(clients0, windows0, clients1, windows0, client, now)
    requires OthersSame(clients1, windows0, clients, windows, client)
    ensures OthersKept(clients0, windows0, clients, windows, client, now)
  {
  }

  /** The window of one client is in the table under nobody else's name. */
  lemma OthersApart(clients: map<Client, nat>, owners: seq<Client>, client: Client)
    requires forall c :: c in clients ==> clients[c] < |owners| && owners[clients[c]] == c
    ensures client in clients ==> forall c :: c in clients && c != client ==> clients[c] != clients[client]
  {
  }

  /** Nobody else's entry in the table changes. */
  ghost predicate OthersSame(clients0: map<Client, nat>, windows0: seq<Window>, clients: map<Client, nat>,
                             windows: seq<Window>, client: Client)
    requires forall c :: c in clients0 ==> clients0[c] < |windows0|
  {
    forall c {:trigger c in clients} {:trigger c in clients0} :: c != client ==>
      && (c in clients <==> c in clients0)
      && (c in clients ==> clients[c] < |windows| && windows[clients[c]] == windows0[clients0[c]])
  }

  /** Giving the charge back to the client's own window is nobody else's business either. */
  lemma OthersRefunded(clients0: map<Client, nat>, windows0: seq<Window>, clients: map<Client, nat>,
                       windows: seq<Window>, owners: seq<Client>, w: Option<nat>, client: Client, now: int)
    requires forall c :: c in clients0 ==> clients0[c] < |windows0|
    requires OthersKept(clients0, windows0, clients, windows, client, now)
    requires forall c :: c in clients ==> clients[c] < |owners| && owners[clients[c]] == c
    requires w.Some? ==> w.value < |owners| && owners[w.value] == client
    ensures OthersKept(clients0, windows0, clients, Refunded(windows, w), client, now)
  {
  }

  /** What the decision means for the client: with a positive limit and room in the table it is
      let in if it has no window less than a minute old, and is only turned away once as many
      requests of its own as the limit are counted. */
  lemma OwnBudget(clients: map<Client, nat>, owners: seq<Client>, windows: seq<Window>, requests: seq<Request>,
                  callers: seq<Client>, queue: seq<nat>, client: Client, now: int, max: int)
    requires Separated(clients, owners, requests, callers) && |owners| == |windows|
    requires Counted(windows, requests, queue, Some(max)) && 0 < max && (client in clients || |clients| < 10_000)
    ensures !(client in clients && now - windows[clients[client]].startedAt < 60_000) ==>
      Allowed(clients, windows, client, now, max)
    ensures !Allowed(clients, windows, client, now, max) ==>
      && client in clients && now - windows[clients[client]].startedAt < 60_000
      && |OwnCharged(clients, requests, queue, callers, client)| >= max
  {
    if client in clients {
      CountsOwn(clients, owners, windows, requests, callers, queue, Some(max), client);
    }
  }

  /** A request of this client, charged to window `w` or to none, may join. */
  ghost predicate MayJoin(clients: map<Client, nat>, owners: seq<Client>, requests: seq<Request>, callers: seq<Client>,
                          w: Option<nat>, client: Client)
  {
    forall r: Request :: r.window == w ==> Separated(clients, owners, requests + [r], callers + [client])
  }

  lemma SeparatedMore(clients0: map<Client, nat>, owners0: seq<Client>, clients: map<Client, nat>, owners: seq<Client>,
                      requests: seq<Request>, callers: seq<Client>, w: Option<nat>, client: Client)
    requires Separated(clients0, owners0, requests, callers) && owners0 <= owners
    requires forall c :: c in clients ==> clients[c] < |owners| && owners[clients[c]] == c
    requires w.Some? ==> w.value < |owners| && owners[w.value] == client
    ensures MayJoin(clients, owners, requests, callers, w, client)
  {
  }

  lemma KeptMore(requests: seq<Request>, queue: seq<nat>, r: Request, queue': seq<nat>)
    requires queue' == queue || queue' == queue + [|requests|]
    ensures Kept(requests, queue, requests + [r], queue')
  {
  }

  lemma RunningMore(requests: seq<Request>, r: Request)
    ensures RunningSet(requests + [r]) == RunningSet(requests) + if Running(r) then {|requests|} else {}
  {
    var s := requests + [r];
    assert forall i: nat :: i < |requests| ==> s[i] == requests[i];
    assert s[|requests|] == r;
  }

  /** The same, except that a full table loses the clients
      whose window is a minute old when a client asks that is not in it. */
  ghost predicate OthersKept(clients0: map<Client, nat>, windows0: seq<Window>, clients: map<Client, nat>,
                       windows: seq<Window>, client: Client, now: int)
    requires forall c :: c in clients0 ==> clients0[c] < |windows0|
  {
    var full := client !in clients0 && |clients0| >= 10_000;
    forall c {:trigger c in clients} {:trigger c in clients0} :: c != client ==>
      && (c in clients <==> c in clients0 && !(full && now - windows0[clients0[c]].startedAt >= 60_000))
      && (c in clients ==> clients[c] < |windows| && windows[clients[c]] == windows0[clients0[c]])
  }

  predicate WindowCounted(window: Window, charged: set<nat>, max: Option<int>) {
    window.requests == |charged| && max.Some? && (window.requests == 0 || window.requests <= max.value)
  }

  /** Each window counts the requests charged to it, within the limit. */
  predicate Counted(windows: seq<Window>, requests: seq<Request>, queue: seq<nat>, max: Option<int>) {
    forall w: nat {:trigger windows[w]} :: w < |windows| ==> WindowCounted(windows[w], Charged(requests, queue, w), max)
  }

  /** The windows once `w` is charged with one more request, base now if it is new. */
  predicate ChargedTo(windows0: seq<Window>, windows: seq<Window>, w: Option<nat>, now: int, max: Option<int>) {
    if w.None? then windows == windows0 else
    && w.value <= |windows0| && max.Some?
    && var base := if w.value < |windows0| then windows0 else windows0 + [Window(now, 0)];
       windows == base[w.value := base[w.value].(requests := base[w.value].requests + 1)]
       && windows[w.value].requests <= max.value
  }

  /** A window base just now has no request yet. */
  ghost predicate ChargedBefore(windows0: seq<Window>, windows: seq<Window>, requests: seq<Request>, queue: seq<nat>) {
    |windows0| <= |windows| && forall w: nat :: |windows0| <= w ==> Charged(requests, queue, w) == {}
  }

  lemma ChargeSound(windows0: seq<Window>, windows: seq<Window>, requests: seq<Request>, queue: seq<nat>,
                    w: Option<nat>, now: int, max: Option<int>)
    requires AllSound(requests, queue, |windows0|) && ChargedTo(windows0, windows, w, now, max)
    ensures AllSound(requests, queue, |windows|) && ChargedBefore(windows0, windows, requests, queue)
  {
    MoreWindows(requests, queue, |windows0|, |windows|);
  }

  lemma RefundAtOnce(windows0: seq<Window>, windows: seq<Window>, requests: seq<Request>, queue: seq<nat>,
                     w: Option<nat>, now: int, max: Option<int>)
    requires Counted(windows0, requests, queue, max) && ChargedTo(windows0, windows, w, now, max)
    requires ChargedBefore(windows0, windows, requests, queue)
    ensures Counted(Refunded(windows, w), requests, queue, max)
  {
  }

  /** The new charge and the new request belong together. */
  lemma ChargeCounted(windows0: seq<Window>, windows: seq<Window>, requests: seq<Request>, queue: seq<nat>,
                      requests': seq<Request>, queue': seq<nat>, w: Option<nat>, now: int, max: Option<int>)
    requires Counted(windows0, requests, queue, max) && ChargedTo(windows0, windows, w, now, max)
    requires ChargedBefore(windows0, windows, requests, queue)
    requires OneMore(requests, queue, requests', queue', w)
    ensures Counted(windows, requests', queue', max)
  {
  }

  /** Whoever has started holds a slot or has given it back. */
  lemma StartedSound(requests: seq<Request>, queue: seq<nat>, windows: nat, id: nat)
    requires AllSound(requests, queue, windows) && id < |requests| && requests[id].started > 0
    ensures requests[id] == Admitted(requests[id].window) || Done(requests[id])
  {
    assert Sound(requests[id], id in queue);
  }

  /** Starting the request just charged, while nobody waits, keeps all counts. */
  lemma StartBalanced(windows0: seq<Window>, windows: seq<Window>, requests: seq<Request>, queue: seq<nat>,
                      admissions: seq<nat>, w: Option<nat>, now: int, max: Option<int>)
    requires AllSound(requests, queue, |windows|) && InOrder(requests, queue, admissions) && queue == []
    requires Counted(windows0, requests, queue, max) && ChargedTo(windows0, windows, w, now, max)
    requires ChargedBefore(windows0, windows, requests, queue)
    ensures var requests', admissions' := requests + [Admitted(w)], admissions + [|requests|];
      && AllSound(requests', queue, |windows|) && InOrder(requests', queue, admissions')
      && |RunningSet(requests')| == |RunningSet(requests)| + 1 && Counted(windows, requests', queue, max)
  {
    AppendAdmitted(requests, admissions, |windows|, w);
    ChargeCounted(windows0, windows, requests, [], requests + [Admitted(w)], [], w, now, max);
  }

  /** A slot marked as given back: one request runs no more, and the counts are the same. */
  lemma ReleaseBalanced(windows: seq<Window>, requests: seq<Request>, queue: seq<nat>, admissions: seq<nat>, id: nat,
                        r: Request, max: Option<int>)
    requires AllSound(requests, queue, |windows|) && InOrder(requests, queue, admissions)
    requires Counted(windows, requests, queue, max)
    requires id < |requests| && Running(requests[id]) && Done(r) && r.window == requests[id].window
    ensures AllSound(requests[id := r], queue, |windows|) && InOrder(requests[id := r], queue, admissions)
    ensures |RunningSet(requests)| == |RunningSet(requests[id := r])| + 1
    ensures Counted(windows, requests[id := r], queue, max)
  {
    MarkReleased(requests, queue, admissions, |windows|, id, r);
  }

  lemma DoneBalanced(windows: seq<Window>, requests: seq<Request>, queue: seq<nat>, admissions: seq<nat>, id: nat,
                     r: Request, max: Option<int>)
    requires AllSound(requests, queue, |windows|) && InOrder(requests, queue, admissions)
    requires Counted(windows, requests, queue, max)
    requires id < |requests| && Done(requests[id]) && Done(r) && r.window == requests[id].window
    ensures AllSound(requests[id := r], queue, |windows|) && InOrder(requests[id := r], queue, admissions)
    ensures RunningSet(requests) == RunningSet(requests[id := r]) && Counted(windows, requests[id := r], queue, max)
  {
    StayDone(requests, queue, admissions, |windows|, id, r);
  }

  /** What an ending does to those who run, whichever callback reports it. */
  lemma EndEffect(requests: seq<Request>, queue: seq<nat>, admissions: seq<nat>, windows: nat, id: nat, r: Request)
    requires AllSound(requests, queue, windows) && Increasing(admissions + queue) && id < |requests|
    requires r == requests[id].(releaseOnFinish := r.releaseOnFinish, releaseOnClose := r.releaseOnClose)
    ensures RunningSet(requests[id := r]) == RunningSet(requests)
    ensures id in RunningSet(requests) ==>
      && requests[id] == Admitted(requests[id].window) && id !in queue
      && var ended := requests[id := r.(released := true)];
         RunningSet(ended) == RunningSet(requests) - {id}
         && (queue != [] ==>
              && queue[0] < |requests|
              && RunningSet(ended[queue[0] := Admitted(ended[queue[0]].window)])
                 == RunningSet(requests) - {id} + {queue[0]})
  {
    assert Sound(requests[id], id in queue);
    if queue != [] { assert queue[0] in queue; }
  }

  /** What dropping a waiter does to those who run and wait. */
  lemma DropEffect(requests: seq<Request>, queue: seq<nat>, admissions: seq<nat>, windows: nat, id: nat)
    requires AllSound(requests, queue, windows) && Increasing(admissions + queue) && id < |requests|
    ensures id in queue ==>
      && RunningSet(requests[id := Rejected(requests[id].window)]) == RunningSet(requests)
      && id !in RunningSet(requests)
      && forall k :: 0 <= k < |queue| && queue[k] == id ==> id !in Dropped(queue, k)
  {
    if id in queue {
      assert Sound(requests[id], true);
      forall k | 0 <= k < |queue| && queue[k] == id ensures id !in Dropped(queue, k) {
        SkipWaits(queue, admissions, k);
      }
    }
  }

  /** A release callback comes off the event that fired. */
  function Fired(r: Request, finished: bool): Request {
    if finished then r.(releaseOnFinish := false) else r.(releaseOnClose := false)
  }

  function Refunded(windows: seq<Window>, w: Option<nat>): seq<Window> {
    if w.Some? && w.value < |windows| then
      windows[w.value := windows[w.value].(requests := windows[w.value].requests - 1)]
    else windows
  }

  lemma RefundCounted(windows: seq<Window>, requests: seq<Request>, queue: seq<nat>, max: Option<int>, k: int)
    requires 0 <= k < |queue| && queue[k] < |requests| && Counted(windows, requests, queue, max)
    requires requests[queue[k]].window.Some? ==> requests[queue[k]].window.value < |windows|
    requires var id := queue[k];
      var requests' := requests[id := Rejected(requests[id].window)];
      OneMore(requests', Dropped(queue, k), requests, queue, requests[id].window)
    ensures var id := queue[k];
      Counted(Refunded(windows, requests[id].window), requests[id := Rejected(requests[id].window)], Dropped(queue, k),
              max)
  {
  }

  lemma StayDone(requests: seq<Request>, queue: seq<nat>, admissions: seq<nat>, windows: nat, id: nat, r: Request)
    requires AllSound(requests, queue, windows) && InOrder(requests, queue, admissions)
    requires id < |requests| && Done(requests[id]) && Done(r) && r.window == requests[id].window
    ensures AllSound(requests[id := r], queue, windows) && InOrder(requests[id := r], queue, admissions)
    ensures RunningSet(requests) == RunningSet(requests[id := r])
    ensures forall w: nat :: Charged(requests[id := r], queue, w) == Charged(requests, queue, w)
  {
  }

  lemma LastReplaced(s: seq<Request>, x: Request, y: Request)
    ensures (s + [x])[|s| := y] == s + [y]
  {
  }

  // ----- what every run keeps

  /** Every request that no longer waits has had exactly one outcome; a waiter has had none. */
  predicate SettledOnce(requests: seq<Request>, queue: seq<nat>) {
    forall i: nat :: i < |requests| ==> requests[i].started + requests[i].answered == if i in queue then 0 else 1
  }

  /** Nobody is started before someone who arrived earlier and still waits. */
  predicate NoOvertaking(requests: seq<Request>, queue: seq<nat>) {
    forall i, j: nat :: i in queue && j < |requests| && requests[j].started > 0 ==> j < i
  }

  lemma FirstComeFirstServed(requests: seq<Request>, queue: seq<nat>, admissions: seq<nat>)
    requires InOrder(requests, queue, admissions)
    ensures NoOvertaking(requests, queue)
  {
    forall i, j: nat | i in queue && j < |requests| && requests[j].started > 0 ensures j < i {
      assert j in admissions;
      var p :| 0 <= p < |admissions| && admissions[p] == j;
      var q :| 0 <= q < |queue| && queue[q] == i;
      assert (admissions + queue)[p] == j && (admissions + queue)[|admissions| + q] == i;
    }
  }

  lemma HeadMoves(admissions: seq<nat>, queue: seq<nat>)
    ensures queue != [] ==> admissions + [queue[0]] + queue[1..] == admissions + queue
  {
  }
}
