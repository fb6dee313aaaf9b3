/** The pool of isolate workers as a transition system: slots that grow, drain
    and are reused, load counters, and the guards that count on them. A guard's
    creation and its drop are two steps each, as the code takes the lock for
    only one part of them. */
module Pools {
  import opened Options

  /** A worker in its slot. The serial tells one thread, and its counter, from
      every other that ever had the slot. */
  datatype Worker = Worker(id: nat, serial: nat)

  /** A context's guard: the worker id it was pinned to, and the counter it holds,
      a worker's or, when that was gone already, one of its own. */
  datatype Guard = Guard(worker: nat, counter: Option<nat>)

  type Workers = seq<Option<Worker>>

  datatype State = State(
    workers: Workers,
    max: nat,
    /** The load counter of every worker there ever was. */
    loads: map<nat, nat>,
    guards: map<nat, Guard>,
    /** Registrations that found their worker and have not counted yet. */
    found: map<nat, Guard>,
    /** Drops that reached zero and have not looked at the slot yet. */
    emptied: multiset<nat>,
    serial: nat,
    ticket: nat)

  datatype Event =
    | Pick
    | PickAvoiding(avoid: seq<nat>)
    | LookUp(worker: nat)
    | Attach(ticket: nat)
    | Release(guard: nat)
    | Drain(worker: nat)

  // ---- slots ------------------------------------------------------------------------------

  function LiveUpTo(ws: Workers, n: nat): nat
    requires n <= |ws|
  {
    if n == 0 then 0 else LiveUpTo(ws, n - 1) + if ws[n - 1].Some? then 1 else 0
  }

  function Live(ws: Workers): nat {
    LiveUpTo(ws, |ws|)
  }

  /** The first drained slot, or the end. */
  function FreeSlot(ws: Workers): (i: nat)
    ensures i <= |ws| && (i < |ws| ==> ws[i].None?)
    ensures forall j :: 0 <= j < i ==> ws[j].Some?
  {
    if ws == [] || ws[0].None? then 0 else 1 + FreeSlot(ws[1..])
  }

  function Put(ws: Workers, i: nat, w: Worker): Workers
    requires i <= |ws|
  {
    if i < |ws| then ws[i := Some(w)] else ws + [Some(w)]
  }

  /** `spawn_worker_locked` */
  function Spawned(s: State): State {
    var i := FreeSlot(s.workers);
    s.(workers := Put(s.workers, i, Worker(i, s.serial)), loads := s.loads[s.serial := 0], serial := s.serial + 1)
  }

  function LoadOf(loads: map<nat, nat>, w: Worker): nat {
    if w.serial in loads then loads[w.serial] else 0
  }

  /** The first least-loaded live worker among the first `n` slots, but for those
      avoided. */
  function LeastUpTo(ws: Workers, loads: map<nat, nat>, avoid: seq<nat>, n: nat): (r: Option<Worker>)
    requires n <= |ws|
  {
    if n == 0 then None
    else
      var best, w := LeastUpTo(ws, loads, avoid, n - 1), ws[n - 1];
      if w.None? || w.value.id in avoid then best
      else if best.Some? && LoadOf(loads, best.value) <= LoadOf(loads, w.value) then best
      else w
  }

  function Least(s: State, avoid: seq<nat>): Option<Worker> {
    LeastUpTo(s.workers, s.loads, avoid, |s.workers|)
  }

  // ---- steps --------------------------------------------------------------------------------

  datatype Picked = Picked(state: State, id: nat)

  /** `pick_worker` */
  function PickStep(s: State): Picked {
    var best := Least(s, []);
    if best.Some? && (LoadOf(s.loads, best.value) == 0 || Live(s.workers) >= s.max) then Picked(s, best.value.id)
    else Picked(Spawned(s), FreeSlot(s.workers))
  }

  /** `pick_worker_avoiding` */
  function AvoidStep(s: State, avoid: seq<nat>): Picked {
    var best := Least(s, avoid);
    if best.Some? && LoadOf(s.loads, best.value) == 0 then Picked(s, best.value.id)
    else if Live(s.workers) < s.max then Picked(Spawned(s), FreeSlot(s.workers))
    else if Least(s, []).Some? then Picked(s, Least(s, []).value.id)
    else Picked(s, 0)
  }

  function WorkerAt(ws: Workers, id: nat): Option<Worker> {
    if id < |ws| then ws[id] else None
  }

  /** The first half of `register_context`. */
  function LookUpStep(s: State, id: nat): State {
    var w := WorkerAt(s.workers, id);
    s.(found := s.found[s.ticket := Guard(id, if w.Some? then Some(w.value.serial) else None)], ticket := s.ticket + 1)
  }

  /** Its second half: the count goes up. */
  function AttachStep(s: State, t: nat): State {
    if t !in s.found then s
    else
      var g := s.found[t];
      s.(found := s.found - {t}, guards := s.guards[t := g],
         loads := if g.counter.Some? && g.counter.value in s.loads
                  then s.loads[g.counter.value := s.loads[g.counter.value] + 1] else s.loads)
  }

  /** The first half of dropping a guard: the count goes down. */
  function ReleaseStep(s: State, t: nat): State {
    if t !in s.guards then s
    else
      var g := s.guards[t];
      var gone := s.(guards := s.guards - {t});
      if g.counter.None? then gone.(emptied := s.emptied + multiset{g.worker})
      else if g.counter.value !in s.loads || s.loads[g.counter.value] == 0 then gone
      else
        var less := gone.(loads := s.loads[g.counter.value := s.loads[g.counter.value] - 1]);
        if s.loads[g.counter.value] == 1 then less.(emptied := s.emptied + multiset{g.worker}) else less
  }

  /** Whether `maybe_drain` closes the worker of a slot. */
  predicate Drains(s: State, id: nat) {
    WorkerAt(s.workers, id).Some? && Live(s.workers) > 1 && LoadOf(s.loads, s.workers[id].value) == 0
  }

  /** The second half: `maybe_drain`. */
  function DrainStep(s: State, id: nat): State {
    if id !in s.emptied then s
    else
      var t := s.(emptied := s.emptied - multiset{id});
      if Drains(s, id) then t.(workers := s.workers[id := None]) else t
  }

  function Step(s: State, e: Event): State {
    match e
    case Pick => PickStep(s).state
    case PickAvoiding(avoid) => AvoidStep(s, avoid).state
    case LookUp(id) => LookUpStep(s, id)
    case Attach(t) => AttachStep(s, t)
    case Release(t) => ReleaseStep(s, t)
    case Drain(id) => DrainStep(s, id)
  }

  function Run(s: State, h: seq<Event>): State
    decreases |h|
  {
    if h == [] then s else Step(Run(s, h[..|h| - 1]), h[|h| - 1])
  }

  /** `IsolatePool::new`: one worker, and at least one allowed. */
  function Start(workers: nat): State {
    Spawned(State([], if workers < 1 then 1 else workers, map[], map[], map[], multiset{}, 0, 0))
  }

  // ---- what every step keeps -------------------------------------------------------------------

  function Holders(guards: map<nat, Guard>, c: nat): set<nat> {
    set t | t in guards && guards[t].counter == Some(c)
  }

  /** Slot i holds a worker of id i, of a serial no other slot has. */
  ghost predicate SlotsOk(s: State) {
    (forall i :: 0 <= i < |s.workers| && s.workers[i].Some? ==>
       s.workers[i].value.id == i && s.workers[i].value.serial in s.loads) &&
    forall i, j :: 0 <= i < j < |s.workers| && s.workers[i].Some? && s.workers[j].Some? ==>
      s.workers[i].value.serial != s.workers[j].value.serial
  }

  /** Every counter counts the guards that hold it. */
  ghost predicate CountsOk(s: State) {
    (forall c :: c in s.loads ==> c < s.serial && s.loads[c] == |Holders(s.guards, c)|) &&
    (forall t :: t in s.guards ==> t < s.ticket && (s.guards[t].counter.Some? ==> s.guards[t].counter.value in s.loads)) &&
    forall t :: t in s.found ==> t < s.ticket && t !in s.guards &&
                                 (s.found[t].counter.Some? ==> s.found[t].counter.value in s.loads)
  }

  /** Between creation and shutdown there is a worker, and never more of them, or
      of their slots, than the pool may have. */
  ghost predicate SizeOk(s: State) {
    1 <= Live(s.workers) <= s.max && |s.workers| <= s.max
  }

  ghost predicate PoolInv(s: State) {
    SlotsOk(s) && CountsOk(s) && SizeOk(s)
  }

  lemma {:induction false} LiveBounds(ws: Workers, n: nat)
    requires n <= |ws|
    ensures LiveUpTo(ws, n) <= n
    ensures LiveUpTo(ws, n) == n <==> forall i :: 0 <= i < n ==> ws[i].Some?
  {
    if n > 0 {
      LiveBounds(ws, n - 1);
    }
  }

  lemma {:induction false} LiveSame(a: Workers, b: Workers, n: nat)
    requires n <= |a| && n <= |b| && forall i :: 0 <= i < n ==> a[i].Some? == b[i].Some?
    ensures LiveUpTo(a, n) == LiveUpTo(b, n)
  {
    if n > 0 {
      LiveSame(a, b, n - 1);
    }
  }

  lemma {:induction false} LiveChanged(a: Workers, b: Workers, i: nat, n: nat)
    requires i < n <= |a| && n <= |b| && a[i].None? && b[i].Some?
    requires forall j :: 0 <= j < n && j != i ==> a[j].Some? == b[j].Some?
    ensures LiveUpTo(b, n) == LiveUpTo(a, n) + 1
  {
    if i == n - 1 {
      LiveSame(a, b, n - 1);
    } else {
      LiveChanged(a, b, i, n - 1);
    }
  }

  lemma SpawnAddsOne(s: State)
    ensures Live(Spawned(s).workers) == Live(s.workers) + 1
  {
    var i, ws := FreeSlot(s.workers), s.workers;
    var w := Worker(i, s.serial);
    if i < |ws| {
      LiveChanged(ws, ws[i := Some(w)], i, |ws|);
    } else {
      LiveSame(ws, ws + [Some(w)], |ws|);
    }
  }

  lemma SpawnKeepsInv(s: State)
    requires SlotsOk(s) && CountsOk(s) && Live(s.workers) < s.max && |s.workers| <= s.max
    ensures PoolInv(Spawned(s))
  {
    var t := Spawned(s);
    SpawnAddsOne(s);
    LiveBounds(s.workers, |s.workers|);
    assert FreeSlot(s.workers) == |s.workers| ==> |s.workers| < s.max;
    assert Holders(s.guards, s.serial) == {};
    forall c | c in t.loads
      ensures t.loads[c] == |Holders(t.guards, c)|
    {
    }
  }

  lemma {:induction false} LeastIsLive(ws: Workers, loads: map<nat, nat>, avoid: seq<nat>, n: nat)
    requires n <= |ws| && forall i :: 0 <= i < |ws| && ws[i].Some? ==> ws[i].value.id == i
    ensures var b := LeastUpTo(ws, loads, avoid, n);
            (b.Some? ==> b.value.id < n && ws[b.value.id] == b && b.value.id !in avoid) &&
            (forall i :: 0 <= i < n && ws[i].Some? && i !in avoid ==>
               b.Some? && LoadOf(loads, b.value) <= LoadOf(loads, ws[i].value))
  {
    if n > 0 {
      LeastIsLive(ws, loads, avoid, n - 1);
    }
  }

  lemma PickKeepsInv(s: State)
    requires PoolInv(s)
    ensures PoolInv(PickStep(s).state)
  {
    LeastIsLive(s.workers, s.loads, [], |s.workers|);
    if PickStep(s).state != s {
      NoneLeft(s.workers, |s.workers|);
      SpawnKeepsInv(s);
    }
  }

  /** With no live worker to choose from, none is live. */
  lemma {:induction false} NoneLeft(ws: Workers, n: nat)
    requires n <= |ws|
    ensures (forall i :: 0 <= i < n ==> ws[i].None?) ==> LiveUpTo(ws, n) == 0
  {
    if n > 0 {
      NoneLeft(ws, n - 1);
    }
  }

  lemma AvoidKeepsInv(s: State, avoid: seq<nat>)
    requires PoolInv(s)
    ensures PoolInv(AvoidStep(s, avoid).state)
  {
    if AvoidStep(s, avoid).state != s {
      SpawnKeepsInv(s);
    }
  }

  lemma HoldersGrow(guards: map<nat, Guard>, t: nat, g: Guard, c: nat)
    requires t !in guards
    ensures |Holders(guards[t := g], c)| == |Holders(guards, c)| + if g.counter == Some(c) then 1 else 0
  {
    var h := Holders(guards[t := g], c);
    if g.counter == Some(c) {
      assert h == Holders(guards, c) + {t};
    } else {
      assert h == Holders(guards, c);
    }
  }

  lemma HoldersShrink(guards: map<nat, Guard>, t: nat, c: nat)
    requires t in guards
    ensures |Holders(guards - {t}, c)| == |Holders(guards, c)| - if guards[t].counter == Some(c) then 1 else 0
  {
    var h := Holders(guards - {t}, c);
    if guards[t].counter == Some(c) {
      assert Holders(guards, c) == h + {t};
    } else {
      assert Holders(guards, c) == h;
    }
  }

  lemma AttachKeepsInv(s: State, t: nat)
    requires PoolInv(s)
    ensures PoolInv(AttachStep(s, t))
  {
    if t in s.found {
      var u := AttachStep(s, t);
      forall c | c in u.loads
        ensures u.loads[c] == |Holders(u.guards, c)|
      {
        HoldersGrow(s.guards, t, s.found[t], c);
      }
    }
  }

  lemma ReleaseKeepsInv(s: State, t: nat)
    requires PoolInv(s)
    ensures PoolInv(ReleaseStep(s, t))
  {
    if t in s.guards {
      var u := ReleaseStep(s, t);
      forall c | c in u.loads
        ensures u.loads[c] == |Holders(u.guards, c)|
      {
        HoldersShrink(s.guards, t, c);
        if s.guards[t].counter == Some(c) {
          assert t in Holders(s.guards, c);
        }
      }
    }
  }

  lemma DrainKeepsInv(s: State, id: nat)
    requires PoolInv(s)
    ensures PoolInv(DrainStep(s, id))
  {
    if id in s.emptied && Drains(s, id) {
      LiveChanged(s.workers[id := None], s.workers, id, |s.workers|);
    }
  }

  lemma StepKeepsInv(s: State, e: Event)
    requires PoolInv(s)
    ensures PoolInv(Step(s, e))
  {
    match e {
      case Pick => PickKeepsInv(s);
      case PickAvoiding(avoid) => AvoidKeepsInv(s, avoid);
      case LookUp(id) =>
      case Attach(t) => AttachKeepsInv(s, t);
      case Release(t) => ReleaseKeepsInv(s, t);
      case Drain(id) => DrainKeepsInv(s, id);
    }
  }

  lemma StartInv(workers: nat)
    ensures PoolInv(Start(workers))
  {
    SpawnKeepsInv(State([], if workers < 1 then 1 else workers, map[], map[], map[], multiset{}, 0, 0));
  }

  /** In every state of every run, however the halves of registrations and drops
      fall among other steps: one to `max` workers, slot i holding worker i, and
      every counter exactly the number of guards on it. */
  lemma {:induction false} PoolStaysSafe(workers: nat, h: seq<Event>)
    ensures PoolInv(Run(Start(workers), h))
    decreases |h|
  {
    if h == [] {
      StartInv(workers);
    } else {
      PoolStaysSafe(workers, h[..|h| - 1]);
      StepKeepsInv(Run(Start(workers), h[..|h| - 1]), h[|h| - 1]);
    }
  }

  // ---- what is drained, what is picked ----------------------------------------------------------

  /** A worker that is closed has no guard on its counter. */
  lemma DrainedIsIdle(s: State, id: nat)
    requires PoolInv(s) && Drains(s, id)
    ensures Holders(s.guards, s.workers[id].value.serial) == {}
  {
  }

  /** A pick names a live worker: an idle one whenever there is one, a new one
      while the pool may grow, and otherwise one of the least loaded. */
  lemma PickIsLeastLoaded(s: State)
    requires PoolInv(s)
    ensures var p := PickStep(s);
            var w := WorkerAt(p.state.workers, p.id);
            w.Some? && w.value.id == p.id &&
            (forall i :: 0 <= i < |s.workers| && s.workers[i].Some? ==>
               LoadOf(p.state.loads, w.value) <= LoadOf(s.loads, s.workers[i].value)) &&
            (LoadOf(p.state.loads, w.value) > 0 ==> Live(s.workers) == s.max)
  {
    LeastIsLive(s.workers, s.loads, [], |s.workers|);
  }

  /** The live worker outside the list with the least load, of several the first. */
  ghost predicate IsLeast(s: State, avoid: seq<nat>, i: nat) {
    i < |s.workers| && s.workers[i].Some? && i !in avoid &&
    forall j :: 0 <= j < |s.workers| && s.workers[j].Some? && j !in avoid ==>
      LoadOf(s.loads, s.workers[i].value) <= LoadOf(s.loads, s.workers[j].value) &&
      (j < i ==> LoadOf(s.loads, s.workers[i].value) < LoadOf(s.loads, s.workers[j].value))
  }

  lemma {:induction false} LeastIsFirst(ws: Workers, loads: map<nat, nat>, avoid: seq<nat>, n: nat)
    requires n <= |ws| && forall i :: 0 <= i < |ws| && ws[i].Some? ==> ws[i].value.id == i
    ensures var b := LeastUpTo(ws, loads, avoid, n);
            b.Some? ==> b.value.id < n && forall j :: 0 <= j < b.value.id && ws[j].Some? && j !in avoid ==>
              LoadOf(loads, b.value) < LoadOf(loads, ws[j].value)
  {
    hide LoadOf;
    if n > 0 {
      LeastIsFirst(ws, loads, avoid, n - 1);
      LeastIsLive(ws, loads, avoid, n - 1);
      LeastIsLive(ws, loads, avoid, n);
    }
  }

  lemma LeastExactly(s: State, avoid: seq<nat>, i: nat)
    requires SlotsOk(s)
    ensures Least(s, avoid).Some? && Least(s, avoid).value.id == i <==> IsLeast(s, avoid, i)
    ensures IsLeast(s, avoid, i) ==> WorkerAt(s.workers, i) == Least(s, avoid)
  {
    hide LoadOf;
    LeastIsLive(s.workers, s.loads, avoid, |s.workers|);
    LeastIsFirst(s.workers, s.loads, avoid, |s.workers|);
  }

  /** What a pick does: it takes the first least loaded worker when that one is idle
      or the pool is full, and spawns one in any other case. */
  lemma PickExactly(s: State)
    requires PoolInv(s)
    ensures var p := PickStep(s);
            exists i: nat :: IsLeast(s, [], i) &&
                             p == if LoadOf(s.loads, s.workers[i].value) == 0 || Live(s.workers) == s.max then Picked(s, i)
                                  else Picked(Spawned(s), FreeSlot(s.workers))
  {
    hide LoadOf, Least, Spawned, IsLeast;
    SomeLeast(s);
    LeastExactly(s, [], Least(s, []).value.id);
  }

  lemma SomeLeast(s: State)
    requires PoolInv(s)
    ensures Least(s, []).Some?
  {
    LeastIsLive(s.workers, s.loads, [], |s.workers|);
    NoneLeft(s.workers, |s.workers|);
  }

  /** What a pick that avoids some ids does: the first least loaded of the others when
      it is idle; else a new worker while there is room; else the first least loaded of
      all. */
  lemma AvoidExactly(s: State, avoid: seq<nat>)
    requires PoolInv(s)
    ensures var p := AvoidStep(s, avoid);
            (forall i: nat :: IdleLeast(s, avoid, i) ==> p == Picked(s, i)) &&
            ((forall i: nat :: !IdleLeast(s, avoid, i)) ==>
               if Live(s.workers) < s.max then p == Picked(Spawned(s), FreeSlot(s.workers))
               else exists i: nat :: IsLeast(s, [], i) && p == Picked(s, i))
  {
    hide LoadOf, Spawned, IsLeast, Least, Live;
    SomeLeast(s);
    LeastExactly(s, [], Least(s, []).value.id);
    forall i: nat
      ensures Least(s, avoid).Some? && Least(s, avoid).value.id == i <==> IsLeast(s, avoid, i)
      ensures IsLeast(s, avoid, i) ==> WorkerAt(s.workers, i) == Least(s, avoid)
    {
      LeastExactly(s, avoid, i);
    }
    assert IsLeast(s, [], Least(s, []).value.id);
    if Least(s, avoid).Some? {
      var i := Least(s, avoid).value.id;
      assert IsLeast(s, avoid, i);
      if LoadOf(s.loads, Least(s, avoid).value) == 0 {
        assert IdleLeast(s, avoid, i);
      }
    }
  }

  ghost predicate IdleLeast(s: State, avoid: seq<nat>, i: nat) {
    IsLeast(s, avoid, i) && LoadOf(s.loads, s.workers[i].value) == 0
  }

  /** `maybe_drain` closes a worker exactly when no guard counts on it and another one
      lives. */
  lemma DrainExactly(s: State, id: nat)
    requires PoolInv(s) && id in s.emptied
    ensures var w, t := WorkerAt(s.workers, id), DrainStep(s, id);
            t.workers != s.workers <==>
            w.Some? && Holders(s.guards, w.value.serial) == {} &&
            exists j :: 0 <= j < |s.workers| && j != id && s.workers[j].Some?
    ensures var t := DrainStep(s, id);
            t == s.(workers := t.workers, emptied := s.emptied - multiset{id}) &&
            (t.workers != s.workers ==> t.workers == s.workers[id := None])
  {
    hide PoolInv, CountsOk;
    var w := WorkerAt(s.workers, id);
    if w.Some? {
      LoadIsHolders(s, id);
      OthersLive(s.workers, id);
    }
  }

  lemma LoadIsHolders(s: State, id: nat)
    requires PoolInv(s) && WorkerAt(s.workers, id).Some?
    ensures LoadOf(s.loads, s.workers[id].value) == 0 <==> Holders(s.guards, s.workers[id].value.serial) == {}
  {
  }

  lemma OthersLive(ws: Workers, id: nat)
    requires id < |ws| && ws[id].Some?
    ensures Live(ws) > 1 <==> exists j :: 0 <= j < |ws| && j != id && ws[j].Some?
  {
    var rest := ws[id := None];
    LiveChanged(rest, ws, id, |ws|);
    NoneLeft(rest, |ws|);
    if j :| 0 <= j < |ws| && j != id && ws[j].Some? {
      assert rest[j].Some?;
      SomeLive(rest, j, |ws|);
    } else {
      assert forall i :: 0 <= i < |ws| ==> rest[i].None?;
    }
  }

  lemma {:induction false} SomeLive(ws: Workers, j: nat, n: nat)
    requires j < n <= |ws| && ws[j].Some?
    ensures LiveUpTo(ws, n) > 0
  {
    if j < n - 1 {
      SomeLive(ws, j, n - 1);
    }
  }

  /** No live worker outside the list is idle. */
  predicate OthersBusy(s: State, avoid: seq<nat>) {
    forall i :: 0 <= i < |s.workers| && s.workers[i].Some? && i !in avoid ==> LoadOf(s.loads, s.workers[i].value) > 0
  }

  /** A pick that avoids some ids returns one of them exactly when every worker it
      may choose is busy and either the slot a new worker would get has such an id,
      or the pool is full and the first of its least loaded workers has. */
  lemma AvoidIsKept(s: State, avoid: seq<nat>)
    requires PoolInv(s)
    ensures var p := AvoidStep(s, avoid);
            WorkerAt(p.state.workers, p.id).Some? && Least(s, []).Some? &&
            (p.id in avoid <==>
             OthersBusy(s, avoid) &&
             if Live(s.workers) < s.max then FreeSlot(s.workers) in avoid else Least(s, []).value.id in avoid)
  {
    LeastIsLive(s.workers, s.loads, avoid, |s.workers|);
    LeastIsLive(s.workers, s.loads, [], |s.workers|);
    NoneLeft(s.workers, |s.workers|);
  }

  /** In a full pool that happens although another worker could be had. */
  lemma FullPoolFallsBack() returns (h: seq<Event>)
    ensures var s := Run(Start(2), h);
            AvoidStep(s, [0]) == Picked(s, 0) && Live(s.workers) == s.max && WorkerAt(s.workers, 1).Some?
  {
    hide Step, Run, AvoidStep, Live;
    TwoBusy();
    h := [LookUp(0), Attach(0), Pick, LookUp(1), Attach(1), LookUp(1), Attach(2)];
    RunOfSeven(Start(2), h);
    FullPick(Run(Start(2), h));
  }

  /** And a new worker gets the id to avoid when that worker was drained. */
  lemma DrainedSlotReused() returns (h: seq<Event>)
    ensures var s := Run(Start(2), h);
            AvoidStep(s, [1]) == Picked(Spawned(s), 1) && Live(s.workers) < s.max
  {
    hide Step, Run, AvoidStep, Live, Spawned;
    OneDrained();
    h := [LookUp(0), Attach(0), Pick, LookUp(1), Attach(1), Release(1), Drain(1)];
    RunOfSeven(Start(2), h);
    ReusePick(Run(Start(2), h));
  }

  // ---- pinned ids ------------------------------------------------------------------------------

  /** The id a guard was pinned to names the worker whose counter it holds. */
  ghost predicate Pinned(s: State, g: Guard) {
    g.counter.Some? && WorkerAt(s.workers, g.worker) == Some(Worker(g.worker, g.counter.value))
  }

  /** The step closes the worker with this id. */
  predicate Closes(s: State, e: Event, id: nat) {
    e == Drain(id) && id in s.emptied && Drains(s, id)
  }

  /** Since the registration with this ticket found its worker, and while it has
      not counted yet, a drain closed the worker with its id. */
  ghost predicate DrainedSince(s: State, h: seq<Event>, t: nat)
    decreases |h|
  {
    h != [] &&
    var front, last := h[..|h| - 1], h[|h| - 1];
    var u := Run(s, front);
    t in u.found && (DrainedSince(s, front, t) || Closes(u, last, u.found[t].worker))
  }

  /** A worker of the guard's id was closed between its lookup and its count. */
  ghost predicate Lost(s: State, h: seq<Event>, t: nat)
    decreases |h|
  {
    h != [] &&
    var front, last := h[..|h| - 1], h[|h| - 1];
    Lost(s, front, t) || (last == Attach(t) && DrainedSince(s, front, t) && t in Run(s, front).found)
  }

  /** No step but a drain takes a pin away, and none gives one back. */
  lemma StepKeepsPins(s: State, e: Event, t: nat)
    requires PoolInv(s) && t in s.guards && t in Step(s, e).guards
    ensures Step(s, e).guards[t] == s.guards[t]
    ensures Pinned(Step(s, e), s.guards[t]) <==> Pinned(s, s.guards[t])
  {
    var g := s.guards[t];
    if g.counter.Some? {
      assert g.counter.value in s.loads;
      if e.Drain? {
        DrainKeepsPin(s, e.worker, t);
      }
    }
  }

  lemma DrainKeepsPin(s: State, id: nat, t: nat)
    requires PoolInv(s) && t in s.guards
    ensures Pinned(DrainStep(s, id), s.guards[t]) <==> Pinned(s, s.guards[t])
  {
    if Drains(s, id) {
      DrainedIsIdle(s, id);
      assert t !in Holders(s.guards, s.workers[id].value.serial);
    }
  }

  lemma NewGuards(s: State, e: Event, t: nat)
    requires PoolInv(s) && t in Step(s, e).guards && t !in s.guards
    ensures e == Attach(t) && t in s.found && Step(s, e).guards[t] == s.found[t] && Step(s, e).workers == s.workers
  {
  }

  lemma TicketsStay(s: State, e: Event, t: nat)
    requires t < s.ticket && t !in s.found
    ensures t < Step(s, e).ticket && t !in Step(s, e).found
  {
  }

  lemma AttachedIsFound(s: State, t: nat)
    requires PoolInv(s) && t in s.found
    ensures t < Step(s, Attach(t)).ticket && t !in Step(s, Attach(t)).found
  {
  }

  /** A registration that waits keeps its ticket's guard, and loses its worker to
      the drain that closes it, or never. */
  lemma StepKeepsFound(s: State, e: Event, t: nat)
    requires PoolInv(s) && t in s.found && s.found[t].counter.Some? && t in Step(s, e).found
    ensures Step(s, e).found[t] == s.found[t]
    ensures Pinned(Step(s, e), s.found[t]) <==> Pinned(s, s.found[t]) && !Closes(s, e, s.found[t].worker)
  {
    var g := s.found[t];
    assert g.counter.value in s.loads;
  }

  lemma NewFound(s: State, e: Event, t: nat)
    requires PoolInv(s) && t !in s.found && t in Step(s, e).found
    ensures var g := Step(s, e).found[t]; g.counter.Some? ==> Pinned(Step(s, e), g)
    ensures e.LookUp? && t == s.ticket
  {
  }

  /** The worker a waiting registration found is still there exactly when no drain
      has closed it since. */
  lemma {:induction false} WaitingHolds(workers: nat, h: seq<Event>, t: nat)
    requires var s := Run(Start(workers), h); t in s.found && s.found[t].counter.Some?
    ensures var s := Run(Start(workers), h); Pinned(s, s.found[t]) <==> !DrainedSince(Start(workers), h, t)
    decreases |h|
  {
    hide Step, PoolInv, Pinned, Closes;
    if h != [] {
      var front, last := h[..|h| - 1], h[|h| - 1];
      var s := Run(Start(workers), front);
      PoolStaysSafe(workers, front);
      if t in s.found {
        KeptCounter(s, last, t);
        WaitingHolds(workers, front, t);
        StepKeepsFound(s, last, t);
      } else {
        NewFound(s, last, t);
      }
    }
  }

  lemma KeptCounter(s: State, e: Event, t: nat)
    requires PoolInv(s) && t in s.found && t in Step(s, e).found
    ensures Step(s, e).found[t] == s.found[t]
  {
  }

  /** Tickets are given once, so a guard that was lost is no other guard. */
  lemma {:induction false} LostTickets(workers: nat, h: seq<Event>, t: nat)
    requires Lost(Start(workers), h, t)
    ensures t < Run(Start(workers), h).ticket && t !in Run(Start(workers), h).found
    decreases |h|
  {
    hide Step, PoolInv, Pinned, DrainedSince;
    var front, last := h[..|h| - 1], h[|h| - 1];
    if Lost(Start(workers), front, t) {
      LostTickets(workers, front, t);
      TicketsStay(Run(Start(workers), front), last, t);
    } else {
      PoolStaysSafe(workers, front);
      AttachedIsFound(Run(Start(workers), front), t);
    }
  }

  /** In every reachable state a guard's id names the worker it counts on exactly
      when no drain closed a worker of that id between the guard's lookup and its
      count. */
  lemma {:induction false} PinsHold(workers: nat, h: seq<Event>, t: nat)
    requires var s := Run(Start(workers), h); t in s.guards && s.guards[t].counter.Some?
    ensures var s := Run(Start(workers), h); Pinned(s, s.guards[t]) <==> !Lost(Start(workers), h, t)
    decreases |h|
  {
    hide Step, PoolInv, Pinned, DrainedSince;
    if h != [] {
      var front, last := h[..|h| - 1], h[|h| - 1];
      var s := Run(Start(workers), front);
      PoolStaysSafe(workers, front);
      if Lost(Start(workers), front, t) {
        LostTickets(workers, front, t);
      }
      if t in s.guards {
        StepKeepsPins(s, last, t);
        PinsHold(workers, front, t);
        GuardIsNotFound(s, t);
      } else {
        NewGuards(s, last, t);
        SameSlots(s, Step(s, last), s.found[t]);
        WaitingHolds(workers, front, t);
      }
    }
  }

  lemma GuardIsNotFound(s: State, t: nat)
    requires PoolInv(s) && t in s.guards
    ensures t !in s.found
  {
  }

  lemma SameSlots(s: State, u: State, g: Guard)
    requires s.workers == u.workers
    ensures Pinned(s, g) <==> Pinned(u, g)
  {
  }

  /** Registration as one step: what is found is counted next. */
  ghost predicate OneStep(s: State, h: seq<Event>) {
    forall i :: 0 <= i < |h| && h[i].Attach? && h[i].ticket in Run(s, h[..i]).found ==>
      i > 0 && h[i - 1].LookUp? && h[i].ticket == Run(s, h[..i - 1]).ticket
  }

  lemma {:induction false} NothingLost(workers: nat, h: seq<Event>, t: nat)
    requires OneStep(Start(workers), h)
    ensures !Lost(Start(workers), h, t)
    decreases |h|
  {
    hide Step, PoolInv, Pinned;
    if h != [] {
      var front, last := h[..|h| - 1], h[|h| - 1];
      FrontOneStep(Start(workers), h);
      NothingLost(workers, front, t);
      if last == Attach(t) && t in Run(Start(workers), front).found {
        assert h[..|h| - 1] == front && h[..|h| - 2] == front[..|front| - 1];
        JustFound(workers, front, t);
      }
    }
  }

  lemma FrontOneStep(s: State, h: seq<Event>)
    requires h != [] && OneStep(s, h)
    ensures OneStep(s, h[..|h| - 1])
  {
    var f := h[..|h| - 1];
    forall i | 0 <= i < |f| && f[i].Attach? && f[i].ticket in Run(s, f[..i]).found
      ensures i > 0 && f[i - 1].LookUp? && f[i].ticket == Run(s, f[..i - 1]).ticket
    {
      assert f[..i] == h[..i];
      assert i > 0 ==> f[..i - 1] == h[..i - 1];
    }
  }

  /** Nothing has closed a worker that was found in the last step. */
  lemma JustFound(workers: nat, front: seq<Event>, t: nat)
    requires front != [] && front[|front| - 1].LookUp? && t == Run(Start(workers), front[..|front| - 1]).ticket
    ensures !DrainedSince(Start(workers), front, t)
  {
    PoolStaysSafe(workers, front[..|front| - 1]);
  }

  /** With registration in one step, a pinned id names the same worker for as long
      as its guard lives: it is never drained, and its slot never reused. */
  lemma PinnedIdsHold(workers: nat, h: seq<Event>, t: nat)
    requires OneStep(Start(workers), h) && t in Run(Start(workers), h).guards
    requires Run(Start(workers), h).guards[t].counter.Some?
    ensures var s := Run(Start(workers), h); Pinned(s, s.guards[t])
  {
    NothingLost(workers, h, t);
    PinsHold(workers, h, t);
  }

  /** Without it, a registration can count on a worker that is drained under it,
      and its id can come to name another one. */
  lemma RaceLosesPin() returns (h: seq<Event>)
    ensures var s := Run(Start(2), h);
            1 in s.guards && s.guards[1] == Guard(1, Some(1)) && WorkerAt(s.workers, 1) == Some(Worker(1, 2))
  {
    hide Step, Run;
    RaceBegins();
    RaceFinds();
    RaceDrains();
    RaceEnds();
    h := [LookUp(0), Attach(0), Pick, LookUp(1), LookUp(1), Attach(2), Release(2), Drain(1), Attach(1), Pick];
    RunOfTen(Start(2), h);
  }

  const FIRST := Some(Worker(0, 0))
  const HELD := Guard(0, Some(0))
  const PIN := Guard(1, Some(1))

  lemma RaceBegins()
    ensures Step(Step(Start(2), LookUp(0)), Attach(0)) ==
            State([FIRST], 2, map[0 := 1], map[0 := HELD], map[], multiset{}, 1, 1)
  {
    assert Start(2) == State([FIRST], 2, map[0 := 0], map[], map[], multiset{}, 0 + 1, 0);
  }

  lemma RaceFinds()
    ensures var s := State([FIRST], 2, map[0 := 1], map[0 := HELD], map[], multiset{}, 1, 1);
            Step(Step(Step(s, Pick), LookUp(1)), LookUp(1)) ==
            State([FIRST, Some(Worker(1, 1))], 2, map[0 := 1, 1 := 0], map[0 := HELD], map[1 := PIN, 2 := PIN],
                  multiset{}, 2, 3)
  {
    BusySpawns(State([FIRST], 2, map[0 := 1], map[0 := HELD], map[], multiset{}, 1, 1));
  }

  lemma RaceDrains()
    ensures var s := State([FIRST, Some(Worker(1, 1))], 2, map[0 := 1, 1 := 0], map[0 := HELD], map[1 := PIN, 2 := PIN],
                           multiset{}, 2, 3);
            Step(Step(Step(s, Attach(2)), Release(2)), Drain(1)) ==
            State([FIRST, None], 2, map[0 := 1, 1 := 0], map[0 := HELD], map[1 := PIN], multiset{}, 2, 3)
  {
    var ws := [FIRST, Some(Worker(1, 1))];
    var s := State(ws, 2, map[0 := 1, 1 := 0], map[0 := HELD], map[1 := PIN, 2 := PIN], multiset{}, 2, 3);
    var t := State(ws, 2, map[0 := 1, 1 := 1], map[0 := HELD, 2 := PIN], map[1 := PIN], multiset{}, 2, 3);
    var u := State(ws, 2, map[0 := 1, 1 := 0], map[0 := HELD], map[1 := PIN], multiset{1}, 2, 3);
    assert Step(s, Attach(2)) == t;
    assert Step(t, Release(2)) == u;
    assert LiveUpTo(ws, 1) == 1;
    assert ws[1 := None] == [FIRST, None];
  }

  lemma RaceEnds()
    ensures var s := State([FIRST, None], 2, map[0 := 1, 1 := 0], map[0 := HELD], map[1 := PIN], multiset{}, 2, 3);
            var e := Step(Step(s, Attach(1)), Pick);
            1 in e.guards && e.guards[1] == PIN && e.workers == [FIRST, Some(Worker(1, 2))]
  {
    var s := State([FIRST, None], 2, map[0 := 1, 1 := 0], map[0 := HELD], map[1 := PIN], multiset{}, 2, 3);
    BusySpawns(Step(s, Attach(1)));
  }

  lemma BusySpawns(s: State)
    requires s.max == 2 && 0 in s.loads && s.loads[0] == 1
    requires s.workers == [FIRST] || s.workers == [FIRST, None]
    ensures Step(s, Pick) == Spawned(s) && Spawned(s).workers == [FIRST, Some(Worker(1, s.serial))]
  {
    assert LeastUpTo(s.workers, s.loads, [], 1) == FIRST;
    assert Least(s, []) == FIRST;
    assert LiveUpTo(s.workers, 1) == 1;
    assert Live(s.workers) == 1;
    assert s.workers[1..] == [] || s.workers[1..] == [None];
  }

  /** The first worker with one guard, a second one with two. */
  lemma TwoBusy()
    ensures Step(Step(Step(Step(Step(Step(Step(Start(2), LookUp(0)), Attach(0)), Pick), LookUp(1)), Attach(1)), LookUp(1)),
                 Attach(2)) ==
            State([FIRST, Some(Worker(1, 1))], 2, map[0 := 1, 1 := 2], map[0 := HELD, 1 := PIN, 2 := PIN], map[],
                  multiset{}, 2, 3)
  {
    hide PickStep, Spawned;
    RaceBegins();
    Second();
    var ws := [FIRST, Some(Worker(1, 1))];
    var s := State(ws, 2, map[0 := 1, 1 := 0], map[0 := HELD], map[], multiset{}, 2, 1);
    var t := State(ws, 2, map[0 := 1, 1 := 1], map[0 := HELD, 1 := PIN], map[], multiset{}, 2, 2);
    assert Step(Step(s, LookUp(1)), Attach(1)) == t;
  }

  lemma Second()
    ensures Step(State([FIRST], 2, map[0 := 1], map[0 := HELD], map[], multiset{}, 1, 1), Pick) ==
            State([FIRST, Some(Worker(1, 1))], 2, map[0 := 1, 1 := 0], map[0 := HELD], map[], multiset{}, 2, 1)
  {
    BusySpawns(State([FIRST], 2, map[0 := 1], map[0 := HELD], map[], multiset{}, 1, 1));
  }

  /** The second worker got its guard, lost it and was closed. */
  lemma OneDrained()
    ensures Step(Step(Step(Step(Step(Step(Step(Start(2), LookUp(0)), Attach(0)), Pick), LookUp(1)), Attach(1)), Release(1)),
                 Drain(1)) ==
            State([FIRST, None], 2, map[0 := 1, 1 := 0], map[0 := HELD], map[], multiset{}, 2, 2)
  {
    hide PickStep, Spawned;
    RaceBegins();
    Second();
    var ws := [FIRST, Some(Worker(1, 1))];
    var s := State(ws, 2, map[0 := 1, 1 := 0], map[0 := HELD], map[], multiset{}, 2, 1);
    var t := State(ws, 2, map[0 := 1, 1 := 1], map[0 := HELD, 1 := PIN], map[], multiset{}, 2, 2);
    var u := State(ws, 2, map[0 := 1, 1 := 0], map[0 := HELD], map[], multiset{1}, 2, 2);
    assert Step(Step(s, LookUp(1)), Attach(1)) == t;
    assert Step(t, Release(1)) == u;
    assert LiveUpTo(ws, 1) == 1;
    assert ws[1 := None] == [FIRST, None];
  }

  lemma FullPick(s: State)
    requires s.max == 2 && s.workers == [FIRST, Some(Worker(1, 1))] && s.loads == map[0 := 1, 1 := 2]
    ensures AvoidStep(s, [0]) == Picked(s, 0) && Live(s.workers) == 2
  {
    assert LeastUpTo(s.workers, s.loads, [0], 1) == None;
    assert LeastUpTo(s.workers, s.loads, [], 1) == FIRST;
    assert LiveUpTo(s.workers, 1) == 1;
  }

  lemma ReusePick(s: State)
    requires s.max == 2 && s.workers == [FIRST, None] && s.loads == map[0 := 1, 1 := 0]
    ensures AvoidStep(s, [1]) == Picked(Spawned(s), 1) && Live(s.workers) == 1
  {
    assert LeastUpTo(s.workers, s.loads, [1], 1) == FIRST;
    assert LiveUpTo(s.workers, 1) == 1;
    assert s.workers[1..] == [None];
  }

  lemma RunOfSeven(s: State, h: seq<Event>)
    requires |h| == 7
    ensures Run(s, h) == Step(Step(Step(Step(Step(Step(Step(s, h[0]), h[1]), h[2]), h[3]), h[4]), h[5]), h[6])
  {
    hide Step;
    RunNext(s, h, 6);
    RunNext(s, h, 5);
    RunNext(s, h, 4);
    RunNext(s, h, 3);
    RunNext(s, h, 2);
    RunNext(s, h, 1);
    RunNext(s, h, 0);
    assert h[..7] == h;
  }

  lemma RunOfTen(s: State, h: seq<Event>)
    requires |h| == 10
    ensures Run(s, h) == Step(Step(Step(Step(Step(Step(Step(Step(Step(Step(s, h[0]), h[1]), h[2]), h[3]), h[4]), h[5]),
                                                  h[6]), h[7]), h[8]), h[9])
  {
    hide Step;
    RunNext(s, h, 9);
    RunNext(s, h, 8);
    RunNext(s, h, 7);
    RunNext(s, h, 6);
    RunNext(s, h, 5);
    RunNext(s, h, 4);
    RunNext(s, h, 3);
    RunNext(s, h, 2);
    RunNext(s, h, 1);
    RunNext(s, h, 0);
    assert h[..10] == h;
  }

  lemma RunNext(s: State, h: seq<Event>, n: nat)
    requires n < |h|
    ensures Run(s, h[..n + 1]) == Step(Run(s, h[..n]), h[n])
  {
    assert h[..n + 1][..n] == h[..n];
  }
}
