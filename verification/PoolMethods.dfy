/** The pool as it is updated in place: the slot vector, the load counters, the
    guards, every method one step of the transition system. */
module PoolMethods {
  import opened Options
  import opened Pools

  class IsolatePool {
    var workers: Workers
    var max: nat
    var loads: map<nat, nat>
    var guards: map<nat, Guard>
    var found: map<nat, Guard>
    var emptied: multiset<nat>
    var serial: nat
    var ticket: nat
    /** How many workers were asked for, and every step since. */
    ghost var asked: nat
    ghost var history: seq<Event>

    ghost function State(): State
      reads this
    {
      Pools.State(workers, max, loads, guards, found, emptied, serial, ticket)
    }

    /** The object is where its history of steps leads, so `PoolStaysSafe` and
        `PinsHold` speak of it. */
    ghost predicate Valid()
      reads this
    {
      State() == Run(Start(asked), history)
    }

    constructor (requested: nat)
      ensures Valid() && history == [] && asked == requested
    {
      workers, max, loads, guards, found, emptied := [], if requested < 1 then 1 else requested, map[], map[], map[], multiset{};
      serial, ticket, asked, history := 0, 0, requested, [];
      new;
      var id := SpawnWorker();
    }

    /** Into a drained slot, or at the end. */
    method SpawnWorker() returns (id: nat)
      modifies this
      ensures State() == Spawned(old(State())) && id == FreeSlot(old(workers))
      ensures history == old(history) && asked == old(asked)
    {
      id := 0;
      while id < |workers| && workers[id].Some?
        invariant id <= |workers| && forall j :: 0 <= j < id ==> workers[j].Some?
      {
        id := id + 1;
      }
      FirstFree(workers, id);
      var worker := Worker(id, serial);
      if id < |workers| {
        workers := workers[id := Some(worker)];
      } else {
        workers := workers + [Some(worker)];
      }
      loads := loads[serial := 0];
      serial := serial + 1;
    }

    /** `min_by_key` over the live workers that are not avoided. */
    method LeastLoaded(avoid: seq<nat>) returns (best: Option<Worker>)
      ensures best == Least(State(), avoid)
    {
      best := None;
      for i := 0 to |workers|
        invariant best == LeastUpTo(workers, loads, avoid, i)
      {
        var w := workers[i];
        if w.Some? && w.value.id !in avoid &&
           (best.None? || LoadOf(loads, w.value) < LoadOf(loads, best.value)) {
          best := w;
        }
      }
    }

    method CountLive() returns (n: nat)
      ensures n == Live(workers)
    {
      n := 0;
      for i := 0 to |workers|
        invariant n == LiveUpTo(workers, i)
      {
        if workers[i].Some? {
          n := n + 1;
        }
      }
    }

    method PickWorker() returns (id: nat)
      requires Valid()
      modifies this
      ensures Valid() && history == old(history) + [Pick]
      ensures Picked(State(), id) == PickStep(old(State()))
    {
      hide Run, Start, PoolInv;
      NextStep(Start(asked), history, Pick);
      history := history + [Pick];
      var best := LeastLoaded([]);
      if best.None? {
        id := SpawnWorker();
      } else if LoadOf(loads, best.value) == 0 {
        id := best.value.id;
      } else {
        var live := CountLive();
        if live < max {
          id := SpawnWorker();
        } else {
          id := best.value.id;
        }
      }
    }

    method PickWorkerAvoiding(avoid: seq<nat>) returns (id: nat)
      requires Valid()
      modifies this
      ensures Valid() && history == old(history) + [PickAvoiding(avoid)]
      ensures Picked(State(), id) == AvoidStep(old(State()), avoid)
    {
      hide Run, Start, PoolInv;
      NextStep(Start(asked), history, PickAvoiding(avoid));
      history := history + [PickAvoiding(avoid)];
      var candidate := LeastLoaded(avoid);
      if candidate.Some? && LoadOf(loads, candidate.value) == 0 {
        return candidate.value.id;
      }
      var live := CountLive();
      if live < max {
        id := SpawnWorker();
      } else {
        var best := LeastLoaded([]);
        id := if best.Some? then best.value.id else 0;
      }
    }

    /** The lookup of `register_context`, under the lock. */
    method FindWorker(id: nat) returns (t: nat)
      requires Valid()
      modifies this
      ensures Valid() && history == old(history) + [LookUp(id)]
      ensures State() == LookUpStep(old(State()), id) && t == old(ticket)
    {
      hide Run, Start, PoolInv;
      NextStep(Start(asked), history, LookUp(id));
      history := history + [LookUp(id)];
      t := ticket;
      found := found[t := Guard(id, if id < |workers| && workers[id].Some? then Some(workers[id].value.serial) else None)];
      ticket := ticket + 1;
    }

    /** The count of `register_context`, without it. */
    method CountContext(t: nat)
      requires Valid()
      modifies this
      ensures Valid() && history == old(history) + [Attach(t)]
      ensures State() == AttachStep(old(State()), t)
    {
      hide Run, Start, PoolInv;
      NextStep(Start(asked), history, Attach(t));
      history := history + [Attach(t)];
      if t in found {
        var g := found[t];
        found, guards := found - {t}, guards[t := g];
        if g.counter.Some? && g.counter.value in loads {
          loads := loads[g.counter.value := loads[g.counter.value] + 1];
        }
      }
    }

    /** `register_context` with nothing in between. */
    method RegisterContext(id: nat) returns (t: nat)
      requires Valid()
      modifies this
      ensures Valid() && history == old(history) + [LookUp(id), Attach(t)]
      ensures State() == AttachStep(LookUpStep(old(State()), id), t) && t in guards && guards[t].worker == id
    {
      t := FindWorker(id);
      CountContext(t);
    }

    /** Dropping a guard: the count, and then the slot if it was the last. */
    method ReleaseContext(t: nat) returns (last: bool)
      requires Valid()
      modifies this
      ensures Valid() && history == old(history) + [Release(t)]
      ensures State() == ReleaseStep(old(State()), t)
      ensures last <==> t in old(guards) && IsLast(old(State()), t)
    {
      hide Run, Start, PoolInv, ReleaseStep, Step;
      NextStep(Start(asked), history, Release(t));
      PoolStaysSafe(asked, history);
      ghost var s := State();
      ReleaseParts(s, t);
      history := history + [Release(t)];
      if t !in guards {
        return false;
      }
      var g := guards[t];
      guards := guards - {t};
      last := g.counter.None?;
      if !last {
        var prev := loads[g.counter.value];
        loads := loads[g.counter.value := prev - 1];
        last := prev == 1;
      }
      if last {
        emptied := emptied + multiset{g.worker};
      }
    }

    method MaybeDrain(id: nat)
      requires Valid() && id in emptied
      modifies this
      ensures Valid() && history == old(history) + [Drain(id)]
      ensures State() == DrainStep(old(State()), id)
    {
      hide Run, Start, PoolInv, DrainStep, Drains, Live;
      NextStep(Start(asked), history, Drain(id));
      DrainParts(State(), id);
      history := history + [Drain(id)];
      emptied := emptied - multiset{id};
      var live := CountLive();
      if id < |workers| && workers[id].Some? && live > 1 && LoadOf(loads, workers[id].value) == 0 {
        workers := workers[id := None];
      }
    }

    /** A guard pinned to an id, on a worker's counter. */
    ghost predicate Counting(t: nat, id: nat)
      reads this
    {
      t in guards && guards[t].worker == id && guards[t].counter.Some?
    }

    /** `dispatch`: the worker a job goes to, none for a drained id. A context's job
        reaches the worker its guard counts on, unless the pin was lost. */
    method Dispatch(id: nat) returns (reached: Option<nat>)
      requires Valid()
      ensures reached == if WorkerAt(workers, id).Some? then Some(workers[id].value.serial) else None
      ensures forall t :: Counting(t, id) && !Lost(Start(asked), history, t) ==> reached == guards[t].counter
    {
      reached := if id < |workers| && workers[id].Some? then Some(workers[id].value.serial) else None;
      forall t | Counting(t, id) && !Lost(Start(asked), history, t)
        ensures reached == guards[t].counter
      {
        PinsHold(asked, history, t);
      }
    }

    /** Dropping a guard with nothing in between: the slot is looked at exactly
        when the counter fell to zero. */
    method DropGuard(t: nat)
      requires Valid() && t in guards
      modifies this
      ensures Valid() && t !in guards
      ensures var g := old(guards)[t];
              if IsLast(old(State()), t)
              then State() == DrainStep(ReleaseStep(old(State()), t), g.worker) &&
                   history == old(history) + [Release(t), Drain(g.worker)]
              else State() == ReleaseStep(old(State()), t) && history == old(history) + [Release(t)]
    {
      hide Run, Start, ReleaseStep, DrainStep;
      var worker := guards[t].worker;
      DropParts(State(), t);
      var last := ReleaseContext(t);
      if last {
        MaybeDrain(worker);
      }
    }
  }

  /** The guard is the last on its counter: its own, or one that stands at one. */
  ghost predicate IsLast(s: State, t: nat)
    requires t in s.guards
  {
    var c := s.guards[t].counter;
    c.None? || (c.value in s.loads && s.loads[c.value] == 1)
  }

  lemma {:induction false} FirstFree(ws: Workers, i: nat)
    requires i <= |ws| && (forall j :: 0 <= j < i ==> ws[j].Some?) && (i < |ws| ==> ws[i].None?)
    ensures FreeSlot(ws) == i
  {
  }

  lemma NextStep(s: State, h: seq<Event>, e: Event)
    ensures Run(s, h + [e]) == Step(Run(s, h), e)
  {
    assert (h + [e])[..|h|] == h;
  }

  /** What `maybe_drain` changes. */
  lemma DrainParts(s: State, id: nat)
    requires id in s.emptied
    ensures Drains(s, id) <==>
            id < |s.workers| && s.workers[id].Some? && Live(s.workers) > 1 && LoadOf(s.loads, s.workers[id].value) == 0
    ensures DrainStep(s, id) ==
            s.(emptied := s.emptied - multiset{id}, workers := if Drains(s, id) then s.workers[id := None] else s.workers)
  {
    hide Live, LoadOf;
  }

  /** What dropping a guard changes first. */
  lemma ReleaseParts(s: State, t: nat)
    requires PoolInv(s)
    ensures Step(s, Release(t)) == ReleaseStep(s, t)
    ensures t !in s.guards ==> ReleaseStep(s, t) == s
    ensures t in s.guards ==>
              var g := s.guards[t];
              var own := g.counter.None?;
              (!own ==> g.counter.value in s.loads && s.loads[g.counter.value] > 0) &&
              ReleaseStep(s, t) ==
              s.(guards := s.guards - {t},
                 loads := if own then s.loads else s.loads[g.counter.value := s.loads[g.counter.value] - 1],
                 emptied := if own || s.loads[g.counter.value] == 1 then s.emptied + multiset{g.worker} else s.emptied)
  {
    if t in s.guards && s.guards[t].counter.Some? {
      HolderCounts(s, t);
    }
    hide PoolInv;
  }

  lemma DropParts(s: State, t: nat)
    requires t in s.guards
    ensures t !in ReleaseStep(s, t).guards && (forall id :: t !in DrainStep(ReleaseStep(s, t), id).guards)
    ensures IsLast(s, t) ==> s.guards[t].worker in ReleaseStep(s, t).emptied
  {
  }

  /** A counter some guard holds is not zero. */
  lemma HolderCounts(s: State, t: nat)
    requires PoolInv(s) && t in s.guards && s.guards[t].counter.Some?
    ensures s.guards[t].counter.value in s.loads && s.loads[s.guards[t].counter.value] > 0
  {
    assert t in Holders(s.guards, s.guards[t].counter.value);
  }
}
