/** Cancelling running child processes. Any number of threads call `cancel`, `on_start` and
    `on_end`; each takes the mutex, works in single steps, and releases it. A step of one thread
    may fall between any two steps of another. */
module Cancellation {

  type Thread = nat
  type Pid = nat

  /** Where a thread is. `Killing` holds the processes that the loop has not reached yet. */
  datatype Phase =
    | Idle
    | Killing(rest: seq<Pid>)
    | Inserted(pid: Pid)
    | Leaving

  /** `killed` are the processes killed since they were last registered; `kills` lists every
      kill with the registered set at that moment, oldest first. */
  datatype State = State(
    pids: set<Pid>,
    isCancelled: bool,
    holder: int,
    phases: map<Thread, Phase>,
    killed: set<Pid>,
    kills: seq<(Pid, set<Pid>)>)

  const NOBODY: int := -1

  datatype Action =
    | CancelEnter(order: seq<Pid>)
    | KillNext
    | StartEnter(pid: Pid)
    | StartKill
    | EndEnter(pid: Pid)
    | Release

  function PhaseOf(s: State, t: Thread): Phase {
    if t in s.phases then s.phases[t] else Idle
  }

  function Goto(s: State, t: Thread, p: Phase): State {
    s.(phases := s.phases[t := p])
  }

  function Kill(s: State, pid: Pid): State {
    s.(killed := s.killed + {pid}, kills := s.kills + [(pid, s.pids)])
  }

  /** Thread `t` can take the step. `order` is the order in which the set is traversed. */
  predicate Enabled(s: State, t: Thread, a: Action) {
    match a
    case CancelEnter(order) => s.holder == NOBODY && PhaseOf(s, t) == Idle && (set p <- order) == s.pids
    case KillNext => s.holder == t && PhaseOf(s, t).Killing?
    case StartEnter(_) => s.holder == NOBODY && PhaseOf(s, t) == Idle
    case StartKill => s.holder == t && PhaseOf(s, t).Inserted?
    case EndEnter(_) => s.holder == NOBODY && PhaseOf(s, t) == Idle
    case Release => s.holder == t && PhaseOf(s, t) == Leaving
  }

  function Step(s: State, t: Thread, a: Action): State
    requires Enabled(s, t, a)
  {
    match a
    case CancelEnter(order) => Goto(s.(holder := t, isCancelled := true), t, Killing(order))
    case KillNext =>
      var rest := PhaseOf(s, t).rest;
      if rest == [] then Goto(s, t, Leaving) else Goto(Kill(s, rest[0]), t, Killing(rest[1..]))
    case StartEnter(pid) =>
      Goto(s.(holder := t, pids := s.pids + {pid}, killed := s.killed - {pid}), t, Inserted(pid))
    case StartKill =>
      var pid := PhaseOf(s, t).pid;
      Goto(if s.isCancelled then Kill(s, pid) else s, t, Leaving)
    case EndEnter(pid) =>
      Goto(s.(holder := t, pids := s.pids - {pid}, killed := s.killed - {pid}), t, Leaving)
    case Release => Goto(s.(holder := NOBODY), t, Idle)
  }

  // ---- Reachable states ----

  const INITIAL: State := State({}, false, NOBODY, map[], {}, [])

  predicate Runs(s: State, es: seq<(Thread, Action)>)
    decreases |es|
  {
    es == [] || (Enabled(s, es[0].0, es[0].1) && Runs(Step(s, es[0].0, es[0].1), es[1..]))
  }

  function Run(s: State, es: seq<(Thread, Action)>): State
    requires Runs(s, es)
    decreases |es|
  {
    if es == [] then s else Run(Step(s, es[0].0, es[0].1), es[1..])
  }

  /** The registered processes that may still be waiting for their kill, which the holder of the
      mutex is about to deliver. */
  function Pending(s: State): set<Pid> {
    if s.holder < 0 then {}
    else match PhaseOf(s, s.holder)
      case Killing(rest) => set p <- rest
      case Inserted(pid) => {pid}
      case _ => {}
  }

  ghost predicate WasKilled(s: State, p: Pid) {
    exists k :: 0 <= k < |s.kills| && s.kills[k].0 == p
  }

  ghost predicate Inv(s: State) {
    && s.killed <= s.pids && Pending(s) <= s.pids
    && (s.isCancelled ==> s.pids <= s.killed + Pending(s))
    && (forall t <- s.phases :: s.phases[t] != Idle ==> s.holder == t)
    && (forall k :: 0 <= k < |s.kills| ==> s.kills[k].0 in s.kills[k].1)
    && (forall p <- s.killed :: WasKilled(s, p))
    && s.holder >= NOBODY && (s.holder >= 0 ==> PhaseOf(s, s.holder) != Idle)
  }

  lemma StepKeepsInv(s: State, t: Thread, a: Action)
    requires Inv(s) && Enabled(s, t, a)
    ensures Inv(Step(s, t, a))
  {
    var s' := Step(s, t, a);
    if a.KillNext? {
      var rest := PhaseOf(s, t).rest;
      if rest != [] {
        assert rest == [rest[0]] + rest[1..];
        assert rest[0] in Pending(s);
      }
    }
    assert s.kills <= s'.kills;
    forall p | p in s'.killed ensures WasKilled(s', p) {
      if p in s.killed {
        var k :| 0 <= k < |s.kills| && s.kills[k].0 == p;
        assert s'.kills[k].0 == p;
      } else {
        assert s'.kills[|s.kills|].0 == p;
      }
    }
  }

  lemma {:induction false} RunKeepsInv(s: State, es: seq<(Thread, Action)>)
    requires Inv(s) && Runs(s, es)
    ensures Inv(Run(s, es))
    decreases |es|
  {
    if es != [] {
      StepKeepsInv(s, es[0].0, es[0].1);
      RunKeepsInv(Step(s, es[0].0, es[0].1), es[1..]);
    }
  }

  /** For every interleaving: once cancelled, whenever the mutex is free every registered process
      has been killed since its registration; while it is held, the only ones not yet killed are
      those its holder is about to kill. */
  lemma CancelledMeansKilled(es: seq<(Thread, Action)>)
    requires Runs(INITIAL, es)
    ensures var s := Run(INITIAL, es); s.isCancelled ==> s.pids <= s.killed + Pending(s) && (s.holder == NOBODY ==> s.pids <= s.killed)
    ensures var s := Run(INITIAL, es); s.isCancelled && s.holder == NOBODY ==>
      forall p <- s.pids :: exists k :: 0 <= k < |s.kills| && s.kills[k].0 == p
  {
    RunKeepsInv(INITIAL, es);
    var s := Run(INITIAL, es);
    forall p | p in s.killed ensures exists k :: 0 <= k < |s.kills| && s.kills[k].0 == p {
      assert WasKilled(s, p);
    }
  }

  // ---- What a run does to the signal ----

  /** A run ends cancelled exactly when some thread has entered a cancellation. */
  lemma {:induction false} CancelledExactly(s: State, es: seq<(Thread, Action)>)
    requires Runs(s, es)
    ensures Run(s, es).isCancelled <==> s.isCancelled || exists k :: 0 <= k < |es| && es[k].1.CancelEnter?
    decreases |es|
  {
    if es != [] {
      var rest := es[1..];
      CancelledExactly(Step(s, es[0].0, es[0].1), rest);
      if k :| 0 <= k < |rest| && rest[k].1.CancelEnter? {
        assert es[k + 1].1.CancelEnter?;
      }
      if k :| 0 <= k < |es| && es[k].1.CancelEnter? {
        assert k > 0 ==> rest[k - 1].1.CancelEnter?;
      }
    }
  }

  /** A process is registered exactly from the start of its registration to its unregistration. */
  lemma {:induction false} RegisteredExactly(s: State, es: seq<(Thread, Action)>, pid: Pid)
    requires Runs(s, es)
    ensures pid in Run(s, es).pids <==>
      || (pid in s.pids && forall j :: 0 <= j < |es| ==> es[j].1 != EndEnter(pid))
      || (exists k :: 0 <= k < |es| && es[k].1 == StartEnter(pid) && forall j :: k < j < |es| ==> es[j].1 != EndEnter(pid))
    decreases |es|
  {
    if es != [] {
      var rest := es[1..];
      var s1 := Step(s, es[0].0, es[0].1);
      RegisteredExactly(s1, rest, pid);
      assert (forall j :: 0 < j < |es| ==> es[j].1 != EndEnter(pid)) <==> (forall j :: 0 <= j < |rest| ==> rest[j].1 != EndEnter(pid)) by {
        forall j | 0 <= j < |rest| ensures rest[j] == es[j + 1] { }
        forall j | 0 < j < |es| ensures es[j] == rest[j - 1] { }
      }
      if k :| 0 <= k < |rest| && rest[k].1 == StartEnter(pid) && forall j :: k < j < |rest| ==> rest[j].1 != EndEnter(pid) {
        assert es[k + 1].1 == StartEnter(pid);
        forall j | k + 1 < j < |es| ensures es[j].1 != EndEnter(pid) { assert es[j] == rest[j - 1]; }
      }
      if k :| 0 <= k < |es| && es[k].1 == StartEnter(pid) && forall j :: k < j < |es| ==> es[j].1 != EndEnter(pid) {
        if k > 0 {
          assert rest[k - 1].1 == StartEnter(pid);
          forall j | k - 1 < j < |rest| ensures rest[j].1 != EndEnter(pid) { assert rest[j] == es[j + 1]; }
        }
      }
    }
  }

  ghost predicate Quiet(s: State) {
    !s.isCancelled && s.kills == [] && forall t <- s.phases :: !s.phases[t].Killing?
  }

  /** Nothing is killed before a cancellation. */
  lemma {:induction false} NoKillBeforeCancel(s: State, es: seq<(Thread, Action)>)
    requires Quiet(s) && Runs(s, es) && forall e <- es :: !e.1.CancelEnter?
    ensures Quiet(Run(s, es)) && Run(s, es).kills == []
    decreases |es|
  {
    if es != [] {
      assert es[0] in es;
      NoKillBeforeCancel(Step(s, es[0].0, es[0].1), es[1..]);
    }
  }

  lemma SomeOrder(pids: set<Pid>) returns (order: seq<Pid>)
    ensures (set p <- order) == pids
  {
    if pids == {} {
      order := [];
    } else {
      var p :| p in pids;
      var rest := SomeOrder(pids - {p});
      order := [p] + rest;
      forall q ensures q in (set x <- order) <==> q in pids {
        assert q in order <==> q == p || q in rest;
        assert q in rest <==> q in (set x <- rest);
        assert q in pids <==> q == p || q in pids - {p};
      }
    }
  }

  /** In every reachable state something can happen: whoever holds the mutex can take its next step,
      and when nobody does every thread can start any of the three calls. */
  lemma NeverStuck(es: seq<(Thread, Action)>, t: Thread, pid: Pid)
    requires Runs(INITIAL, es)
    ensures var s := Run(INITIAL, es);
      if s.holder >= 0
      then Enabled(s, s.holder, KillNext) || Enabled(s, s.holder, StartKill) || Enabled(s, s.holder, Release)
      else Enabled(s, t, StartEnter(pid)) && Enabled(s, t, EndEnter(pid)) && exists order :: Enabled(s, t, CancelEnter(order))
  {
    RunKeepsInv(INITIAL, es);
    var s := Run(INITIAL, es);
    if s.holder < 0 {
      var order := SomeOrder(s.pids);
      assert Enabled(s, t, CancelEnter(order));
    }
  }

  /** Every kill ever sent went to a process that was registered at that moment. */
  lemma KillsHitRegistered(es: seq<(Thread, Action)>, k: nat)
    requires Runs(INITIAL, es) && k < |Run(INITIAL, es).kills|
    ensures Run(INITIAL, es).kills[k].0 in Run(INITIAL, es).kills[k].1
  {
    RunKeepsInv(INITIAL, es);
  }

  lemma {:induction false} KillsOnlyGrow(s: State, es: seq<(Thread, Action)>)
    requires Runs(s, es)
    ensures s.kills <= Run(s, es).kills
    decreases |es|
  {
    if es != [] {
      KillsOnlyGrow(Step(s, es[0].0, es[0].1), es[1..]);
    }
  }

  /** Cancellation is permanent, and a process that is unregistered is killed no more while it
      stays unregistered. */
  lemma {:induction false} NoKillAfterEnd(s: State, es: seq<(Thread, Action)>, pid: Pid)
    requires Inv(s) && Runs(s, es) && pid !in s.pids
    requires forall e <- es :: e.1 != StartEnter(pid)
    ensures var s' := Run(s, es);
      && (s.isCancelled ==> s'.isCancelled) && pid !in s'.pids && |s.kills| <= |s'.kills|
      && (forall k :: |s.kills| <= k < |s'.kills| ==> s'.kills[k].0 != pid)
    decreases |es|
  {
    if es != [] {
      var (t, a) := es[0];
      StepKeepsInv(s, t, a);
      assert es[0] in es;
      var s1 := Step(s, t, a);
      NoKillAfterEnd(s1, es[1..], pid);
      var s' := Run(s1, es[1..]);
      assert forall k :: |s.kills| <= k < |s1.kills| ==> s1.kills[k].0 != pid by {
        if a.KillNext? && PhaseOf(s, t).rest != [] { assert PhaseOf(s, t).rest[0] in Pending(s); }
        if a.StartKill? { assert PhaseOf(s, t).pid in Pending(s); }
      }
      KillsOnlyGrow(s1, es[1..]);
    }
  }
}

/** The signal object itself. Every method runs under the object's mutex, so its contract is about
    one uninterrupted call; the interleavings are the subject of the module above. */
module CancellationSignal {
  import opened Cancellation

  lemma OneMore(done: set<Pid>, pid: Pid, sent: seq<Pid>)
    requires pid !in done && multiset(sent) == multiset(done)
    ensures multiset(sent + [pid]) == multiset(done + {pid})
  {
  }

  class ArtdCancellationSignal {
    var pids: set<Pid>
    var isCancelled: bool
    /** Processes killed since they were last registered. */
    ghost var killed: set<Pid>
    ghost var kills: seq<Pid>

    ghost predicate Valid()
      reads this
    {
      killed <= pids && (isCancelled ==> killed == pids)
    }

    constructor ()
      ensures Valid() && pids == {} && !isCancelled && kills == []
    {
      pids, isCancelled, killed, kills := {}, false, {}, [];
    }

    /** Kills every registered process once more, and nothing else. */
    method Cancel()
      requires Valid()
      modifies this
      ensures Valid() && isCancelled && pids == old(pids) && killed == pids
      ensures old(kills) <= kills && multiset(kills[|old(kills)|..]) == multiset(pids)
    {
      isCancelled := true;
      var rest := pids;
      ghost var sent: seq<Pid>, done: set<Pid>, all := [], {}, pids;
      while rest != {}
        invariant pids == all && isCancelled && done !! rest && done + rest == all
        invariant kills == old(kills) + sent && multiset(sent) == multiset(done)
        invariant done <= killed <= all
        decreases rest
      {
        var pid :| pid in rest;
        OneMore(done, pid, sent);
        rest, done, sent := rest - {pid}, done + {pid}, sent + [pid];
        kills := kills + [pid];
        killed := killed + {pid};
      }
      assert kills[|old(kills)|..] == sent;
    }

    /** Registers a process; a signal that was cancelled before kills it at once. */
    method OnStart(pid: Pid)
      requires Valid()
      modifies this
      ensures Valid() && pids == old(pids) + {pid} && isCancelled == old(isCancelled)
      ensures kills == if isCancelled then old(kills) + [pid] else old(kills)
    {
      pids := pids + {pid};
      killed := killed - {pid};
      if isCancelled {
        kills := kills + [pid];
        killed := killed + {pid};
      }
    }

    method OnEnd(pid: Pid)
      requires Valid()
      modifies this
      ensures Valid() && pids == old(pids) - {pid} && isCancelled == old(isCancelled) && kills == old(kills)
    {
      pids := pids - {pid};
      killed := killed - {pid};
    }
  }
}
