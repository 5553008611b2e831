/** eagerDebounceAsync: run at once on the first call, again after calls stop, and never twice at a time. */
module Debounce {
  datatype Event = Called | Fired | Started | Finished

  /** The three closure variables, and what happened so far. */
  datatype State = State(timer: bool, inFlight: bool, runAfterInFlight: bool, log: seq<Event>)

  const INITIAL := State(false, false, false, [])

  function RunFrom(s: State): State {
    if s.inFlight then s.(runAfterInFlight := true)
    else s.(runAfterInFlight := false, inFlight := true, log := s.log + [Started])
  }

  function AfterCall(s: State): State {
    var called := s.(log := s.log + [Called]);
    (if s.timer then called else RunFrom(called)).(timer := true)
  }

  function AfterFire(s: State): State {
    RunFrom(s.(timer := false, log := s.log + [Fired]))
  }

  function AfterFinish(s: State): State {
    var done := s.(inFlight := false, log := s.log + [Finished]);
    if s.runAfterInFlight && !s.timer then RunFrom(done) else done
  }

  class EagerDebounce {
    var timer: bool
    var inFlight: bool
    var runAfterInFlight: bool
    ghost var log: seq<Event>

    ghost function Now(): State
      reads this
    {
      State(timer, inFlight, runAfterInFlight, log)
    }

    constructor ()
      ensures Now() == INITIAL
    {
      timer, inFlight, runAfterInFlight, log := false, false, false, [];
    }

    method Run()
      modifies this
      ensures Now() == RunFrom(old(Now()))
    {
      if inFlight {
        runAfterInFlight := true;
        return;
      }
      runAfterInFlight := false;
      inFlight := true;
      log := log + [Started];
    }

    /** The returned trigger. */
    method Call()
      modifies this
      ensures Now() == AfterCall(old(Now()))
    {
      log := log + [Called];
      if !timer {
        Run();
      } else {
        timer := false; // clearTimeout
      }
      timer := true;
    }

    /** The timer callback. */
    method Fire()
      requires timer
      modifies this
      ensures Now() == AfterFire(old(Now()))
    {
      log := log + [Fired];
      timer := false;
      Run();
    }

    /** The promise in flight settles, either way. */
    method Finish()
      requires inFlight
      modifies this
      ensures Now() == AfterFinish(old(Now()))
    {
      log := log + [Finished];
      inFlight := false;
      if runAfterInFlight && !timer {
        Run();
      }
    }
  }

  // ---------------------------------------------------------------- runs

  datatype Move = Call | Fire | Finish

  predicate Possible(s: State, m: Move) {
    match m
    case Call => true
    case Fire => s.timer
    case Finish => s.inFlight
  }

  function Step(s: State, m: Move): State {
    match m
    case Call => AfterCall(s)
    case Fire => AfterFire(s)
    case Finish => AfterFinish(s)
  }

  /** moves can happen in this order from s, and end in t. */
  predicate Leads(s: State, moves: seq<Move>, t: State)
    decreases |moves|
  {
    if moves == [] then s == t
    else Possible(s, moves[0]) && Leads(Step(s, moves[0]), moves[1..], t)
  }

  function Count(log: seq<Event>, e: Event): nat {
    if log == [] then 0 else Count(log[..|log| - 1], e) + if log[|log| - 1] == e then 1 else 0
  }

  /** A timer fired after the call at i, and a run started after that. */
  predicate Served(log: seq<Event>, i: nat) {
    exists j, k :: i < j < k < |log| && log[j] == Fired && log[k] == Started
  }

  predicate FiredAfter(log: seq<Event>, i: nat) {
    exists j :: i < j < |log| && log[j] == Fired
  }

  /** What holds in every reachable state. */
  ghost predicate Invariant(s: State) {
    && Count(s.log, Started) == Count(s.log, Finished) + (if s.inFlight then 1 else 0)
    && (s.runAfterInFlight ==> s.inFlight || s.timer)
    && Count(s.log, Started) + (if s.timer then 1 else 0) + (if s.runAfterInFlight then 1 else 0)
         <= 2 * Count(s.log, Called)
    && (forall i :: 0 <= i < |s.log| && s.log[i] == Called ==>
          Served(s.log, i) || s.timer || (s.runAfterInFlight && FiredAfter(s.log, i)))
  }

  lemma CountPush(log: seq<Event>, x: Event, e: Event)
    ensures Count(log + [x], e) == Count(log, e) + if x == e then 1 else 0
  {
    assert (log + [x])[..|log|] == log;
  }

  /** Growing the log forgets nothing. */
  lemma ServedPush(log: seq<Event>, x: Event, i: nat)
    requires i < |log|
    ensures Served(log, i) ==> Served(log + [x], i)
    ensures FiredAfter(log, i) ==> FiredAfter(log + [x], i)
    ensures FiredAfter(log, i) && x == Started ==> Served(log + [x], i)
    ensures x == Fired ==> FiredAfter(log + [x], i)
  {
    var after := log + [x];
    assert after[|log|] == x;
    if j, k :| i < j < k < |log| && log[j] == Fired && log[k] == Started {
      assert after[j] == Fired && after[k] == Started;
    }
    if j :| i < j < |log| && log[j] == Fired {
      assert after[j] == Fired;
    }
  }

  /** One event more in the log, with nothing else changed yet. */
  lemma LogPush(log: seq<Event>, x: Event)
    ensures forall e :: Count(log + [x], e) == Count(log, e) + if x == e then 1 else 0
    ensures forall i :: 0 <= i < |log| ==>
              && (log + [x])[i] == log[i]
              && (Served(log, i) ==> Served(log + [x], i))
              && (FiredAfter(log, i) ==> FiredAfter(log + [x], i))
              && (FiredAfter(log, i) && x == Started ==> Served(log + [x], i))
              && (x == Fired ==> FiredAfter(log + [x], i))
  {
    forall e ensures Count(log + [x], e) == Count(log, e) + if x == e then 1 else 0 { CountPush(log, x, e); }
    forall i | 0 <= i < |log|
      ensures Served(log, i) ==> Served(log + [x], i)
      ensures FiredAfter(log, i) ==> FiredAfter(log + [x], i)
      ensures FiredAfter(log, i) && x == Started ==> Served(log + [x], i)
      ensures x == Fired ==> FiredAfter(log + [x], i)
    {
      ServedPush(log, x, i);
    }
  }

  lemma StepKeepsInvariant(s: State, m: Move)
    requires Invariant(s) && Possible(s, m)
    ensures Invariant(Step(s, m))
  {
    hide Count, Served, FiredAfter;
    var x := match m case Call => Called case Fire => Fired case Finish => Finished;
    LogPush(s.log, x);
    LogPush(s.log + [x], Started);
  }

  /** In every state that any order of calls, timer callbacks and settled runs can reach, the
      invariant holds. */
  lemma {:induction false} ReachableInvariant(s: State, moves: seq<Move>, t: State)
    requires Invariant(s) && Leads(s, moves, t)
    ensures Invariant(t)
    decreases |moves|
  {
    if moves != [] {
      StepKeepsInvariant(s, moves[0]);
      ReachableInvariant(Step(s, moves[0]), moves[1..], t);
    }
  }

  // ---------------------------------------------------------------- what the caller sees

  lemma {:induction false} NeverTwoInFlight(moves: seq<Move>, t: State)
    requires Leads(INITIAL, moves, t)
    ensures Count(t.log, Finished) <= Count(t.log, Started) <= Count(t.log, Finished) + 1
    ensures Count(t.log, Started) <= 2 * Count(t.log, Called)
  {
    ReachableInvariant(INITIAL, moves, t);
  }

  /** The bound is reached: calls that come one by one, each after the last has settled, start two
      runs each. */
  lemma {:induction false} TwoRunsPerCall(log: seq<Event>, n: nat) returns (moves: seq<Move>, t: State)
    ensures Leads(INITIAL.(log := log), moves, t) && !t.timer && !t.inFlight
    ensures Count(t.log, Called) == Count(log, Called) + n
    ensures Count(t.log, Started) == Count(log, Started) + 2 * n
    decreases n
  {
    if n == 0 {
      moves, t := [], INITIAL.(log := log);
    } else {
      var next := log + [Called] + [Started] + [Finished] + [Fired] + [Started] + [Finished];
      forall e ensures Count(next, e) == Count(log, e) + if e == Called || e == Fired then 1 else 2 {
        CountSix(log, e);
      }
      var rest;
      rest, t := TwoRunsPerCall(next, n - 1);
      moves := [Call] + ([Finish] + ([Fire] + ([Finish] + rest)));
      var s0 := INITIAL.(log := log);
      var s1 := Step(s0, Call);
      var s2 := Step(s1, Finish);
      var s3 := Step(s2, Fire);
      assert Step(s3, Finish) == INITIAL.(log := next);
      LeadsCons(s3, Finish, rest, t);
      LeadsCons(s2, Fire, [Finish] + rest, t);
      LeadsCons(s1, Finish, [Fire] + ([Finish] + rest), t);
      LeadsCons(s0, Call, [Finish] + ([Fire] + ([Finish] + rest)), t);
    }
  }

  lemma CountSix(log: seq<Event>, e: Event)
    ensures Count(log + [Called] + [Started] + [Finished] + [Fired] + [Started] + [Finished], e) ==
            Count(log, e) + if e == Called || e == Fired then 1 else 2
  {
    hide Count;
    var a := log + [Called] + [Started];
    CountPush(log, Called, e);
    CountPush(log + [Called], Started, e);
    CountPush(a, Finished, e);
    CountPush(a + [Finished], Fired, e);
    CountPush(a + [Finished] + [Fired], Started, e);
    CountPush(a + [Finished] + [Fired] + [Started], Finished, e);
  }

  lemma LeadsCons(s: State, m: Move, rest: seq<Move>, t: State)
    requires Possible(s, m) && Leads(Step(s, m), rest, t)
    ensures Leads(s, [m] + rest, t)
  {
    assert ([m] + rest)[1..] == rest;
  }

  /** Once nothing is armed or running, every call was followed by a timer that fired and then by
      a run that started after it. */
  lemma {:induction false} NoCallIsLost(moves: seq<Move>, t: State)
    requires Leads(INITIAL, moves, t) && !t.timer && !t.inFlight
    ensures forall i :: 0 <= i < |t.log| && t.log[i] == Called ==> Served(t.log, i)
  {
    ReachableInvariant(INITIAL, moves, t);
  }

  function Rank(s: State): nat {
    (if s.timer then 3 else 0) + (if s.runAfterInFlight then 2 else 0) + (if s.inFlight then 1 else 0)
  }

  /** Without further calls at most Rank moves are left, and when none is possible nothing is armed
      or running. */
  lemma {:induction false} QuietRunEnds(s: State, moves: seq<Move>, t: State)
    requires Invariant(s) && Leads(s, moves, t) && Call !in moves
    ensures |moves| + Rank(t) <= Rank(s)
    ensures Rank(t) > 0 ==> Possible(t, Fire) || Possible(t, Finish)
    decreases |moves|
  {
    if moves != [] {
      StepKeepsInvariant(s, moves[0]);
      QuietRunEnds(Step(s, moves[0]), moves[1..], t);
    }
  }

  /** The runs that are still to start if no further call comes. */
  function StartsLeft(s: State): nat {
    if s.timer || s.runAfterInFlight then 1 else 0
  }

  /** Timer callbacks and settled runs neither add to the runs started and still to start, nor lose
      any of them. */
  lemma {:induction false} StartsAreConserved(s: State, moves: seq<Move>, t: State)
    requires Invariant(s) && Leads(s, moves, t) && Call !in moves
    ensures Count(t.log, Started) + StartsLeft(t) == Count(s.log, Started) + StartsLeft(s)
    decreases |moves|
  {
    hide Served, FiredAfter, Count;
    if moves != [] {
      StepKeepsInvariant(s, moves[0]);
      LogPush(s.log, if moves[0] == Fire then Fired else Finished);
      LogPush(s.log + [if moves[0] == Fire then Fired else Finished], Started);
      StartsAreConserved(Step(s, moves[0]), moves[1..], t);
    }
  }

  /** What the last call of a burst brings about, whatever the order of what follows: exactly two
      runs when nothing was armed or running, the first of them at once, and otherwise exactly one
      more. */
  lemma LastCallRuns(s: State, moves: seq<Move>, t: State)
    requires Invariant(s) && Leads(AfterCall(s), moves, t) && Call !in moves && !t.timer && !t.inFlight
    ensures Count(t.log, Started) == Count(s.log, Started) + if s.timer || s.inFlight then 1 else 2
    ensures !s.timer && !s.inFlight ==> AfterCall(s).log == s.log + [Called] + [Started]
  {
    hide Served, FiredAfter, Count;
    StepKeepsInvariant(s, Call);
    ReachableInvariant(AfterCall(s), moves, t);
    StartsAreConserved(AfterCall(s), moves, t);
    LogPush(s.log, Called);
    LogPush(s.log + [Called], Started);
  }
}
