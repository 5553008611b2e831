/** Theme configuration: overlapping asynchronous computations of which only the newest may apply. */
module Theme {
  datatype Appearance = Light | Dark

  /** How far one configureThemeAndShow has come. Its position in the list of calls is its
      generation minus one. */
  datatype Call =
    | AwaitingSettings
    | AwaitingTheme(appearance: Appearance)
    | Returned(applied: bool)
    | Done
    | Failed

  datatype Apply = Apply(generation: nat, appearance: Appearance)

  /** The module variables, the calls, and what happened to the document and the window so far. */
  datatype State = State(
    preferred: Appearance, generation: nat, windowShown: bool, calls: seq<Call>, applied: seq<Apply>, shows: nat)

  function Started(s: State): State {
    s.(generation := s.generation + 1, calls := s.calls + [AwaitingSettings])
  }

  function Initial(guess: Appearance): State {
    Started(State(guess, 0, false, [], [], 0))
  }

  datatype Event =
    | Preferred(appearance: Appearance)
    | WindowAppearance(appearance: Appearance)
    | SettingsWritten
    | GotSettings(i: nat)
    | GotTheme(i: nat)
    | Continued(i: nat)
    | Rejected(i: nat)

  predicate Possible(s: State, e: Event) {
    match e
    case GotSettings(i) => i < |s.calls| && s.calls[i].AwaitingSettings?
    case GotTheme(i) => i < |s.calls| && s.calls[i].AwaitingTheme?
    case Continued(i) => i < |s.calls| && s.calls[i].Returned?
    case Rejected(i) => i < |s.calls| && (s.calls[i].AwaitingSettings? || s.calls[i].AwaitingTheme?)
    case _ => true
  }

  /** A call's generation check, and what it does when it passes. */
  function Resolved(s: State, i: nat): State
    requires i < |s.calls| && s.calls[i].AwaitingTheme?
  {
    if i + 1 != s.generation then s.(calls := s.calls[i := Returned(false)])
    else s.(calls := s.calls[i := Returned(true)], applied := s.applied + [Apply(i + 1, s.calls[i].appearance)])
  }

  function Shown(s: State, i: nat): State
    requires i < |s.calls| && s.calls[i].Returned?
  {
    var done := s.(calls := s.calls[i := Done]);
    if s.calls[i].applied && !s.windowShown then done.(windowShown := true, shows := s.shows + 1) else done
  }

  function Step(s: State, e: Event): State
    requires Possible(s, e)
  {
    match e
    case Preferred(a) => Started(s.(preferred := a))
    case WindowAppearance(a) => if a == s.preferred then s else Started(s.(preferred := a))
    case SettingsWritten => Started(s)
    case GotSettings(i) => s.(calls := s.calls[i := AwaitingTheme(s.preferred)])
    case GotTheme(i) => Resolved(s, i)
    case Continued(i) => Shown(s, i)
    case Rejected(i) => s.(calls := s.calls[i := Failed])
  }

  class ThemeConfig {
    var preferredAppearance: Appearance
    var configureThemeGeneration: nat
    var windowShown: bool
    var calls: seq<Call>
    ghost var applied: seq<Apply>
    ghost var shows: nat

    ghost function Now(): State
      reads this
    {
      State(preferredAppearance, configureThemeGeneration, windowShown, calls, applied, shows)
    }

    constructor (guess: Appearance)
      ensures Now() == Initial(guess)
    {
      preferredAppearance, configureThemeGeneration, windowShown := guess, 0, false;
      calls, applied, shows := [], [], 0;
      new;
      ConfigureThemeAndShow();
    }

    /** Up to the first await. */
    method ConfigureThemeAndShow()
      modifies this
      ensures Now() == Started(old(Now()))
    {
      configureThemeGeneration := configureThemeGeneration + 1;
      calls := calls + [AwaitingSettings];
    }

    method OnPreferredAppearance(a: Appearance)
      modifies this
      ensures Now() == Step(old(Now()), Preferred(a))
      ensures preferredAppearance == a && calls == old(calls) + [AwaitingSettings]
    {
      preferredAppearance := a;
      ConfigureThemeAndShow();
    }

    method OnWindowAppearance(a: Appearance)
      modifies this
      ensures Now() == Step(old(Now()), WindowAppearance(a))
      ensures preferredAppearance == a
      ensures calls == old(calls) + if a == old(preferredAppearance) then [] else [AwaitingSettings]
    {
      if a == preferredAppearance { return; }
      preferredAppearance := a;
      ConfigureThemeAndShow();
    }

    method OnSettingsWritten()
      modifies this
      ensures Now() == Step(old(Now()), SettingsWritten)
    {
      ConfigureThemeAndShow();
    }

    method OnSettings(i: nat)
      requires Possible(Now(), GotSettings(i))
      modifies this
      ensures Now() == Step(old(Now()), GotSettings(i))
    {
      calls := calls[i := AwaitingTheme(preferredAppearance)];
    }

    method OnTheme(i: nat)
      requires Possible(Now(), GotTheme(i))
      modifies this
      ensures Now() == Step(old(Now()), GotTheme(i))
    {
      var generation := i + 1;
      if generation != configureThemeGeneration {
        calls := calls[i := Returned(false)];
        return;
      }
      applied := applied + [Apply(generation, calls[i].appearance)];
      calls := calls[i := Returned(true)];
    }

    method OnContinue(i: nat)
      requires Possible(Now(), Continued(i))
      modifies this
      ensures Now() == Step(old(Now()), Continued(i))
    {
      if calls[i].applied && !windowShown {
        windowShown := true;
        shows := shows + 1;
      }
      calls := calls[i := Done];
    }

    method OnReject(i: nat)
      requires Possible(Now(), Rejected(i))
      modifies this
      ensures Now() == Step(old(Now()), Rejected(i))
    {
      calls := calls[i := Failed];
    }
  }

  // ---------------------------------------------------------------- every interleaving

  /** events can happen in this order from s, and end in t. */
  predicate Leads(s: State, events: seq<Event>, t: State)
    decreases |events|
  {
    if events == [] then s == t
    else Possible(s, events[0]) && Leads(Step(s, events[0]), events[1..], t)
  }

  ghost predicate Invariant(s: State) {
    |s.calls| == s.generation > 0 && NewestRight(s) && RecordRight(s) && WindowRight(s)
  }

  /** Only the newest call can still apply, and it resolves for the appearance preferred now. */
  ghost predicate NewestRight(s: State)
    requires |s.calls| == s.generation > 0
  {
    var newest := s.calls[s.generation - 1];
    && (newest.AwaitingTheme? ==> newest.appearance == s.preferred)
    && (newest.Returned? ==> newest.applied)
    && (newest.Returned? || newest.Done? ==>
         s.applied != [] && s.applied[|s.applied| - 1] == Apply(s.generation, s.preferred))
  }

  /** Applied themes belong to ever newer generations that went through. */
  ghost predicate RecordRight(s: State)
    requires |s.calls| == s.generation
  {
    && (forall j, k :: 0 <= j < k < |s.applied| ==> s.applied[j].generation < s.applied[k].generation)
    && (forall k :: 0 <= k < |s.applied| ==>
          && 0 < s.applied[k].generation <= s.generation
          && var c := s.calls[s.applied[k].generation - 1]; c == Returned(true) || c == Done)
  }

  /** The window follows the first call that applied. */
  ghost predicate WindowRight(s: State) {
    && (forall i :: 0 <= i < |s.calls| && s.calls[i] == Returned(true) ==> s.applied != [])
    && s.shows == (if s.windowShown then 1 else 0)
    && (s.windowShown ==> s.applied != [])
    && (s.applied != [] ==> s.windowShown || exists i :: 0 <= i < |s.calls| && s.calls[i] == Returned(true))
  }

  lemma StartKeepsInvariant(s: State, a: Appearance)
    requires Invariant(s)
    ensures Invariant(Started(s.(preferred := a)))
  {
    var t := Started(s.(preferred := a));
    assert forall i :: 0 <= i < |s.calls| ==> t.calls[i] == s.calls[i];
    assert NewestRight(t);
    assert RecordRight(t) by { hide NewestRight, WindowRight; }
    assert WindowRight(t) by { hide NewestRight, RecordRight; }
  }

  lemma ResolveKeepsInvariant(s: State, i: nat)
    requires Invariant(s) && Possible(s, GotTheme(i))
    ensures Invariant(Resolved(s, i))
  {
    var t := Resolved(s, i);
    assert forall j :: 0 <= j < |s.calls| && j != i ==> t.calls[j] == s.calls[j];
    assert NewestRight(t) by { hide RecordRight, WindowRight; }
    assert RecordRight(t) by {
      hide NewestRight, WindowRight;
      assert forall k :: 0 <= k < |s.applied| ==> t.applied[k] == s.applied[k] && s.applied[k].generation != i + 1;
    }
    assert WindowRight(t) by {
      hide NewestRight, RecordRight;
      if i + 1 == s.generation { assert t.calls[i] == Returned(true); }
    }
  }

  lemma ShowKeepsInvariant(s: State, i: nat)
    requires Invariant(s) && Possible(s, Continued(i))
    ensures Invariant(Shown(s, i))
  {
    var t := Shown(s, i);
    assert forall j :: 0 <= j < |s.calls| && j != i ==> t.calls[j] == s.calls[j];
    assert NewestRight(t) by { hide RecordRight, WindowRight; }
    assert RecordRight(t) by { hide NewestRight, WindowRight; }
    assert WindowRight(t) by { hide NewestRight, RecordRight; }
  }

  lemma WaitKeepsInvariant(s: State, i: nat, c: Call)
    requires Invariant(s) && i < |s.calls| && (s.calls[i].AwaitingSettings? || s.calls[i].AwaitingTheme?)
    requires c == Failed || c == AwaitingTheme(s.preferred)
    ensures Invariant(s.(calls := s.calls[i := c]))
  {
    var t := s.(calls := s.calls[i := c]);
    assert forall j :: 0 <= j < |s.calls| && j != i ==> t.calls[j] == s.calls[j];
    assert NewestRight(t) by { hide RecordRight, WindowRight; }
    assert RecordRight(t) by { hide NewestRight, WindowRight; }
    assert WindowRight(t) by { hide NewestRight, RecordRight; }
  }

  lemma StepKeepsInvariant(s: State, e: Event)
    requires Invariant(s) && Possible(s, e)
    ensures Invariant(Step(s, e))
  {
    hide Invariant, Started, Resolved, Shown;
    match e
    case Preferred(a) => StartKeepsInvariant(s, a);
    case WindowAppearance(a) => StartKeepsInvariant(s, a);
    case SettingsWritten => StartKeepsInvariant(s, s.preferred);
    case GotSettings(i) => WaitKeepsInvariant(s, i, AwaitingTheme(s.preferred));
    case GotTheme(i) => ResolveKeepsInvariant(s, i);
    case Continued(i) => ShowKeepsInvariant(s, i);
    case Rejected(i) => WaitKeepsInvariant(s, i, Failed);
  }

  /** In every reachable state the invariant holds, whatever the order in which calls start and
      resume. */
  lemma {:induction false} ReachableInvariant(s: State, events: seq<Event>, t: State)
    requires Invariant(s) && Leads(s, events, t)
    ensures Invariant(t)
    decreases |events|
  {
    if events != [] {
      StepKeepsInvariant(s, events[0]);
      ReachableInvariant(Step(s, events[0]), events[1..], t);
    }
  }

  lemma InitialInvariant(guess: Appearance)
    ensures Invariant(Initial(guess))
  {
  }

  /** A theme is applied only by the newest call and only for the appearance preferred at that
      moment. */
  lemma OnlyCurrentApplies(guess: Appearance, events: seq<Event>, s: State, e: Event)
    requires Leads(Initial(guess), events, s) && Possible(s, e) && Step(s, e).applied != s.applied
    ensures Step(s, e).applied == s.applied + [Apply(s.generation, s.preferred)]
  {
    hide RecordRight, WindowRight, Leads, Initial;
    InitialInvariant(guess);
    ReachableInvariant(Initial(guess), events, s);
  }

  /** Once the last call is done, whatever became of the others, the last applied theme is that
      call's, resolved for the preferred appearance. */
  lemma SettledOnNewest(guess: Appearance, events: seq<Event>, s: State)
    requires Leads(Initial(guess), events, s) && s.calls != [] && s.calls[|s.calls| - 1].Done?
    ensures s.applied != [] && s.applied[|s.applied| - 1] == Apply(|s.calls|, s.preferred)
  {
    hide RecordRight, WindowRight, Leads, Initial;
    InitialInvariant(guess);
    ReachableInvariant(Initial(guess), events, s);
  }

  /** The appearance that events report last, or the guess if they report none. */
  function Reported(guess: Appearance, events: seq<Event>): Appearance {
    if events == [] then guess
    else
      match events[|events| - 1]
      case Preferred(a) => a
      case WindowAppearance(a) => a
      case _ => Reported(guess, events[..|events| - 1])
  }

  /** The calls started: one at the beginning, one for every preferred appearance reported, one for
      every window appearance that differs from what was known, and one for every write. */
  function Starts(guess: Appearance, events: seq<Event>): nat {
    if events == [] then 1
    else
      var front := events[..|events| - 1];
      Starts(guess, front) +
      match events[|events| - 1]
      case Preferred(_) => 1
      case WindowAppearance(a) => if a == Reported(guess, front) then 0 else 1
      case SettingsWritten => 1
      case _ => 0
  }

  /** A run without its last event. */
  lemma {:induction false} LeadsFront(s: State, events: seq<Event>, t: State) returns (before: State)
    requires Leads(s, events, t) && events != []
    ensures var n := |events| - 1;
            Leads(s, events[..n], before) && Possible(before, events[n]) && t == Step(before, events[n])
    decreases |events|
  {
    hide Step, Possible;
    var n := |events| - 1;
    if n == 0 {
      before := s;
      assert events[1..] == [] && events[..n] == [];
    } else {
      before := LeadsFront(Step(s, events[0]), events[1..], t);
      assert events[1..][..n - 1] == events[..n][1..] && events[1..][n - 1] == events[n];
    }
  }

  /** Whatever the interleaving, the events alone say which appearance is preferred and how many calls
      were started. */
  lemma {:induction false} EventsDecide(guess: Appearance, events: seq<Event>, s: State)
    requires Leads(Initial(guess), events, s)
    ensures s.preferred == Reported(guess, events)
    ensures |s.calls| == s.generation == Starts(guess, events)
    decreases |events|
  {
    if events != [] {
      var before := LeadsFront(Initial(guess), events, s);
      EventsDecide(guess, events[..|events| - 1], before);
    }
  }

  /** Once the last call is done, the theme in place is the one for the appearance reported last, and
      was put there by the last of the calls that the events started. */
  lemma SettledOnReported(guess: Appearance, events: seq<Event>, s: State)
    requires Leads(Initial(guess), events, s) && s.calls != [] && s.calls[|s.calls| - 1].Done?
    ensures s.applied != []
    ensures s.applied[|s.applied| - 1] == Apply(Starts(guess, events), Reported(guess, events))
  {
    SettledOnNewest(guess, events, s);
    EventsDecide(guess, events, s);
  }

  predicate Settled(s: State) {
    forall i :: 0 <= i < |s.calls| ==> s.calls[i] == Done || s.calls[i] == Failed
  }

  /** Some call gets its theme while it is still the newest. */
  predicate NewestGetsTheme(s: State, events: seq<Event>)
    decreases |events|
  {
    && events != [] && Possible(s, events[0])
    && (|| (events[0].GotTheme? && events[0].i + 1 == s.generation)
        || NewestGetsTheme(Step(s, events[0]), events[1..]))
  }

  lemma {:induction false} AppliedIffNewestGetsTheme(s: State, events: seq<Event>, t: State)
    requires Leads(s, events, t)
    ensures |s.applied| <= |t.applied|
    ensures |s.applied| < |t.applied| <==> NewestGetsTheme(s, events)
    decreases |events|
  {
    if events != [] { AppliedIffNewestGetsTheme(Step(s, events[0]), events[1..], t); }
  }

  /** Once every call is done or has failed, the window was shown exactly once if any call got its
      theme while it was the newest, which is when themes are applied, and never otherwise. */
  lemma ShownIffApplied(guess: Appearance, events: seq<Event>, s: State)
    requires Leads(Initial(guess), events, s) && Settled(s)
    ensures s.shows == if NewestGetsTheme(Initial(guess), events) then 1 else 0
    ensures s.applied != [] <==> NewestGetsTheme(Initial(guess), events)
  {
    ReachableInvariant(Initial(guess), events, s);
    AppliedIffNewestGetsTheme(Initial(guess), events, s);
  }

  /** A window that stays hidden: the appearance changes while the first call waits, the second call
      fails, and the first, which succeeds, is no longer the newest. */
  lemma WindowNeverShown() returns (events: seq<Event>, s: State)
    ensures Leads(Initial(Light), events, s) && Settled(s) && Done in s.calls
    ensures s.applied == [] && s.shows == 0
  {
    var s0 := Initial(Light);
    var s1 := Step(s0, Preferred(Dark));
    var s2 := Step(s1, Rejected(1));
    var s3 := Step(s2, GotSettings(0));
    var s4 := Step(s3, GotTheme(0));
    s := Step(s4, Continued(0));
    assert s.calls == [Done, Failed];
    events := [Preferred(Dark), Rejected(1), GotSettings(0), GotTheme(0), Continued(0)];
    assert events[1..][1..][1..][1..] == [Continued(0)];
    LeadsCons(s4, Continued(0), [], s);
    LeadsCons(s3, GotTheme(0), [Continued(0)], s);
    LeadsCons(s2, GotSettings(0), [GotTheme(0)] + [Continued(0)], s);
    LeadsCons(s1, Rejected(1), [GotSettings(0)] + ([GotTheme(0)] + [Continued(0)]), s);
    LeadsCons(s0, Preferred(Dark), [Rejected(1)] + ([GotSettings(0)] + ([GotTheme(0)] + [Continued(0)])), s);
    assert events == [Preferred(Dark)] + ([Rejected(1)] + ([GotSettings(0)] + ([GotTheme(0)] + [Continued(0)])));
  }

  lemma LeadsCons(s: State, e: Event, rest: seq<Event>, t: State)
    requires Possible(s, e) && Leads(Step(s, e), rest, t)
    ensures Leads(s, [e] + rest, t)
  {
    assert ([e] + rest)[1..] == rest;
  }

  /** The window is shown at most once, and not before a theme was applied. */
  lemma ShownOnceAfterApply(guess: Appearance, events: seq<Event>, s: State)
    requires Leads(Initial(guess), events, s)
    ensures s.shows <= 1 && (s.shows == 1 ==> s.applied != [])
  {
    ReachableInvariant(Initial(guess), events, s);
  }
}
