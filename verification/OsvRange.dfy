/** Advisory range evaluation (`libs/vuln-intel/src/osv-range.ts`): the one-pass walk over the
    events of a range against the evaluation algorithm of the OSV Schema. */
module OsvRange {
  import opened Core
  import opened OsvVersion

  datatype Event = Event(introduced: Option<string>, fixed: Option<string>, lastAffected: Option<string>)

  function Introduced(v: string): Event { Event(Some(v), None, None) }
  function Fixed(v: string): Event { Event(None, Some(v), None) }
  function LastAffected(v: string): Event { Event(None, None, Some(v)) }

  predicate Gte(version: string, introduced: string) {
    introduced == "0" || CompareVersions(version, introduced) >= 0
  }

  // ----- the walk -----

  /** The result of the walk on the remaining events when `start` is where the open interval starts. */
  predicate Walk(version: string, events: seq<Event>, start: Option<string>) {
    if events == [] then start.Some? && Gte(version, start.value)
    else
      var e, rest := events[0], events[1..];
      if e.introduced.Some? then Walk(version, rest, e.introduced)
      else if e.fixed.Some? && start.Some? then
        (Gte(version, start.value) && CompareVersions(version, e.fixed.value) < 0) || Walk(version, rest, None)
      else if e.lastAffected.Some? && start.Some? then
        (Gte(version, start.value) && CompareVersions(version, e.lastAffected.value) <= 0) || Walk(version, rest, None)
      else Walk(version, rest, start)
  }

  method InRange(version: string, events: seq<Event>) returns (r: bool)
    ensures r == Walk(version, events, None)
  {
    hide CompareVersions;
    var openedAt: Option<string> := None;
    for i := 0 to |events|
      invariant Walk(version, events[i..], openedAt) == Walk(version, events, None)
    {
      var event := events[i];
      assert events[i..][1..] == events[i + 1..];
      if event.introduced.Some? {
        openedAt := event.introduced;
      } else if event.fixed.Some? && openedAt.Some? {
        if Gte(version, openedAt.value) && CompareVersions(version, event.fixed.value) < 0 {
          return true;
        }
        openedAt := None;
      } else if event.lastAffected.Some? && openedAt.Some? {
        if Gte(version, openedAt.value) && CompareVersions(version, event.lastAffected.value) <= 0 {
          return true;
        }
        openedAt := None;
      }
    }
    return openedAt.Some? && Gte(version, openedAt.value);
  }

  // ----- the evaluation algorithm of the OSV Schema -----

  /** The event introduces the version: `0` introduces every version, any other text those at or above it. */
  predicate IntroducedBy(version: string, e: Event) {
    e.introduced.Some? && (e.introduced.value == "0" || CompareVersions(version, e.introduced.value) >= 0)
  }

  /** Each event in turn switches the verdict: on from its introduced version, off from its fixed
      version, off above its last affected version. */
  predicate Toggle(version: string, events: seq<Event>, vulnerable: bool) {
    if events == [] then vulnerable
    else
      var e := events[0];
      var on := vulnerable || IntroducedBy(version, e);
      var off :=
        || (e.fixed.Some? && CompareVersions(version, e.fixed.value) >= 0)
        || (e.lastAffected.Some? && CompareVersions(version, e.lastAffected.value) > 0);
      Toggle(version, events[1..], on && !off)
  }

  // ----- agreement -----

  predicate AtMostOneField(e: Event) {
    && (e.introduced.Some? ==> e.fixed.None? && e.lastAffected.None?)
    && (e.fixed.Some? ==> e.lastAffected.None?)
  }

  predicate SameStart(a: string, b: string) {
    a == b || (a != "0" && b != "0" && CompareVersions(a, b) == 0)
  }

  /** An interval is not restarted at another version before it is closed. */
  predicate NoRestart(events: seq<Event>, start: Option<string>) {
    events == [] ||
    (var e, rest := events[0], events[1..];
     if e.introduced.Some? then
       (start.Some? ==> SameStart(start.value, e.introduced.value)) && NoRestart(rest, e.introduced)
     else NoRestart(rest, if e.fixed.Some? || e.lastAffected.Some? then None else start))
  }

  /** `b`, if it closes an interval, does not do so before `a`; and a fixed version that follows a
      last affected version lies strictly above it. */
  predicate ClosesAfter(a: Event, b: Event) {
    && (a.fixed.Some? && b.fixed.Some? ==> CompareVersions(a.fixed.value, b.fixed.value) <= 0)
    && (a.fixed.Some? && b.lastAffected.Some? ==> CompareVersions(a.fixed.value, b.lastAffected.value) <= 0)
    && (a.lastAffected.Some? && b.fixed.Some? ==> CompareVersions(a.lastAffected.value, b.fixed.value) < 0)
    && (a.lastAffected.Some? && b.lastAffected.Some? ==> CompareVersions(a.lastAffected.value, b.lastAffected.value) <= 0)
  }

  ghost predicate WellFormed(events: seq<Event>) {
    && (forall i :: 0 <= i < |events| ==> AtMostOneField(events[i]))
    && (forall i, j :: 0 <= i < j < |events| ==> ClosesAfter(events[i], events[j]))
  }

  /** Below every later closing version, the verdict can only stay on. */
  lemma {:induction false} StaysOn(version: string, events: seq<Event>)
    requires forall i :: 0 <= i < |events| ==>
      && (events[i].fixed.Some? ==> CompareVersions(version, events[i].fixed.value) < 0)
      && (events[i].lastAffected.Some? ==> CompareVersions(version, events[i].lastAffected.value) <= 0)
    ensures Toggle(version, events, true)
  {
    hide CompareVersions;
    if events != [] {
      StaysOn(version, events[1..]);
    }
  }

  /** A version at or below one closing event is at or below every later one. */
  lemma {:induction false} ClosedBelow(version: string, e: Event, later: Event)
    requires ClosesAfter(e, later)
    requires || (e.fixed.Some? && CompareVersions(version, e.fixed.value) < 0)
             || (e.lastAffected.Some? && CompareVersions(version, e.lastAffected.value) <= 0)
    ensures later.fixed.Some? ==> CompareVersions(version, later.fixed.value) < 0
    ensures later.lastAffected.Some? ==> CompareVersions(version, later.lastAffected.value) <= 0
  {
    hide CompareVersions;
    VersionsPreorder();
    assert forall a, b :: CompareVersions(a, b) >= 0 ==> CompareVersions(b, a) <= 0;
  }

  lemma {:induction false} SameStartGte(version: string, a: string, b: string)
    requires SameStart(a, b)
    ensures Gte(version, a) == Gte(version, b)
  {
    hide CompareVersions;
    if a != b {
      EqualVersionsCompareAlike(a, b, version);
      VersionsPreorder();
    }
  }

  lemma {:induction false} WalkToggles(version: string, events: seq<Event>, start: Option<string>)
    requires WellFormed(events) && NoRestart(events, start)
    ensures Walk(version, events, start) == Toggle(version, events, start.Some? && Gte(version, start.value))
  {
    hide CompareVersions;
    if events != [] {
      var e, rest := events[0], events[1..];
      assert AtMostOneField(e) && WellFormed(rest);
      if e.introduced.Some? {
        if start.Some? {
          SameStartGte(version, start.value, e.introduced.value);
        }
        WalkToggles(version, rest, e.introduced);
      } else if start.Some? && (e.fixed.Some? || e.lastAffected.Some?) {
        WalkToggles(version, rest, None);
        if Gte(version, start.value)
          && ((e.fixed.Some? && CompareVersions(version, e.fixed.value) < 0)
              || (e.lastAffected.Some? && CompareVersions(version, e.lastAffected.value) <= 0)) {
          forall i | 0 <= i < |rest|
            ensures rest[i].fixed.Some? ==> CompareVersions(version, rest[i].fixed.value) < 0
            ensures rest[i].lastAffected.Some? ==> CompareVersions(version, rest[i].lastAffected.value) <= 0
          {
            assert ClosesAfter(events[0], events[i + 1]);
            ClosedBelow(version, e, rest[i]);
          }
          StaysOn(version, rest);
        }
      } else {
        WalkToggles(version, rest, start);
      }
    }
  }

  /** For every version, the walk gives the verdict of the schema's algorithm. */
  lemma {:induction false} WalkIsEvaluation(version: string, events: seq<Event>)
    requires WellFormed(events) && NoRestart(events, None)
    ensures Walk(version, events, None) == Toggle(version, events, false)
  {
    WalkToggles(version, events, None);
  }

  // ----- what each of them decides -----

  predicate OneField(e: Event) {
    AtMostOneField(e) && (e.introduced.Some? || e.fixed.Some? || e.lastAffected.Some?)
  }

  /** The version is in the interval that the event closes from above. */
  predicate Below(version: string, e: Event) {
    || (e.fixed.Some? && CompareVersions(version, e.fixed.value) < 0)
    || (e.lastAffected.Some? && CompareVersions(version, e.lastAffected.value) <= 0)
  }

  /** The event ends the version's being affected. */
  predicate SwitchesOff(version: string, e: Event) {
    || (e.fixed.Some? && CompareVersions(version, e.fixed.value) >= 0)
    || (e.lastAffected.Some? && CompareVersions(version, e.lastAffected.value) > 0)
  }

  /** Event `i` opens an interval that the very next event closes above the version, or nothing does. */
  predicate Finds(version: string, events: seq<Event>, i: nat) {
    && i < |events| && IntroducedBy(version, events[i])
    && (i + 1 == |events| || (events[i + 1].introduced.None? && Below(version, events[i + 1])))
  }

  /** Event `m` makes the version affected and no later event ends that. */
  ghost predicate SwitchedOn(version: string, events: seq<Event>, m: nat) {
    m < |events| && IntroducedBy(version, events[m]) && forall i :: m <= i < |events| ==> !SwitchesOff(version, events[i])
  }

  lemma {:induction false} WalkFrom(version: string, events: seq<Event>, k: nat, start: Option<string>)
    requires k <= |events| && forall e :: e in events ==> OneField(e)
    ensures Walk(version, events[k..], start) <==>
      || (start.Some? && Gte(version, start.value)
          && (k == |events| || (events[k].introduced.None? && Below(version, events[k]))))
      || exists i: nat :: k <= i && Finds(version, events, i)
    decreases |events| - k
  {
    hide CompareVersions;
    if k < |events| {
      var e := events[k];
      assert OneField(e) && events[k..][1..] == events[k + 1..];
      WalkFrom(version, events, k + 1, if e.introduced.Some? then e.introduced else None);
      assert (exists i: nat :: k <= i && Finds(version, events, i))
        <==> (Finds(version, events, k) || exists i: nat :: k + 1 <= i && Finds(version, events, i));
    }
  }

  lemma {:induction false} ToggleFrom(version: string, events: seq<Event>, k: nat, on: bool)
    requires k <= |events| && forall e :: e in events ==> OneField(e)
    ensures Toggle(version, events[k..], on) <==>
      || (on && forall i :: k <= i < |events| ==> !SwitchesOff(version, events[i]))
      || exists m: nat :: k <= m && SwitchedOn(version, events, m)
    decreases |events| - k
  {
    hide CompareVersions, Gte;
    if k < |events| {
      var e := events[k];
      assert OneField(e) && events[k..][1..] == events[k + 1..];
      ToggleFrom(version, events, k + 1, (on || IntroducedBy(version, e)) && !SwitchesOff(version, e));
      assert (exists m: nat :: k <= m && SwitchedOn(version, events, m))
        <==> (SwitchedOn(version, events, k) || exists m: nat :: k + 1 <= m && SwitchedOn(version, events, m));
    }
  }

  /** On every list, in whatever order: the walk finds a version exactly when some event introduces it
      and the next event closes above it or there is none; the schema's algorithm does exactly when some
      event introduces it and no later event ends that. */
  lemma {:induction false} VerdictsExactly(version: string, events: seq<Event>)
    requires forall e :: e in events ==> OneField(e)
    ensures Walk(version, events, None) <==> exists i: nat :: Finds(version, events, i)
    ensures Toggle(version, events, false) <==> exists m: nat :: SwitchedOn(version, events, m)
  {
    hide CompareVersions, Gte, Walk, Toggle, OneField;
    assert events[0..] == events;
    WalkFrom(version, events, 0, None);
    ToggleFrom(version, events, 0, false);
  }

  // ----- sorted events -----

  function EventVersion(e: Event): string
    requires OneField(e)
  {
    if e.introduced.Some? then e.introduced.value
    else if e.fixed.Some? then e.fixed.value
    else e.lastAffected.value
  }

  /** Sorted by version; an introduced `0` sorts before everything, so it can only come first. */
  ghost predicate Sorted(events: seq<Event>) {
    && (forall i :: 0 <= i < |events| ==> OneField(events[i]))
    && (forall i, j :: 0 <= i < j < |events| ==> Ordered(events[i], events[j]))
  }

  predicate Ordered(a: Event, b: Event)
    requires OneField(a) && OneField(b)
  {
    && b.introduced != Some("0")
    && (a.introduced == Some("0") || CompareVersions(EventVersion(a), EventVersion(b)) <= 0)
  }

  /** The version lies between an introduced event and another one that directly follows it. */
  predicate Restarted(version: string, events: seq<Event>, m: nat) {
    && m + 1 < |events| && IntroducedBy(version, events[m])
    && events[m + 1].introduced.Some? && !Gte(version, events[m + 1].introduced.value)
  }

  /** The version is the last affected one of an interval, the one event `c` closes. */
  predicate ClosedAt(version: string, events: seq<Event>, c: nat) {
    && 0 < c < |events| && IntroducedBy(version, events[c - 1])
    && events[c].lastAffected.Some? && CompareVersions(version, events[c].lastAffected.value) == 0
  }

  /** The version is the one that event `j` fixes, and no later event introduces it. */
  ghost predicate FixedAt(version: string, events: seq<Event>, j: nat) {
    && j < |events| && events[j].fixed.Some? && CompareVersions(version, events[j].fixed.value) == 0
    && forall i :: j < i < |events| ==> !IntroducedBy(version, events[i])
  }

  /** What follows an event above the version is above the version. */
  lemma {:induction false} AboveLater(version: string, a: Event, b: Event)
    requires OneField(a) && OneField(b) && Ordered(a, b)
    requires a.introduced != Some("0") && CompareVersions(version, EventVersion(a)) < 0
    ensures CompareVersions(version, EventVersion(b)) < 0
  {
    hide CompareVersions;
    VersionsPreorder();
    assert forall x, y :: CompareVersions(x, y) >= 0 ==> CompareVersions(y, x) <= 0;
  }

  /** What precedes an event that introduces the version is at or below the version. */
  lemma {:induction false} BelowEarlier(version: string, a: Event, b: Event)
    requires OneField(a) && OneField(b) && Ordered(a, b) && IntroducedBy(version, b)
    requires a.introduced.None?
    ensures CompareVersions(version, EventVersion(a)) >= 0
  {
    hide CompareVersions;
    VersionsPreorder();
    assert forall x, y :: CompareVersions(x, y) >= 0 ==> CompareVersions(y, x) <= 0;
    assert forall x, y :: CompareVersions(x, y) <= 0 ==> CompareVersions(y, x) >= 0;
  }

  lemma {:induction false} RestartedOn(version: string, events: seq<Event>, m: nat)
    requires Sorted(events) && Restarted(version, events, m)
    ensures SwitchedOn(version, events, m)
  {
    hide CompareVersions;
    var next := events[m + 1];
    assert OneField(events[m]) && OneField(next) && Ordered(events[m], next);
    forall i | m <= i < |events|
      ensures !SwitchesOff(version, events[i])
    {
      assert OneField(events[i]);
      if m + 1 < i {
        assert Ordered(next, events[i]);
        AboveLater(version, next, events[i]);
      }
    }
  }

  /** What is switched on is found, unless the version falls between an event and its restart. */
  lemma {:induction false} OnIsFound(version: string, events: seq<Event>, m: nat)
    requires Sorted(events) && SwitchedOn(version, events, m)
    ensures (exists i: nat :: Finds(version, events, i)) || exists r: nat :: Restarted(version, events, r)
    decreases |events| - m
  {
    hide CompareVersions;
    if m + 1 < |events| {
      var next := events[m + 1];
      assert OneField(next) && !SwitchesOff(version, next);
      if IntroducedBy(version, next) {
        OnIsFound(version, events, m + 1);
      } else if next.introduced.Some? {
        assert Restarted(version, events, m);
      } else {
        assert Finds(version, events, m);
      }
    } else {
      assert Finds(version, events, m);
    }
  }

  /** What is found stays on, unless it is the last affected version of the interval. */
  lemma {:induction false} FoundIsOn(version: string, events: seq<Event>, i: nat)
    requires Sorted(events) && Finds(version, events, i) && !ClosedAt(version, events, i + 1)
    ensures SwitchedOn(version, events, i)
  {
    hide CompareVersions, Gte;
    forall k | i <= k < |events|
      ensures !SwitchesOff(version, events[k])
    {
      assert OneField(events[k]);
      if i < k {
        var next := events[i + 1];
        assert OneField(next) && CompareVersions(version, EventVersion(next)) < 0;
        if i + 1 < k {
          assert Ordered(next, events[k]);
          AboveLater(version, next, events[k]);
        }
      }
    }
  }

  lemma {:induction false} ClosedIsFound(version: string, events: seq<Event>, c: nat)
    requires Sorted(events) && ClosedAt(version, events, c)
    ensures c > 0 && Finds(version, events, c - 1)
  {
    hide CompareVersions;
    assert OneField(events[c]);
  }

  /** The last affected version of an interval stays on unless a later event fixes that same version
      and none introduces it again. */
  lemma {:induction false} ClosedEndsFixed(version: string, events: seq<Event>, c: nat, k: nat)
    requires Sorted(events) && ClosedAt(version, events, c) && c <= k < |events| && SwitchesOff(version, events[k])
    requires forall m: nat :: !SwitchedOn(version, events, m)
    ensures exists j: nat :: FixedAt(version, events, j)
    decreases |events| - k
  {
    hide CompareVersions, Gte;
    if later :| k < later < |events| && SwitchesOff(version, events[later]) {
      ClosedEndsFixed(version, events, c, later);
    } else {
      assert OneField(events[c]) && OneField(events[k]);
      assert c < k && Ordered(events[c], events[k]);
      EqualAbove(version, events[c].lastAffected.value, EventVersion(events[k]));
      forall i | k < i < |events|
        ensures !IntroducedBy(version, events[i])
      {
        assert !SwitchedOn(version, events, i);
      }
      assert FixedAt(version, events, k);
    }
  }

  lemma {:induction false} EqualAbove(v: string, a: string, b: string)
    requires CompareVersions(v, a) == 0 && CompareVersions(a, b) <= 0
    ensures CompareVersions(v, b) <= 0
  {
    hide CompareVersions;
    VersionsPreorder();
  }

  /** A version that is between an event and its restart is found only as a last affected version. */
  lemma {:induction false} RestartedFound(version: string, events: seq<Event>, m: nat, i: nat)
    requires Sorted(events) && Restarted(version, events, m) && Finds(version, events, i)
    ensures ClosedAt(version, events, i + 1)
  {
    hide CompareVersions;
    var next := events[m + 1];
    assert OneField(events[i]) && OneField(events[m]) && OneField(next) && Ordered(events[m], next);
    if i > m + 1 {
      assert Ordered(next, events[i]);
      AboveLater(version, next, events[i]);
    } else {
      assert i + 1 <= m && OneField(events[i + 1]);
      assert i + 1 < m && Ordered(events[i + 1], events[m]);
      BelowEarlier(version, events[i + 1], events[m]);
    }
  }

  /** On sorted lists, restarts and repetitions included, the walk gives a version the verdict of the
      schema's algorithm exactly when both of these hold: if the version lies between an event and its
      restart, then it is the last affected version of an interval; if an event fixes it and none
      introduces it again, then it is not. */
  lemma {:induction false} SortedAgreesExactly(version: string, events: seq<Event>)
    requires Sorted(events)
    ensures Walk(version, events, None) == Toggle(version, events, false) <==>
      && ((exists m: nat :: Restarted(version, events, m)) ==> exists c: nat :: ClosedAt(version, events, c))
      && ((exists j: nat :: FixedAt(version, events, j)) ==> !exists c: nat :: ClosedAt(version, events, c))
  {
    hide CompareVersions, Walk, Toggle, Restarted, ClosedAt, Finds, Sorted;
    SortedFields(events);
    VerdictsExactly(version, events);
    forall m: nat | Restarted(version, events, m)
      ensures SwitchedOn(version, events, m)
      ensures forall i: nat :: Finds(version, events, i) ==> ClosedAt(version, events, i + 1)
    {
      RestartedOn(version, events, m);
      forall i: nat | Finds(version, events, i)
        ensures ClosedAt(version, events, i + 1)
      {
        RestartedFound(version, events, m, i);
      }
    }
    forall i: nat | Finds(version, events, i) && !ClosedAt(version, events, i + 1)
      ensures SwitchedOn(version, events, i)
    {
      FoundIsOn(version, events, i);
    }
    forall c: nat | ClosedAt(version, events, c)
      ensures c > 0 && Finds(version, events, c - 1)
      ensures (exists m: nat :: SwitchedOn(version, events, m)) || exists j: nat :: FixedAt(version, events, j)
    {
      ClosedIsFound(version, events, c);
      ClosedSettles(version, events, c);
    }
    if m: nat :| SwitchedOn(version, events, m) {
      OnIsFound(version, events, m);
    }
  }

  lemma {:induction false} SortedFields(events: seq<Event>)
    requires Sorted(events)
    ensures forall e :: e in events ==> OneField(e)
  {
  }

  lemma {:induction false} ClosedSettles(version: string, events: seq<Event>, c: nat)
    requires Sorted(events) && ClosedAt(version, events, c)
    ensures c > 0
    ensures (exists m: nat :: SwitchedOn(version, events, m)) || exists j: nat :: FixedAt(version, events, j)
  {
    hide CompareVersions, Gte;
    if forall m: nat :: !SwitchedOn(version, events, m) {
      assert !SwitchedOn(version, events, c - 1);
      var k :| c - 1 <= k < |events| && SwitchesOff(version, events[k]);
      assert OneField(events[c - 1]);
      ClosedEndsFixed(version, events, c, k);
    }
  }

  // ----- sorted, alternating events -----

  /** Introduced and closing events take turns, starting with an introduced event. */
  ghost predicate Alternating(events: seq<Event>) {
    Sorted(events) && forall i :: 0 <= i < |events| ==> (events[i].introduced.Some? <==> i % 2 == 0)
  }

  /** The fixed version at `j` equals the last affected version at `i`. */
  predicate Repeats(events: seq<Event>, i: nat, j: nat) {
    && i < j < |events| && events[i].lastAffected.Some? && events[j].fixed.Some?
    && CompareVersions(events[i].lastAffected.value, events[j].fixed.value) == 0
  }

  /** The next event introduces that same version again. */
  predicate Reintroduced(events: seq<Event>, i: nat, j: nat)
    requires Repeats(events, i, j)
  {
    j + 1 < |events| && IntroducedBy(events[i].lastAffected.value, events[j + 1])
  }

  /** Every fixed version that repeats an earlier last affected version is reintroduced at once. */
  ghost predicate Resumed(events: seq<Event>) {
    forall i: nat, j: nat :: Repeats(events, i, j) ==> Reintroduced(events, i, j)
  }

  lemma {:induction false} Reflexive(v: string)
    ensures CompareVersions(v, v) == 0
  {
    VersionsPreorder();
    assert Sign(CompareVersions(v, v)) == -Sign(CompareVersions(v, v));
  }

  lemma {:induction false} LaterIntroduced(events: seq<Event>, i: nat, j: nat, m: nat)
    requires Alternating(events) && Repeats(events, i, j) && !Reintroduced(events, i, j) && j < m < |events|
    ensures !IntroducedBy(events[i].lastAffected.value, events[m])
  {
    hide CompareVersions;
    var v, next := events[i].lastAffected.value, events[j + 1];
    assert OneField(events[j]) && OneField(next) && OneField(events[m]);
    assert Ordered(events[j], next);
    if m > j + 1 && IntroducedBy(v, events[m]) {
      assert Ordered(next, events[m]);
      AboveLater(v, next, events[m]);
    }
  }

  lemma {:induction false} RepeatedClosedAt(events: seq<Event>, i: nat)
    requires Alternating(events) && i < |events| && events[i].lastAffected.Some?
    ensures ClosedAt(events[i].lastAffected.value, events, i)
  {
    hide CompareVersions;
    var v := events[i].lastAffected.value;
    assert OneField(events[i]);
    Reflexive(v);
    assert OneField(events[i - 1]) && Ordered(events[i - 1], events[i]);
    NotAbove(EventVersion(events[i - 1]), v);
  }

  lemma {:induction false} NotAbove(a: string, b: string)
    requires CompareVersions(a, b) <= 0 || a == "0"
    ensures Gte(b, a)
  {
    hide CompareVersions;
    VersionsPreorder();
    assert CompareVersions(a, b) == -CompareVersions(b, a);
  }

  /** A repeated version that is not reintroduced is found by the walk and switched off by the
      algorithm. */
  lemma {:induction false} RepeatedDisagrees(events: seq<Event>, i: nat, j: nat)
    requires Alternating(events) && Repeats(events, i, j) && !Reintroduced(events, i, j)
    ensures var v := events[i].lastAffected.value; Walk(v, events, None) && !Toggle(v, events, false)
  {
    hide CompareVersions, Walk, Toggle, Finds, ClosedAt, Reintroduced, Sorted;
    var v := events[i].lastAffected.value;
    SortedFields(events);
    VerdictsExactly(v, events);
    RepeatedClosedAt(events, i);
    ClosedIsFound(v, events, i);
    forall m: nat | j < m < |events|
      ensures !IntroducedBy(v, events[m])
    {
      LaterIntroduced(events, i, j, m);
    }
    assert SwitchesOff(v, events[j]);
    assert forall m: nat :: !SwitchedOn(v, events, m);
  }

  /** On alternating lists that are resumed, no version is both closed and fixed for good. */
  lemma {:induction false} ResumedNotFixed(version: string, events: seq<Event>, c: nat, j: nat)
    requires Alternating(events) && Resumed(events) && ClosedAt(version, events, c)
    ensures !FixedAt(version, events, j)
  {
    hide CompareVersions;
    if FixedAt(version, events, j) && c < j {
      assert OneField(events[j]);
      EqualVersionsCompareAlike(version, events[c].lastAffected.value, events[j].fixed.value);
      assert Repeats(events, c, j) && Reintroduced(events, c, j);
      EqualVersionsCompareAlike(version, events[c].lastAffected.value, events[j + 1].introduced.value);
    }
  }

  /** On sorted alternating lists the walk gives the verdict of the schema's algorithm for every
      version exactly when each fixed version that repeats an earlier last affected version is
      reintroduced at once; in particular when no version is repeated so. */
  lemma {:induction false} AlternatingAgreesExactly(events: seq<Event>)
    requires Alternating(events)
    ensures (forall v :: Walk(v, events, None) == Toggle(v, events, false)) <==> Resumed(events)
  {
    hide CompareVersions, Walk, Toggle, Repeats, Reintroduced, ClosedAt, FixedAt;
    if Resumed(events) {
      forall v
        ensures Walk(v, events, None) == Toggle(v, events, false)
      {
        SortedAgreesExactly(v, events);
        assert forall m: nat :: !Restarted(v, events, m);
        forall c: nat, j: nat | ClosedAt(v, events, c)
          ensures !FixedAt(v, events, j)
        {
          ResumedNotFixed(v, events, c, j);
        }
      }
    } else {
      var i: nat, j: nat :| Repeats(events, i, j) && !Reintroduced(events, i, j);
      assert i < j < |events| && events[i].lastAffected.Some? by { RepeatsWithin(events, i, j); }
      RepeatedDisagrees(events, i, j);
      var v := events[i].lastAffected.value;
      assert Walk(v, events, None) != Toggle(v, events, false);
    }
  }

  lemma {:induction false} RepeatsWithin(events: seq<Event>, i: nat, j: nat)
    requires Repeats(events, i, j)
    ensures i < j < |events| && events[i].lastAffected.Some?
  {
  }

  /** The verdict depends on the version only up to equal comparison, on any event list whatever. */
  lemma {:induction false} EqualVersionsSameVerdict(v: string, w: string, events: seq<Event>, start: Option<string>)
    requires CompareVersions(v, w) == 0
    ensures Walk(v, events, start) == Walk(w, events, start)
  {
    hide CompareVersions;
    if start.Some? {
      EqualVersionsCompareAlike(v, w, start.value);
    }
    if events != [] {
      var e, rest := events[0], events[1..];
      EqualVersionsSameVerdict(v, w, rest, e.introduced);
      EqualVersionsSameVerdict(v, w, rest, None);
      EqualVersionsSameVerdict(v, w, rest, start);
      if e.fixed.Some? {
        EqualVersionsCompareAlike(v, w, e.fixed.value);
      }
      if e.lastAffected.Some? {
        EqualVersionsCompareAlike(v, w, e.lastAffected.value);
      }
    }
  }

  // ----- each condition is needed -----

  lemma {:induction false} OneDigit(c: char)
    requires IsDigit(c)
    ensures Normalize([c]) == [c] && SplitPrerelease([c]) == ([c], None) && Split([c], '.') == [[c]]
  {
    CutNone([c], '+');
    CutNone([c], '-');
    CutNone([c], '.');
  }

  lemma {:induction false} LexOne<T>(cmp: (T, T) -> int, x: T, y: T)
    ensures Lex(cmp, [x], [y]) == cmp(x, y)
  {
    assert [x][1..] == [] && [y][1..] == [];
    assert Lex(cmp, [x][1..], [y][1..]) == 0;
  }

  lemma {:induction false} CompareDigits(c: char, d: char)
    requires IsDigit(c) && IsDigit(d)
    ensures CompareVersions([c], [d]) == CompareChars(c, d)
  {
    OneDigit(c);
    OneDigit(d);
    assert [c][..0] == [] && [d][..0] == [];
    assert DecimalValue([c]) == c as int - '0' as int && DecimalValue([d]) == d as int - '0' as int;
    assert CompareSegments([c], [d]) == CompareChars(c, d);
    LexOne(CompareSegments, [c], [d]);
  }

  /** An interval restarted before it is closed is lost to the walk. */
  lemma {:induction false} RestartDisagrees()
    ensures var events := [Introduced("1"), Introduced("2"), Fixed("3")];
      WellFormed(events) && !Walk("1", events, None) && Toggle("1", events, false)
  {
    hide CompareVersions;
    var events := [Introduced("1"), Introduced("2"), Fixed("3")];
    CompareDigits('1', '1');
    CompareDigits('1', '2');
    CompareDigits('1', '3');
    assert events[1..][1..] == [Fixed("3")] && events[1..][1..][1..] == [];
    assert Walk("1", [Fixed("3")], Some("2")) == Walk("1", [], None);
    assert Toggle("1", [Fixed("3")], true) == Toggle("1", [], true);
    assert Toggle("1", events[1..], true) == Toggle("1", [Fixed("3")], true);
  }

  /** A fixed version that repeats a last affected version switches off what the walk has found. */
  lemma {:induction false} RepeatedCloseDisagrees()
    ensures var events := [Introduced("1"), LastAffected("2"), Introduced("2"), Fixed("2")];
      NoRestart(events, None) && Walk("2", events, None) && !Toggle("2", events, false)
  {
    hide CompareVersions;
    var events := [Introduced("1"), LastAffected("2"), Introduced("2"), Fixed("2")];
    CompareDigits('2', '1');
    CompareDigits('2', '2');
    var e1, e2 := events[1..], events[2..];
    assert e1[1..] == e2 && e2[1..] == [Fixed("2")] && e2[1..][1..] == [];
    assert NoRestart([Fixed("2")], Some("2"));
    assert NoRestart(e2, None) && NoRestart(e1, Some("1"));
    assert Walk("2", e1, Some("1"));
    assert !Toggle("2", [Fixed("2")], true);
    assert !Toggle("2", e2, true);
    assert !Toggle("2", e1, true);
  }

  // ----- whole advisories -----

  datatype Package = Package(name: Option<string>, ecosystem: Option<string>)

  datatype Range = Range(kind: Option<string>, events: seq<Event>)

  datatype Affected = Affected(package: Option<Package>, versions: seq<string>, ranges: seq<Range>)

  /** A text that is there and not empty. */
  predicate Stated(x: Option<string>) { x.Some? && x.value != "" }

  /** An entry is about a package unless both state a name and the names differ, or both an ecosystem and
      the ecosystems differ. */
  predicate EntryApplies(entry: Affected, pkg: Option<Package>) {
    pkg.Some? && entry.package.Some? ==>
      var wanted, stated := pkg.value, entry.package.value;
      && (Stated(wanted.name) && Stated(stated.name) ==> stated.name == wanted.name)
      && (Stated(wanted.ecosystem) && Stated(stated.ecosystem) ==> stated.ecosystem == wanted.ecosystem)
  }

  predicate RangeAffects(version: string, range: Range) {
    range.kind != Some("GIT") && Walk(version, range.events, None)
  }

  /** An explicit version list is authoritative; otherwise any range but a GIT one may match. */
  predicate EntryAffects(version: string, entry: Affected) {
    if entry.versions != [] then version in entry.versions || "v" + version in entry.versions
    else exists k :: 0 <= k < |entry.ranges| && RangeAffects(version, entry.ranges[k])
  }

  method VersionAffected(version: string, affected: seq<Affected>, pkg: Option<Package>) returns (r: bool)
    ensures r <==> exists i :: 0 <= i < |affected| && EntryApplies(affected[i], pkg) && EntryAffects(version, affected[i])
  {
    hide Walk;
    for i := 0 to |affected|
      invariant forall j :: 0 <= j < i ==> !(EntryApplies(affected[j], pkg) && EntryAffects(version, affected[j]))
    {
      var entry := affected[i];
      if pkg.Some? && entry.package.Some? {
        var wanted, stated := pkg.value, entry.package.value;
        if Stated(wanted.name) && Stated(stated.name) && stated.name != wanted.name {
          continue;
        }
        if Stated(wanted.ecosystem) && Stated(stated.ecosystem) && stated.ecosystem != wanted.ecosystem {
          continue;
        }
      }
      assert EntryApplies(entry, pkg);
      if entry.versions != [] {
        if version in entry.versions || "v" + version in entry.versions {
          return true;
        }
        continue;
      }
      for k := 0 to |entry.ranges|
        invariant forall l :: 0 <= l < k ==> !RangeAffects(version, entry.ranges[l])
      {
        if entry.ranges[k].kind == Some("GIT") {
          continue;
        }
        var inRange := InRange(version, entry.ranges[k].events);
        if inRange {
          assert RangeAffects(version, entry.ranges[k]);
          return true;
        }
      }
    }
    return false;
  }

  /** The verdict on a whole advisory. */
  ghost predicate Affects(version: string, affected: seq<Affected>, pkg: Option<Package>) {
    exists i :: 0 <= i < |affected| && EntryApplies(affected[i], pkg) && EntryAffects(version, affected[i])
  }

  predicate Differs(x: Option<string>, name: string) { x.Some? && x.value != "" && x.value != name }

  /** Entry by entry: an entry about another package or another ecosystem does not count; one that lists
      versions counts exactly when it lists the version, with or without a leading `v`, whatever its
      ranges; one without such a list counts exactly when the walk finds the version in one of its ranges,
      and a range of commits, to which the walk does not apply, is passed over. */
  lemma {:induction false} EntryByEntry(version: string, entry: Affected, rest: seq<Affected>, name: string, ecosystem: string)
    requires name != "" && ecosystem != ""
    ensures var pkg := Some(Package(Some(name), Some(ecosystem)));
      var other := entry.package.Some? && (Differs(entry.package.value.name, name) || Differs(entry.package.value.ecosystem, ecosystem));
      var counts :=
        if entry.versions != [] then version in entry.versions || ("v" + version) in entry.versions
        else exists k :: 0 <= k < |entry.ranges| && entry.ranges[k].kind != Some("GIT") && Walk(version, entry.ranges[k].events, None);
      && (Affects(version, [entry] + rest, pkg) <==> (!other && counts) || Affects(version, rest, pkg))
      && (Affects(version, [entry] + rest, None) <==> counts || Affects(version, rest, None))
  {
    hide Walk;
    var all := [entry] + rest;
    assert all[0] == entry && forall i :: 0 <= i < |rest| ==> all[i + 1] == rest[i];
    forall pkg: Option<Package>
      ensures Affects(version, all, pkg) <==>
        (EntryApplies(entry, pkg) && EntryAffects(version, entry)) || Affects(version, rest, pkg)
    {
      assert Affects(version, all, pkg) ==>
        (EntryApplies(all[0], pkg) && EntryAffects(version, all[0])) || Affects(version, rest, pkg);
      assert EntryApplies(all[0], pkg) && EntryAffects(version, all[0]) ==> Affects(version, all, pkg);
      if Affects(version, rest, pkg) {
        var i :| 0 <= i < |rest| && EntryApplies(rest[i], pkg) && EntryAffects(version, rest[i]);
        assert EntryApplies(all[i + 1], pkg) && EntryAffects(version, all[i + 1]);
      }
    }
    var pkg := Some(Package(Some(name), Some(ecosystem)));
    var other := entry.package.Some? && (Differs(entry.package.value.name, name) || Differs(entry.package.value.ecosystem, ecosystem));
    assert EntryApplies(entry, pkg) <==> !other;
    assert Affects(version, all, pkg) <==> (EntryApplies(entry, pkg) && EntryAffects(version, entry)) || Affects(version, rest, pkg);
    assert Affects(version, all, None) <==> (EntryApplies(entry, None) && EntryAffects(version, entry)) || Affects(version, rest, None);
    assert (exists k :: 0 <= k < |entry.ranges| && RangeAffects(version, entry.ranges[k])) <==>
      (exists k :: 0 <= k < |entry.ranges| && entry.ranges[k].kind != Some("GIT") && Walk(version, entry.ranges[k].events, None));
  }

  // ----- events with several fields, or with none -----

  /** What the walk takes an event for: introduced before fixed before last affected. */
  function Reduced(e: Event): Event {
    if e.introduced.Some? then Event(e.introduced, None, None)
    else if e.fixed.Some? then Event(None, e.fixed, None)
    else e
  }

  /** The events that the walk looks at, each with the one field that counts. */
  function ReducedAll(events: seq<Event>): seq<Event> {
    if events == [] then []
    else
      var e := Reduced(events[0]);
      (if e == Event(None, None, None) then [] else [e]) + ReducedAll(events[1..])
  }

  /** So the verdict on any list whatever is that on a list of one-field events. */
  lemma {:induction false} WalkReduced(version: string, events: seq<Event>, start: Option<string>)
    ensures Walk(version, events, start) == Walk(version, ReducedAll(events), start)
    ensures forall e :: e in ReducedAll(events) ==> OneField(e)
  {
    hide CompareVersions, Gte;
    if events != [] {
      var e, rest := events[0], events[1..];
      var reduced := ReducedAll(rest);
      var all := [Reduced(e)] + reduced;
      assert all[0] == Reduced(e) && all[1..] == reduced;
      WalkReduced(version, rest, start);
      WalkReduced(version, rest, e.introduced);
      WalkReduced(version, rest, None);
      if Reduced(e) != Event(None, None, None) {
        assert ReducedAll(events) == all;
        hide ReducedAll;
        assert Walk(version, all, start) == Walk(version, events, start);
      } else {
        assert [] + reduced == reduced;
      }
    }
  }

  /** A range contains a version exactly when some event introduces it and the next event that says
      anything closes above it or there is none. */
  lemma {:induction false} RangeContainsExactly(version: string, events: seq<Event>)
    ensures Walk(version, events, None) <==> exists i: nat :: Finds(version, ReducedAll(events), i)
  {
    hide Walk, Finds, OneField;
    WalkReduced(version, events, None);
    VerdictsExactly(version, ReducedAll(events));
  }
}
