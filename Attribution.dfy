/**
 * One call of `track_app_usage`, as a function of the tracker's state and
 * the values the tracker reads from the outside world: the current time
 * `now` (seconds on one clock), the idle time the OS reports and the app
 * name resolved for the foreground window (`None` when resolution failed).
 * Time is always credited to the app that was active before the call.
 */
module Attribution {
  import opened Optional
  import opened UsageLedger

  /** A switch is committed only after at least this many seconds. */
  const DEBOUNCE_THRESHOLD: real := 5.0
  /** Idle time, in seconds, from which the user counts as away. */
  const IDLE_THRESHOLD: real := 90.0

  /** Seconds per app name. */
  type AppLedger = Ledger<string>

  /** The ledger `app_usage` and the baseline `(last_active_window, last_check_time)`. */
  datatype TrackerState = TrackerState(usage: AppLedger, lastActive: Option<string>, lastCheck: real)

  /** Python truthiness of `last_active_window`: present and not the empty string. */
  predicate Truthy(app: Option<string>)
    ensures Truthy(app) ==> app.Some? && |app.value| > 0
  {
    app.Some? && app.value != ""
  }

  /** `max(0, x)`. */
  function Max0(x: real): (r: real)
    ensures r >= 0.0 && r >= x
    ensures r == x || r == 0.0
  {
    if x > 0.0 then x else 0.0
  }

  /**
   * The seconds one call credits to the app that was active before it:
   * nothing on the first observation, when no time passed or when that app
   * is falsy; the part before idle began when the user is idle; otherwise
   * all the elapsed time.
   */
  function Credited(s: TrackerState, now: real, idle: real): (c: real)
    ensures 0.0 <= c <= Max0(now - s.lastCheck)
    ensures c > 0.0 ==> Truthy(s.lastActive)
  {
    var elapsed := now - s.lastCheck;
    if s.lastActive.None? || elapsed <= 0.0 || !Truthy(s.lastActive) then 0.0
    else if idle >= IDLE_THRESHOLD then Max0(elapsed - idle)
    else elapsed
  }

  /**
   * The baseline app after one call: the resolved app on the first
   * observation, none once the user is idle, and the resolved app after a
   * change only when the change outlasted the debounce threshold.
   */
  function NextActive(s: TrackerState, now: real, idle: real, app: Option<string>): (r: Option<string>)
    ensures r == s.lastActive || r == app || r.None?
    ensures s.lastActive.Some? && now - s.lastCheck > 0.0 && idle >= IDLE_THRESHOLD ==> r.None?
    ensures s.lastActive.Some? && now - s.lastCheck > 0.0 && idle < IDLE_THRESHOLD ==>
      (r != s.lastActive <==> app != s.lastActive && now - s.lastCheck >= DEBOUNCE_THRESHOLD)
  {
    var elapsed := now - s.lastCheck;
    if s.lastActive.None? then app
    else if elapsed <= 0.0 then s.lastActive
    else if idle >= IDLE_THRESHOLD then None
    else if app != s.lastActive && elapsed >= DEBOUNCE_THRESHOLD then app
    else s.lastActive
  }

  /** One call of `track_app_usage`: credit, move the baseline app, and read the clock. */
  function Step(s: TrackerState, now: real, idle: real, app: Option<string>): (r: TrackerState)
    requires s.usage.Valid()
    ensures r.usage.Valid()
    ensures r.lastCheck == now
  {
    var c := Credited(s, now, idle);
    var usage := if c > 0.0 then Credit(s.usage, s.lastActive.value, c) else s.usage;
    TrackerState(usage, NextActive(s, now, idle, app), now)
  }

  /** With no baseline app, a step only takes the resolved app and `now` as the baseline. */
  lemma StepInitialises(s: TrackerState, now: real, idle: real, app: Option<string>)
    requires s.usage.Valid() && s.lastActive.None?
    ensures Step(s, now, idle, app) == TrackerState(s.usage, app, now)
  {
  }

  /** A step that sees no time pass only moves `last_check_time` to `now`. */
  lemma StepRebaselines(s: TrackerState, now: real, idle: real, app: Option<string>)
    requires s.usage.Valid() && s.lastActive.Some?
    requires now - s.lastCheck <= 0.0
    ensures Step(s, now, idle, app) == TrackerState(s.usage, s.lastActive, now)
  {
  }

  /**
   * An idle step credits exactly `max(0, elapsed - idle)` to the previous
   * app (when that is positive and the app truthy) and drops the baseline
   * app. No other entry changes, a key is added (at the end of the key
   * order) only when something is credited, and a step that credits nothing
   * leaves the ledger as it was.
   */
  lemma StepIdle(s: TrackerState, now: real, idle: real, app: Option<string>)
    requires s.usage.Valid() && s.lastActive.Some?
    requires now - s.lastCheck > 0.0 && idle >= IDLE_THRESHOLD
    ensures var r := Step(s, now, idle, app);
      var c := if Truthy(s.lastActive) then Max0(now - s.lastCheck - idle) else 0.0;
      && r.lastActive.None? && r.lastCheck == now
      && Get(r.usage, s.lastActive.value) == Get(s.usage, s.lastActive.value) + c
      && (forall k :: k != s.lastActive.value ==> Get(r.usage, k) == Get(s.usage, k))
      && r.usage.secs.Keys == s.usage.secs.Keys + (if c > 0.0 then {s.lastActive.value} else {})
      && r.usage.order == s.usage.order
           + (if c > 0.0 && s.lastActive.value !in s.usage.secs then [s.lastActive.value] else [])
      && (c == 0.0 ==> r.usage == s.usage)
      && Total(r.usage) == Total(s.usage) + c
  {
    var c := Credited(s, now, idle);
    if c > 0.0 {
      CreditGet(s.usage, s.lastActive.value, c);
      TotalCredit(s.usage, s.lastActive.value, c);
    }
  }

  /**
   * A step while the user is active credits the whole elapsed time to the
   * previous app (from 0 if it had no entry), touches no other entry, adds a
   * key (at the end of the key order) only when it credits, and moves to
   * the resolved app only when it differs and at least DEBOUNCE_THRESHOLD
   * seconds passed.
   */
  lemma StepActive(s: TrackerState, now: real, idle: real, app: Option<string>)
    requires s.usage.Valid() && s.lastActive.Some?
    requires now - s.lastCheck > 0.0 && idle < IDLE_THRESHOLD
    ensures var r := Step(s, now, idle, app);
      var c := if Truthy(s.lastActive) then now - s.lastCheck else 0.0;
      && r.lastCheck == now
      && Get(r.usage, s.lastActive.value) == Get(s.usage, s.lastActive.value) + c
      && (forall k :: k != s.lastActive.value ==> Get(r.usage, k) == Get(s.usage, k))
      && r.usage.secs.Keys == s.usage.secs.Keys + (if c > 0.0 then {s.lastActive.value} else {})
      && r.usage.order == s.usage.order
           + (if c > 0.0 && s.lastActive.value !in s.usage.secs then [s.lastActive.value] else [])
      && (c == 0.0 ==> r.usage == s.usage)
      && Total(r.usage) == Total(s.usage) + c
      && (r.lastActive != s.lastActive <==> app != s.lastActive && now - s.lastCheck >= DEBOUNCE_THRESHOLD)
      && (r.lastActive != s.lastActive ==> r.lastActive == app)
  {
    var c := Credited(s, now, idle);
    if c > 0.0 {
      CreditGet(s.usage, s.lastActive.value, c);
      TotalCredit(s.usage, s.lastActive.value, c);
    }
  }

  /**
   * Conservation: one step adds to the ledger's total exactly what it
   * credits, which lies between 0 and the elapsed time.
   */
  lemma StepCreditBounded(s: TrackerState, now: real, idle: real, app: Option<string>)
    requires s.usage.Valid()
    ensures Total(Step(s, now, idle, app).usage) == Total(s.usage) + Credited(s, now, idle)
    ensures Total(s.usage) <= Total(Step(s, now, idle, app).usage) <= Total(s.usage) + Max0(now - s.lastCheck)
  {
    var c := Credited(s, now, idle);
    if c > 0.0 {
      TotalCredit(s.usage, s.lastActive.value, c);
    }
  }

  /** A step never removes a key nor lowers an entry, so non-negative entries stay so. */
  lemma StepGrows(s: TrackerState, now: real, idle: real, app: Option<string>)
    requires s.usage.Valid()
    ensures Grows(s.usage, Step(s, now, idle, app).usage)
    ensures NonNeg(s.usage) ==> NonNeg(Step(s, now, idle, app).usage)
  {
    var c := Credited(s, now, idle);
    if c > 0.0 {
      CreditGrows(s.usage, s.lastActive.value, c);
    }
  }

  /** After an idle step the next step starts afresh from the app it resolves. */
  lemma IdleThenReinitialises(s: TrackerState, t1: real, idle1: real, app1: Option<string>,
                              t2: real, idle2: real, app2: Option<string>)
    requires s.usage.Valid() && s.lastActive.Some?
    requires t1 - s.lastCheck > 0.0 && idle1 >= IDLE_THRESHOLD
    ensures var r1 := Step(s, t1, idle1, app1);
      Step(r1, t2, idle2, app2) == TrackerState(r1.usage, app2, t2)
  {
  }

  /** One poll of the tracking loop: the clock, the idle time and the resolved app. */
  datatype Tick = Tick(now: real, idle: real, app: Option<string>)

  /** Successive calls of `track_app_usage`. */
  function Run(s: TrackerState, ticks: seq<Tick>): (r: TrackerState)
    requires s.usage.Valid()
    ensures r.usage.Valid()
    decreases |ticks|
  {
    if ticks == [] then s
    else Run(Step(s, ticks[0].now, ticks[0].idle, ticks[0].app), ticks[1..])
  }

  /** The ticks' clock readings never go back, starting from `start`. */
  ghost predicate Chronological(start: real, ticks: seq<Tick>)
    decreases |ticks|
  {
    ticks == [] || (start <= ticks[0].now && Chronological(ticks[0].now, ticks[1..]))
  }

  /** The clock reading of the last tick, or `start` when there is none. */
  function End(start: real, ticks: seq<Tick>): real {
    if ticks == [] then start else ticks[|ticks| - 1].now
  }

  /**
   * No double counting: over a run whose clock never goes back, the time
   * credited to all apps together never exceeds the wall-clock time covered.
   */
  lemma {:induction false} RunCreditBounded(s: TrackerState, ticks: seq<Tick>)
    requires s.usage.Valid()
    requires Chronological(s.lastCheck, ticks)
    ensures Total(s.usage) <= Total(Run(s, ticks).usage) <= Total(s.usage) + (End(s.lastCheck, ticks) - s.lastCheck)
    decreases |ticks|
  {
    if ticks != [] {
      var t := ticks[0];
      var s' := Step(s, t.now, t.idle, t.app);
      StepCreditBounded(s, t.now, t.idle, t.app);
      RunCreditBounded(s', ticks[1..]);
      assert Run(s, ticks) == Run(s', ticks[1..]);
      assert End(s'.lastCheck, ticks[1..]) == End(s.lastCheck, ticks);
    }
  }

  /** Over any run, no entry of the ledger is lost or decreases. */
  lemma {:induction false} RunGrows(s: TrackerState, ticks: seq<Tick>)
    requires s.usage.Valid()
    ensures Grows(s.usage, Run(s, ticks).usage)
    decreases |ticks|
  {
    if ticks != [] {
      var s' := Step(s, ticks[0].now, ticks[0].idle, ticks[0].app);
      StepGrows(s, ticks[0].now, ticks[0].idle, ticks[0].app);
      RunGrows(s', ticks[1..]);
      assert Run(s, ticks) == Run(s', ticks[1..]);
      GrowsTransitive(s.usage, s'.usage, Run(s', ticks[1..]).usage);
    }
  }

  /** Every entry stays non-negative over any run that starts from non-negative entries. */
  lemma {:induction false} RunKeepsNonNeg(s: TrackerState, ticks: seq<Tick>)
    requires s.usage.Valid() && NonNeg(s.usage)
    ensures NonNeg(Run(s, ticks).usage)
    decreases |ticks|
  {
    if ticks != [] {
      StepGrows(s, ticks[0].now, ticks[0].idle, ticks[0].app);
      RunKeepsNonNeg(Step(s, ticks[0].now, ticks[0].idle, ticks[0].app), ticks[1..]);
    }
  }

  /** 120 s elapsed with 100 s idle: exactly 20 s go to the previous app and the baseline app is dropped. */
  lemma IdleExample(usage: AppLedger)
    requires usage.Valid()
    ensures var r := Step(TrackerState(usage, Some("A"), 0.0), 120.0, 100.0, Some("B"));
      Get(r.usage, "A") == Get(usage, "A") + 20.0 && r.lastActive.None? && r.lastCheck == 120.0
  {
    StepIdle(TrackerState(usage, Some("A"), 0.0), 120.0, 100.0, Some("B"));
  }

  /**
   * A switch seen after 3 s is debounced: A keeps the baseline and is credited
   * those 3 s; a switch seen 7 s later is committed and A is credited again,
   * 10 s in all.
   */
  lemma DebounceExample()
    ensures var s0 := Step(TrackerState(Empty(), None, 0.0), 0.0, 0.0, Some("A"));
      var s1 := Step(s0, 3.0, 0.0, Some("B"));
      var s2 := Step(s1, 10.0, 0.0, Some("C"));
      && s1.lastActive == Some("A") && s1.lastCheck == 3.0
      && s2.lastActive == Some("C") && Get(s2.usage, "A") == 10.0 && Total(s2.usage) == 10.0
  {
    var e: AppLedger := Empty();
    var s0 := Step(TrackerState(e, None, 0.0), 0.0, 0.0, Some("A"));
    assert s0 == TrackerState(e, Some("A"), 0.0);
    var s1 := Step(s0, 3.0, 0.0, Some("B"));
    assert Credited(s0, 3.0, 0.0) == 3.0;
    CreditGet(e, "A", 3.0);
    TotalCredit(e, "A", 3.0);
    assert Credited(s1, 10.0, 0.0) == 7.0;
    CreditGet(s1.usage, "A", 7.0);
    TotalCredit(s1.usage, "A", 7.0);
  }
}
