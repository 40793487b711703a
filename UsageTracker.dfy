/**
 * The tracker's module state — `app_usage`, `last_active_window` and
 * `last_check_time` — as one object, with the operations that change it in
 * place (`track_app_usage`, `reset_tracking`, `load_usage_from_file`) and
 * the report that reads it (`get_top_apps`).
 */
module UsageTracker {
  import opened Optional
  import opened UsageLedger
  import opened TopApps
  import opened Attribution

  /** Entries in the usage report by default. */
  const TOP_APP_LIMIT: int := 5

  class Tracker {
    var usage: AppLedger
    var lastActive: Option<string>
    var lastCheck: real

    ghost predicate Valid()
      reads this
    {
      usage.Valid()
    }

    /** The tracker's state as a value. */
    function State(): TrackerState
      reads this
    {
      TrackerState(usage, lastActive, lastCheck)
    }

    /** Start-up: an empty ledger, no baseline app, the clock read at `start`. */
    constructor (start: real)
      ensures Valid()
      ensures usage == Empty() && lastActive.None? && lastCheck == start
    {
      usage := Empty();
      lastActive := None;
      lastCheck := start;
    }

    /**
     * `track_app_usage()`: `now` is the clock, `idle` the idle time the OS
     * reports, `app` the app resolved for the foreground window.
     */
    method TrackAppUsage(now: real, idle: real, app: Option<string>)
      requires Valid()
      modifies this
      ensures Valid()
      ensures usage == Step(old(State()), now, idle, app).usage
      ensures lastActive == Step(old(State()), now, idle, app).lastActive
      ensures lastCheck == now
    {
      ghost var s0 := State();
      if lastActive.None? {
        // first observation
        assert Credited(s0, now, idle) == 0.0;
        lastActive := app;
        lastCheck := now;
        return;
      }
      var elapsed := now - lastCheck;
      if elapsed <= 0.0 {
        assert Credited(s0, now, idle) == 0.0;
        lastCheck := now;
        return;
      }
      if idle >= IDLE_THRESHOLD {
        // the user is idle: credit only what came before, then drop the baseline app
        var active := Max0(elapsed - idle);
        assert Credited(s0, now, idle) == if Truthy(lastActive) then active else 0.0;
        if active > 0.0 && Truthy(lastActive) {
          usage := Credit(usage, lastActive.value, active);
        }
        lastCheck := now;
        lastActive := None;
        return;
      }
      assert Credited(s0, now, idle) == if Truthy(lastActive) then elapsed else 0.0;
      if Truthy(lastActive) {
        usage := Credit(usage, lastActive.value, elapsed);
      }
      if app != lastActive {
        if elapsed >= DEBOUNCE_THRESHOLD {
          lastActive := app;
        }
      }
      lastCheck := now;
    }

    /** `get_top_apps(limit)`: builds the report entry by entry. */
    method GetTopApps(limit: int) returns (result: seq<TopApp<string>>)
      requires Valid()
      ensures result == Report(usage, limit)
    {
      var sorted := SortDesc(Items(usage));
      var top := Slice(sorted, limit);
      result := [];
      var i := 0;
      while i < |top|
        invariant 0 <= i <= |top|
        invariant result == Report(usage, limit)[..i]
      {
        var minutes := Minutes(top[i].secs);
        result := result + [TopApp(top[i].name, minutes)];
        i := i + 1;
      }
    }

    /** The `/api/app-usage` route: `get_top_apps()` with its default limit. */
    method GetAppUsage() returns (result: seq<TopApp<string>>)
      requires Valid()
      ensures result == Report(usage, TOP_APP_LIMIT)
      ensures |result| <= TOP_APP_LIMIT
    {
      result := GetTopApps(TOP_APP_LIMIT);
    }

    /** `reset_tracking()`: `app_usage.clear()`; the baseline is left alone. */
    method ResetTracking()
      requires Valid()
      modifies this
      ensures Valid()
      ensures usage == Empty()
      ensures lastActive == old(lastActive) && lastCheck == old(lastCheck)
    {
      usage := Clear(usage);
    }

    /**
     * `load_usage_from_file()` over the already parsed `"usage"` object:
     * `None` when the file is missing or unreadable, which changes nothing.
     */
    method LoadUsage(loaded: Option<AppLedger>)
      requires Valid()
      requires loaded.Some? ==> loaded.value.Valid()
      modifies this
      ensures Valid()
      ensures usage == if loaded.Some? then Merge(old(usage), loaded.value) else old(usage)
      ensures lastActive == old(lastActive) && lastCheck == old(lastCheck)
    {
      if loaded.Some? {
        usage := Merge(usage, loaded.value);
      }
    }
  }
}
