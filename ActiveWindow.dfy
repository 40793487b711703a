/**
 * The name-matching rule of `get_active_window_process`: given the
 * foreground window's title, the foreground process's name and the names of
 * all running processes (the OS queries are inputs here), pick the first
 * process whose name, with every ".exe" removed and then lower-cased, occurs
 * in the lower-cased title; without a match, fall back to the foreground
 * process. Either way the name goes through `get_app_name`.
 */
module ActiveWindow {
  import opened Optional
  import opened AppNames

  /** `s.replace('.exe', '')`: every ".exe", scanning left to right without overlap, is dropped. */
  function StripExe(s: string): (r: string)
    ensures |r| <= |s|
  {
    if |s| < 4 then s
    else if s[..4] == ".exe" then StripExe(s[4..])
    else [s[0]] + StripExe(s[1..])
  }

  /** Python's `p in t` on strings: `p` occurs in `t` at some position. */
  predicate Contains(t: string, p: string)
    ensures Contains(t, p) ==> |p| <= |t|
    decreases |t|
  {
    p <= t || (t != [] && Contains(t[1..], p))
  }

  /** `Contains` agrees with the position-based definition of a substring. */
  lemma {:induction false} ContainsIff(t: string, p: string)
    ensures Contains(t, p) <==> exists i :: 0 <= i <= |t| && p <= t[i..]
  {
    if p <= t {
      assert p <= t[0..];
    } else if t != [] {
      ContainsIff(t[1..], p);
      if exists i :: 0 <= i <= |t[1..]| && p <= t[1..][i..] {
        var i :| 0 <= i <= |t[1..]| && p <= t[1..][i..];
        assert t[1..][i..] == t[i + 1..];
      }
      if exists i :: 0 <= i <= |t| && p <= t[i..] {
        var i :| 0 <= i <= |t| && p <= t[i..];
        assert i != 0;
        assert t[1..][i - 1..] == t[i..];
      }
    } else {
      assert forall i :: 0 <= i <= |t| ==> t[i..] == [];
    }
  }

  /** A name that contains no ".exe" is left as it is. */
  lemma {:induction false} StripExeIdentity(s: string)
    requires !Contains(s, ".exe")
    ensures StripExe(s) == s
  {
    if |s| >= 4 {
      assert s[..4] != ".exe" by { assert !(".exe" <= s); }
      StripExeIdentity(s[1..]);
      assert s == [s[0]] + s[1..];
    }
  }

  /** A character other than '.' can never start a ".exe" and is kept. */
  lemma StripExeKeepsHead(s: string)
    requires s != [] && s[0] != '.'
    ensures StripExe(s) == [s[0]] + StripExe(s[1..])
  {
    if |s| >= 4 {
      assert s[..4][0] != ".exe"[0];
    }
  }

  /** A dot-free executable stem gets its ".exe" removed: "chrome.exe" becomes "chrome". */
  lemma {:induction false} StripExeSuffix(stem: string)
    requires forall i :: 0 <= i < |stem| ==> stem[i] != '.'
    ensures StripExe(stem + ".exe") == stem
  {
    if stem == [] {
      assert stem + ".exe" == ".exe";
      assert StripExe(".exe") == StripExe([]);
    } else {
      var s := stem + ".exe";
      StripExeKeepsHead(s);
      assert s[1..] == stem[1..] + ".exe";
      StripExeSuffix(stem[1..]);
    }
  }

  /** The process-name test of the loop; a missing or empty name never matches. */
  predicate Matches(name: Option<string>, title: string)
    ensures Matches(name, title) ==> name.Some? && name.value != "" && |StripExe(name.value)| <= |title|
  {
    name.Some? && name.value != "" && Contains(Lower(title), Lower(StripExe(name.value)))
  }

  /** The empty string occurs in every title. */
  lemma {:induction false} ContainsEmpty(t: string)
    ensures Contains(t, "")
  {
    assert "" <= t;
  }

  /**
   * A process named just ".exe" is stripped to the empty string and so
   * matches every window title.
   */
  lemma BareExeMatchesAnyTitle(title: string)
    ensures Matches(Some(".exe"), title)
  {
    assert StripExe(".exe") == [];
    ContainsEmpty(Lower(title));
  }

  /** The index of the first process whose name matches `title`, if any. */
  function FirstMatch(procs: seq<Option<string>>, title: string): (r: Option<nat>)
    ensures r.Some? ==> r.value < |procs| && Matches(procs[r.value], title)
    ensures r.Some? ==> forall j :: 0 <= j < r.value ==> !Matches(procs[j], title)
    ensures r.None? <==> forall j :: 0 <= j < |procs| ==> !Matches(procs[j], title)
  {
    if procs == [] then None
    else if Matches(procs[0], title) then Some(0)
    else match FirstMatch(procs[1..], title)
      case Some(k) => Some(k + 1)
      case None => None
  }

  /**
   * The app the tracker attributes time to. `foreground` is the foreground
   * process's name, or `None` when the OS queries failed, which the backend
   * reports as no app at all.
   */
  method ResolveActiveApp(title: string, foreground: Option<string>, procs: seq<Option<string>>)
    returns (app: Option<string>)
    ensures foreground.None? ==> app.None?
    ensures foreground.Some? ==> app == Some(GetAppName(
      match FirstMatch(procs, title)
      case Some(k) => procs[k].value
      case None => foreground.value))
  {
    if foreground.None? {
      return None;
    }
    var i := 0;
    while i < |procs|
      invariant 0 <= i <= |procs|
      invariant forall j :: 0 <= j < i ==> !Matches(procs[j], title)
    {
      if Matches(procs[i], title) {
        return Some(GetAppName(procs[i].value));
      }
      i := i + 1;
    }
    return Some(GetAppName(foreground.value));
  }
}
