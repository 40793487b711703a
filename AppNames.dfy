/**
 * The friendly-name table of the backend and its lookup `get_app_name`:
 * an executable name is lower-cased and looked up; a miss returns the
 * input unchanged.
 */
module AppNames {

  /** `c.lower()` for one character; only ASCII letters are folded in this model. */
  function LowerChar(c: char): (r: char)
    ensures !('A' <= r <= 'Z')
    ensures 'A' <= c <= 'Z' ==> r as int == c as int + 32
    ensures !('A' <= c <= 'Z') ==> r == c
  {
    if 'A' <= c <= 'Z' then (c as int + 32) as char else c
  }

  /** `s.lower()`: same length, every character folded. */
  function Lower(s: string): (r: string)
    ensures |r| == |s|
    ensures forall i :: 0 <= i < |s| ==> r[i] == LowerChar(s[i])
  {
    seq(|s|, i requires 0 <= i < |s| => LowerChar(s[i]))
  }

  /** True when `s` holds no upper-case ASCII letter. */
  predicate NoUpper(s: string) {
    forall i :: 0 <= i < |s| ==> !('A' <= s[i] <= 'Z')
  }

  /** The `AppNames` dictionary: executable name to friendly name. */
  const Table: map<string, string> := map[
    "explorer.exe" := "Windows Explorer",
    "taskmgr.exe" := "Task Manager",
    "powershell.exe" := "Windows PowerShell",
    "cmd.exe" := "Command Prompt",
    "WindowsTerminal.exe" := "Windows Terminal",
    "ShellExperienceHost.exe" := "Windows Shell Experience Host",
    "msedgewebview2.exe" := "Microsoft Edge WebView2",
    "code.exe" := "Visual Studio Code",
    "neutralino-win_x64.exe" := "Neutralino App",
    "opera.exe" := "Opera Browser",
    "chrome.exe" := "Google Chrome",
    "msedge.exe" := "Microsoft Edge",
    "firefox.exe" := "Mozilla Firefox",
    "winword.exe" := "Microsoft Word",
    "excel.exe" := "Microsoft Excel",
    "powerpnt.exe" := "Microsoft PowerPoint",
    "vlc.exe" := "VLC Media Player",
    "notepad.exe" := "Notepad"
  ]

  /** `get_app_name(exe_name)`: `AppNames.get(exe_name.lower(), exe_name)`. */
  function GetAppName(exe: string): (r: string)
    ensures r in Table.Values || r == exe
    ensures r != exe ==> Lower(exe) in Table && r == Table[Lower(exe)]
  {
    var key := Lower(exe);
    if key in Table then Table[key] else exe
  }

  /** Lower-casing never leaves an upper-case letter. */
  lemma LowerHasNoUpper(s: string)
    ensures NoUpper(Lower(s))
  {
    forall i | 0 <= i < |s| ensures !('A' <= Lower(s)[i] <= 'Z') {
      assert Lower(s)[i] == LowerChar(s[i]);
    }
  }

  /** Lower-casing leaves a string unchanged exactly when it has no upper-case letter. */
  lemma LowerFixedPoint(s: string)
    ensures Lower(s) == s <==> NoUpper(s)
  {
    if NoUpper(s) {
      forall i | 0 <= i < |s| ensures Lower(s)[i] == s[i] {
        assert Lower(s)[i] == LowerChar(s[i]);
      }
    } else {
      var i :| 0 <= i < |s| && 'A' <= s[i] <= 'Z';
      assert Lower(s)[i] == LowerChar(s[i]);
    }
  }

  /** A table key holding an upper-case letter is never the lookup key, whatever the input. */
  lemma UpperKeyUnreachable(s: string, key: string)
    requires !NoUpper(key)
    ensures Lower(s) != key
  {
    LowerHasNoUpper(s);
  }

  /** A hit returns the key's friendly name: "CHROME.EXE" is "Google Chrome". */
  lemma LookupHit(exe: string)
    requires Lower(exe) in Table
    ensures GetAppName(exe) == Table[Lower(exe)]
    ensures GetAppName(exe) in Table.Values
  {
  }

  lemma ChromeUpperCase()
    ensures GetAppName("CHROME.EXE") == "Google Chrome"
  {
    assert Lower("CHROME.EXE") == "chrome.exe";
  }

  /** A miss returns the input itself, case preserved. */
  lemma LookupMiss(exe: string)
    requires Lower(exe) !in Table
    ensures GetAppName(exe) == exe
  {
  }

  /** For names the table knows, the answer depends only on the lower-cased input. */
  lemma CaseInsensitive(a: string, b: string)
    requires Lower(a) == Lower(b)
    requires Lower(a) in Table
    ensures GetAppName(a) == GetAppName(b)
  {
  }

  /**
   * "WindowsTerminal.exe" is a key but unreachable: the only input that yields
   * "Windows Terminal" is that friendly name itself, and the executable's own
   * name comes back unchanged.
   */
  lemma WindowsTerminalUnreachable(s: string)
    ensures GetAppName(s) == "Windows Terminal" ==> s == "Windows Terminal"
    ensures GetAppName("WindowsTerminal.exe") == "WindowsTerminal.exe"
  {
    assert !NoUpper("WindowsTerminal.exe") by { assert "WindowsTerminal.exe"[0] == 'W'; }
    UpperKeyUnreachable(s, "WindowsTerminal.exe");
    // no other key has 19 characters
    assert Lower("WindowsTerminal.exe") !in Table by {
      UpperKeyUnreachable("WindowsTerminal.exe", "WindowsTerminal.exe");
    }
  }

  /** Every table key written in lower case is reached by its own name and by any casing of it. */
  lemma LowerKeysReachable(exe: string, key: string)
    requires key in Table && NoUpper(key)
    requires Lower(exe) == key
    ensures GetAppName(key) == Table[key]
    ensures GetAppName(exe) == Table[key]
  {
    LowerFixedPoint(key);
  }

  /** Same for "ShellExperienceHost.exe". */
  lemma ShellExperienceHostUnreachable(s: string)
    ensures GetAppName(s) == "Windows Shell Experience Host" ==> s == "Windows Shell Experience Host"
  {
    assert !NoUpper("ShellExperienceHost.exe") by { assert "ShellExperienceHost.exe"[0] == 'S'; }
    UpperKeyUnreachable(s, "ShellExperienceHost.exe");
  }
}
