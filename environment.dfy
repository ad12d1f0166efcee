/** `get_shell` and `get_de`: choices driven by the platform name
    (`platform.system()`), the process environment (`os.environ`) and, for
    the shell on Windows, the name of the parent process. All three are
    parameters. */
module Environment {
  import opened Wrappers
  import opened Strings

  /** The process environment, one value per variable name. */
  type Env = map<string, string>

  predicate OnWindows(system: string) {
    system == "Windows"
  }

  /** `os.environ.get(name)`. */
  function Lookup(env: Env, name: string): Option<string> {
    if name in env then Some(env[name]) else None
  }

  /** Python truthiness of an optional string: present and non-empty. */
  predicate Truthy(v: Option<string>) {
    v.Some? && v.value != ""
  }

  /** Python's `a or b` on optional strings. */
  function Or(a: Option<string>, b: Option<string>): Option<string> {
    if Truthy(a) then a else b
  }

  /** The variable is set to a non-empty value. */
  predicate IsSet(env: Env, name: string) {
    name in env && env[name] != ""
  }

  /** `get_de()`: a desktop session name, else the current desktop name,
      else "N/A"; a fixed name on Windows. Never empty. */
  function GetDe(system: string, env: Env): (de: string)
    ensures de != ""
    ensures OnWindows(system) ==> de == "Windows Desktop"
    ensures !OnWindows(system) ==>
              de == if IsSet(env, "DESKTOP_SESSION") then env["DESKTOP_SESSION"]
                    else if IsSet(env, "XDG_CURRENT_DESKTOP") then env["XDG_CURRENT_DESKTOP"]
                    else "N/A"
  {
    if OnWindows(system) then "Windows Desktop"
    else
      var de := Or(Lookup(env, "DESKTOP_SESSION"), Lookup(env, "XDG_CURRENT_DESKTOP"));
      if Truthy(de) then de.value else "N/A"
  }

  /** floppyfetch.py:37-44: the parent process name, lowered, classified as PowerShell,
      the command prompt, or passed through. */
  function ClassifyParent(rawName: string): (shell: string)
    ensures var name := Lower(rawName);
            && (shell == "PowerShell" <==> Contains(name, "powershell") || Contains(name, "pwsh"))
            && (shell == "Command Prompt" <==>
                  !Contains(name, "powershell") && !Contains(name, "pwsh") && Contains(name, "cmd"))
            && (shell != "PowerShell" && shell != "Command Prompt" ==> shell == name)
  {
    var name := Lower(rawName);
    if Contains(name, "powershell") || Contains(name, "pwsh") then "PowerShell"
    else if Contains(name, "cmd") || Contains(name, "cmd.exe") then
      CmdExeNamesCmd(name);
      "Command Prompt"
    else
      assert name != "PowerShell" && name != "Command Prompt" by {
        if |name| > 0 { assert !('A' <= name[0] <= 'Z'); }
      }
      name
  }

  /** The `"cmd.exe" in parent_name` test on floppyfetch.py:41 never decides anything:
      every name containing "cmd.exe" already contains "cmd". */
  lemma CmdExeNamesCmd(name: string)
    ensures Contains(name, "cmd.exe") ==> Contains(name, "cmd")
  {
    if Contains(name, "cmd.exe") {
      ContainsPrefixOf(name, "cmd.exe", "cmd");
    }
  }

  /** `get_shell()`. `parentName` is the name psutil reports for the parent
      process, or `None` when psutil raises. */
  function GetShell(system: string, env: Env, parentName: Option<string>): (shell: string)
    ensures !OnWindows(system) && !IsSet(env, "SHELL") ==> shell == "Unknown"
    ensures !OnWindows(system) && IsSet(env, "SHELL") ==>
              var path := env["SHELL"];
              && '/' !in shell && |shell| <= |path|
              && path == path[..|path| - |shell|] + shell
              && (|shell| < |path| ==> path[|path| - |shell| - 1] == '/')
    ensures OnWindows(system) && "PROMPT" in env && "PSModulePath" !in env ==> shell == "Command Prompt"
    ensures OnWindows(system) && !("PROMPT" in env && "PSModulePath" !in env) && parentName.Some? ==>
              shell == ClassifyParent(parentName.value)
    ensures OnWindows(system) && parentName.None? ==>
              shell == (if "PSModulePath" in env then "PowerShell" else "Command Prompt")
  {
    if OnWindows(system) then
      if "PROMPT" in env && "PSModulePath" !in env then "Command Prompt"
      else
        match parentName
        case Some(name) => ClassifyParent(name)
        case None => if "PSModulePath" in env then "PowerShell" else "Command Prompt"
    else
      var path := Lookup(env, "SHELL").GetOr("");
      if path != "" then Basename(path) else "Unknown"
  }
}
