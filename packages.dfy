/** `get_packages`: on Windows, the number of directories under the scoop
    apps directory less one (scoop lists itself there), with a " (scoop)"
    suffix; "0" when there is no such directory, "N/A" when listing it raises
    and on every other platform. The directory listing is a parameter. */
module Packages {
  import opened Wrappers
  import opened Decimal
  import opened Environment

  /** What the file system shows at `~\scoop\apps`: nothing, a directory that
      cannot be listed, or the listing, one flag per entry saying whether the
      entry is itself a directory. */
  datatype ScoopApps = Missing | Unlistable | Listed(isDir: seq<bool>)

  /** floppyfetch.py:74: `sum(1 for item in ... if os.path.isdir(...))`. */
  function CountDirs(isDir: seq<bool>): (n: nat)
    ensures n <= |isDir|
  {
    if |isDir| == 0 then 0 else (if isDir[0] then 1 else 0) + CountDirs(isDir[1..])
  }

  /** The count is the number of directory entries, whatever their order. */
  lemma {:induction false} CountDirsIsMultiplicity(isDir: seq<bool>)
    ensures CountDirs(isDir) == multiset(isDir)[true]
  {
    if |isDir| > 0 {
      CountDirsIsMultiplicity(isDir[1..]);
      assert isDir == [isDir[0]] + isDir[1..];
    }
  }

  const ScoopSuffix := " (scoop)"

  /** `get_packages()`. */
  function GetPackages(system: string, apps: ScoopApps): (r: string)
    ensures !OnWindows(system) ==> r == "N/A"
    ensures OnWindows(system) && apps.Missing? ==> r == "0"
    ensures OnWindows(system) && apps.Unlistable? ==> r == "N/A"
  {
    if !OnWindows(system) then "N/A"
    else
      match apps
      case Missing => "0"
      case Unlistable => "N/A"
      case Listed(isDir) => IntToString(CountDirs(isDir) - 1) + ScoopSuffix
  }

  /** A listed apps directory reports the number of its sub-directories less
      one, readable back in front of the " (scoop)" suffix. */
  lemma GetPackagesReadBack(isDir: seq<bool>)
    ensures var r := GetPackages("Windows", Listed(isDir));
            && |r| > |ScoopSuffix| && r[|r| - |ScoopSuffix|..] == ScoopSuffix
            && ParseInt(r[..|r| - |ScoopSuffix|]) == Some(multiset(isDir)[true] as int - 1)
  {
    var n := CountDirs(isDir) - 1;
    var r := IntToString(n) + ScoopSuffix;
    assert r[..|r| - |ScoopSuffix|] == IntToString(n);
    IntToStringRoundTrip(n);
    CountDirsIsMultiplicity(isDir);
  }

  /** The three outcomes on Windows are told apart by their text. */
  lemma GetPackagesOutcomesDistinct(isDir: seq<bool>)
    ensures var listed := GetPackages("Windows", Listed(isDir));
            && listed != GetPackages("Windows", Missing)
            && listed != GetPackages("Windows", Unlistable)
            && GetPackages("Windows", Missing) != GetPackages("Windows", Unlistable)
  {
    var listed := GetPackages("Windows", Listed(isDir));
    assert listed[|listed| - 1] == ')';
  }

  /** As written, an apps directory without sub-directories reports minus one. */
  lemma EmptyAppsDirectory()
    ensures GetPackages("Windows", Listed([false, false])) == "-1 (scoop)"
  {
    assert CountDirs([false, false]) == 0;
  }
}
