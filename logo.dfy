/** The logo choice of the command line: the first `-logo` argument names an
    entry of the logo table, and an unknown name falls back to logo "0".
    The ASCII art itself is a parameter. */
module Logo {

  const DefaultLogo := "0"

  /** floppyfetch.py:272: `logos.get(logo_key, logos["0"])`. The table always holds the
      default entry, so the lookup never fails. */
  function SelectLogo(logos: map<string, string>, key: string): (art: string)
    requires DefaultLogo in logos
    ensures key in logos ==> art == logos[key]
    ensures key !in logos ==> art == logos[DefaultLogo]
  {
    if key in logos then logos[key] else logos[DefaultLogo]
  }

  /** floppyfetch.py:271-272: the first of the `-logo` arguments picks the logo
      (`nargs='+'` guarantees there is one; the default list is `["0"]`). */
  function LogoFor(logos: map<string, string>, logoArgs: seq<string>): (art: string)
    requires DefaultLogo in logos && |logoArgs| >= 1
    ensures art in logos.Values
    ensures logoArgs[0] in logos ==> art == logos[logoArgs[0]]
    ensures logoArgs[0] !in logos ==> art == logos[DefaultLogo]
  {
    SelectLogo(logos, logoArgs[0])
  }
}
