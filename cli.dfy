/** The helpers of the command line entry point (forgehub/__init__.py):
    the access token, the ssh key paths, the repository name taken from a
    url, the choice between a local path and an upstream url, and the exit
    code `main` ends with. The environment (`$HOME`, whether a path
    exists, the token file's text) comes in as parameters. */
module Cli {
  import opened Wrappers
  import opened Text
  import opened PyDict
  import ForgeGit
  import ForgeRender
  import Events
  import Glyphs
  import Calendar
  import Generate

  // ---------------------------------------------------------------------
  // The access token.

  /** `__get_token`: the `--token` value; otherwise the first line of the
      token file without its newline; otherwise none. */
  function GetToken(token: Option<string>, tokenFile: Option<string>): (r: Option<string>)
    ensures token.Some? ==> r == token
    ensures token.None? ==> (r.Some? <==> tokenFile.Some?)
  {
    if token.Some? then token
    else if tokenFile.Some? then Some(FirstPiece(tokenFile.value, '\n'))
    else None
  }

  /** A token read from the file is the file's text up to its first
      newline: a prefix of the text, holding no newline, that ends where
      the text ends or at a newline. */
  lemma TokenIsFirstLine(content: string)
    ensures var t := GetToken(None, Some(content)).value;
      && |t| <= |content|
      && t == content[..|t|]
      && '\n' !in t
      && (|t| == |content| || content[|t|] == '\n')
  {
  }

  // ---------------------------------------------------------------------
  // The ssh keys.

  /** `posixpath.join(a, b)`: an absolute `b` replaces `a`; otherwise a
      slash goes between them unless `a` is empty or already ends with
      one. */
  function PathJoin(a: string, b: string): (r: string)
    ensures |b| > 0 && b[0] == '/' ==> r == b
    ensures !(|b| > 0 && b[0] == '/') ==> |r| >= |a| + |b| && r[|r| - |b|..] == b && r[..|a|] == a
  {
    if |b| > 0 && b[0] == '/' then b
    else if a == [] || a[|a| - 1] == '/' then a + b
    else a + "/" + b
  }

  /** `os.path.join(home, ".ssh", name)`; joining with an unset `HOME`
      (None) raises `TypeError`. */
  function KeyPath(home: Option<string>, name: string): (r: Option<string>)
    ensures r.Some? <==> home.Some?
  {
    if home.None? then None else Some(PathJoin(PathJoin(home.value, ".ssh"), name))
  }

  /** Under a home directory not ending in a slash, a key lives at
      `<home>/.ssh/<name>`. */
  lemma KeyPathUnderHome(home: string, name: string)
    requires home != [] && home[|home| - 1] != '/'
    requires name != [] && name[0] != '/'
    ensures KeyPath(Some(home), name) == Some(home + "/.ssh/" + name)
  {
    var ssh := PathJoin(home, ".ssh");
    assert ssh == home + "/.ssh";
    assert ssh[|ssh| - 1] == 'h';
    assert ssh + "/" + name == home + "/.ssh/" + name;
  }

  datatype TypeError = TypeError

  /** `__get_ssh_keys`: the given private and public key paths, each
      missing one defaulting to `$HOME/.ssh/id_rsa` and
      `$HOME/.ssh/id_rsa.pub`. */
  function GetSshKeys(home: Option<string>, privateKey: Option<string>, publicKey: Option<string>)
    : (r: Result<(string, string), TypeError>)
    ensures r.Err? <==> home.None? && (privateKey.None? || publicKey.None?)
    ensures r.Ok? && privateKey.Some? ==> r.value.0 == privateKey.value
    ensures r.Ok? && publicKey.Some? ==> r.value.1 == publicKey.value
    ensures r.Ok? && privateKey.None? ==> Some(r.value.0) == KeyPath(home, "id_rsa")
    ensures r.Ok? && publicKey.None? ==> Some(r.value.1) == KeyPath(home, "id_rsa.pub")
  {
    var p := if privateKey.Some? then privateKey else KeyPath(home, "id_rsa");
    var q := if publicKey.Some? then publicKey else KeyPath(home, "id_rsa.pub");
    if p.None? || q.None? then Err(TypeError) else Ok((p.value, q.value))
  }

  // ---------------------------------------------------------------------
  // The repository.

  /** `__repo_name_from_url`: the text after the last `/`, cut at its
      first `.`. */
  function RepoNameFromUrl(url: string): (name: string)
    ensures '/' !in name && '.' !in name
    ensures |name| <= |url|
  {
    FirstPiece(LastPiece(url, '/'), '.')
  }

  /** The name is the start of the url's last path segment, up to the
      first dot of that segment; it holds neither a slash nor a dot. */
  lemma RepoNameIsSegmentStem(url: string)
    ensures var segment := LastPiece(url, '/'); var name := RepoNameFromUrl(url);
      && |segment| <= |url|
      && segment == url[|url| - |segment|..]
      && '/' !in segment
      && |name| <= |segment|
      && name == segment[..|name|]
      && '.' !in name && '/' !in name
      && (|name| == |segment| || segment[|name|] == '.')
  {
  }

  /** A url whose last segment is `stem.ext` (neither holding a slash,
      the stem holding no dot) names the repository `stem`. */
  lemma RepoNameOfUrl(prefix: string, stem: string, ext: string)
    requires '/' !in stem && '.' !in stem && '/' !in ext
    ensures RepoNameFromUrl(prefix + "/" + stem + "." + ext) == stem
  {
    var url := prefix + "/" + stem + "." + ext;
    var segment := stem + "." + ext;
    assert url == prefix + "/" + segment;
    assert '/' !in segment by {
      assert forall k :: 0 <= k < |segment| ==> segment[k] == if k < |stem| then stem[k] else if k == |stem| then '.' else ext[k - |stem| - 1];
    }
    LastPieceIs(url, '/', segment);
    assert url[|url| - |segment| - 1] == '/';
    assert url[|url| - |segment|..] == segment;
    var name := FirstPiece(segment, '.');
    assert segment[|stem|] == '.';
    assert name == segment[..|stem|] == stem;
  }

  /** The ssh url of the test repository the scripts push to. */
  const TestRepoUrl: string := "git@github.com:joshmeranda" + "/" + "forgehub-test" + "." + "git"

  /** The ssh url of the test repository names the local path the
      scripts use for it. */
  lemma RepoNameOfTestUrl()
    ensures RepoNameFromUrl(TestRepoUrl) == "forgehub-test"
  {
    RepoNameOfUrl("git@github.com:joshmeranda", "forgehub-test", "git");
  }

  /** The repository argument: an existing path is worked on as it is,
      with no upstream; anything else is an upstream url, cloned into the
      directory named after it. */
  function RepoTarget(repo: string, pathExists: bool): (r: (string, Option<string>))
    ensures pathExists ==> r == (repo, None)
    ensures !pathExists ==> r.1 == Some(repo) && r.0 == RepoNameFromUrl(repo)
  {
    if pathExists then (repo, None) else (RepoNameFromUrl(repo), Some(repo))
  }

  // ---------------------------------------------------------------------
  // How `main` ends.

  /** Looking the user up raised, found nobody, or found the user. */
  datatype UserLookup = LookupRaised | NoUser | Found

  /** The driver phases `main` enters. */
  datatype Phase = Forge | Push

  /** `sys.exit(code)`, a normal return (code 0), or an exception no
      handler catches. */
  datatype Ending = ExitCode(code: nat) | Raised(error: ForgeGit.Exc)

  datatype Run = Run(phases: seq<Phase>, ending: Ending)

  /** The handlers of `main`: each driver error class has its own code;
      any other exception escapes. */
  function End(e: ForgeGit.Exc): (r: Ending)
    ensures r.ExitCode? <==> e.DriverInitError? || e.DriverForgeError? || e.DriverPushError?
    ensures r.ExitCode? ==> 2 <= r.code <= 4
  {
    match e
    case DriverInitError => ExitCode(2)
    case DriverForgeError => ExitCode(3)
    case DriverPushError(_) => ExitCode(4)
    case _ => Raised(e)
  }

  /** `main` after the arguments: look the user up, open the repository,
      forge the commits, push unless `--no-push`, and leave the driver's
      context; each outcome is that of the opaque step. */
  function MainRun(user: UserLookup, open: Outcome<ForgeGit.Exc>, forge: Outcome<ForgeGit.Exc>,
                push: Outcome<ForgeGit.Exc>, leave: Outcome<ForgeGit.Exc>, noPush: bool): (r: Run)
    ensures (Forge in r.phases) <==> user.Found? && open.Pass?
    ensures (Push in r.phases) <==> user.Found? && open.Pass? && forge.Pass? && !noPush
    ensures Push in r.phases ==> r.phases == [Forge, Push]
    ensures r.ending == ExitCode(1) <==> !user.Found?
    ensures r.ending == ExitCode(0) <==>
      user.Found? && open.Pass? && forge.Pass? && (noPush || push.Pass?) && leave.Pass?
    ensures r.ending.ExitCode? ==> r.ending.code <= 4
    ensures user.Found? && r.ending != ExitCode(0) ==>
      exists o :: o in [open, forge, push, leave] && o.Fail? && r.ending == End(o.error)
  {
    if !user.Found? then Run([], ExitCode(1))
    else if open.Fail? then Run([], End(open.error))
    else if forge.Fail? then Run([Forge], End(forge.error))
    else if !noPush && push.Fail? then Run([Forge, Push], End(push.error))
    else
      var phases := if noPush then [Forge] else [Forge, Push];
      if leave.Fail? then Run(phases, End(leave.error)) else Run(phases, ExitCode(0))
  }

  /** Exit code 2, 3 or 4 names the class of the driver error that ended
      the run. */
  lemma ExitCodeNamesError(user: UserLookup, open: Outcome<ForgeGit.Exc>, forge: Outcome<ForgeGit.Exc>,
                           push: Outcome<ForgeGit.Exc>, leave: Outcome<ForgeGit.Exc>, noPush: bool)
    ensures var r := MainRun(user, open, forge, push, leave, noPush);
      var failed := [open, forge, push, leave];
      && (r.ending == ExitCode(2) ==> Fail(ForgeGit.DriverInitError) in failed)
      && (r.ending == ExitCode(3) ==> Fail(ForgeGit.DriverForgeError) in failed)
      && (r.ending == ExitCode(4) ==> exists o :: o in failed && o.Fail? && o.error.DriverPushError?)
  {
    var r := MainRun(user, open, forge, push, leave, noPush);
    if user.Found? && r.ending != ExitCode(0) {
      var o :| o in [open, forge, push, leave] && o.Fail? && r.ending == End(o.error);
      assert o == Fail(o.error);
    }
  }

  // ---------------------------------------------------------------------
  // The pipeline: render the text, then scale it to commit counts.

  /** Placing drawable levels puts a level in 0..4 on every date. */
  lemma PlacedLevelsInRange(levels: seq<int>, end: Calendar.Day)
    requires ForgeRender.ValidLevels(levels)
    ensures var d := ForgeRender.Placed(levels, end);
      forall day :: day in d.values ==> 0 <= d.values[day] <= 4
  {
    var d := ForgeRender.Placed(levels, end);
    ForgeRender.PlacedDays(levels, end);
    forall day | day in d.values ensures 0 <= d.values[day] <= 4 {
      var k := |levels| - 1 - (end - day);
      assert d.values[end - (|levels| - 1 - k)] == levels[k];
      assert ForgeRender.LevelChar(levels[k]).Some?;
    }
  }

  /** A rendered text holds only the levels 0..4. */
  lemma RenderedLevelsDrawable(s: string, endDate: Option<Calendar.Day>, now: Calendar.Day)
    requires forall k :: 0 <= k < |s| ==> Glyphs.Supported(s[k])
    ensures ForgeRender.TextRendering(ForgeRender.Str(s), endDate, now).Ok?
    ensures var d := ForgeRender.TextRendering(ForgeRender.Str(s), endDate, now).value;
      forall day :: day in d.values ==> 0 <= d.values[day] <= 4
  {
    var glyphs := seq(|s|, k requires 0 <= k < |s| => Glyphs.GlyphOf(s[k]));
    Generate.BlocksValid(glyphs);
    PlacedLevelsInRange(ForgeRender.TextLevels(s), endDate.GetOr(Calendar.LastWeekEnd(now)));
  }

  /** A rendered text always scales with the five-entry boundary table:
      every date of the drawing keeps its place, and a date drawn at level
      `l` gets `start + l * step` commits. */
  lemma RenderedTextScales(s: string, endDate: Option<Calendar.Day>, now: Calendar.Day, maxPerDay: int, dilute: bool)
    requires forall k :: 0 <= k < |s| ==> Glyphs.Supported(s[k])
    requires Events.BoundariesPerDataLevel(maxPerDay, dilute).Ok?
    ensures ForgeRender.TextRendering(ForgeRender.Str(s), endDate, now).Ok?
    ensures var d := ForgeRender.TextRendering(ForgeRender.Str(s), endDate, now).value;
      var b := Events.BoundariesPerDataLevel(maxPerDay, dilute).value;
      var step := if dilute then maxPerDay else Events.FloorDiv(maxPerDay, 4);
      var start := if dilute then maxPerDay else 0;
      && Scale(b, d).Ok?
      && Scale(b, d).value.keys == d.keys
      && forall day :: day in d.values ==> Scale(b, d).value.values[day] == start + d.values[day] * step
  {
    RenderedLevelsDrawable(s, endDate, now);
    var d := ForgeRender.TextRendering(ForgeRender.Str(s), endDate, now).value;
    Events.BoundariesScaleEveryLevel(maxPerDay, dilute, d);
  }
}
