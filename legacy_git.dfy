/** The first commit-forging driver (git.py): `Driver` opens its repository
    when it is made, by cloning over ssh or https or by initialising one,
    forges commits without wrapping the errors it meets, and pushes
    `refs/heads/main`, handing back rather than raising the error for an
    unknown remote. */
module LegacyGit {
  import opened Wrappers
  import opened PyDict
  import opened GitRepo

  /** Where the repository comes from. */
  datatype Source = CloneFrom(url: string) | InitAt(path: string)

  /** The constructor's choice: the ssh url when there is one, otherwise
      the https url, otherwise a repository initialised at the path. */
  function SourceOf(repoPath: string, https: Option<string>, ssh: Option<string>): (s: Source)
    ensures s.CloneFrom? <==> ssh.Some? || https.Some?
    ensures s.CloneFrom? ==> s.url == (if ssh.Some? then ssh.value else https.value)
    ensures s.InitAt? ==> s.path == repoPath
  {
    if ssh.Some? then CloneFrom(ssh.value)
    else if https.Some? then CloneFrom(https.value)
    else InitAt(repoPath)
  }

  /** What the driver raises or hands back: the `ValueError` of a missing
      identity or an unknown remote, pygit2's `GitError`, and the
      `OSError` of the mutating file. */
  datatype Exc = ValueError | GitError | OSError

  class Driver {
    var repo: Repo
    /** Where the constructor took the repository from. */
    const source: Source

    constructor (repo: Repo, source: Source)
      ensures this.repo == repo && this.source == source
    {
      this.repo := repo;
      this.source := source;
    }

    /** `Driver(repo_path, https, ssh, ...)`: clone into `repoPath` from the
        chosen url or initialise a repository there (the opaque pygit2
        calls, None when they raise a `GitError`). */
    static method Open(repoPath: string, https: Option<string>, ssh: Option<string>,
                       clone: (string, string) -> Option<Repo>, init: string -> Option<Repo>)
      returns (r: Result<Driver, Exc>)
      ensures var made := match SourceOf(repoPath, https, ssh)
          case CloneFrom(url) => clone(url, repoPath)
          case InitAt(path) => init(path);
        && (made.None? ==> r == Err(GitError))
        && (made.Some? ==>
              && r.Ok? && fresh(r.value) && r.value.repo == made.value
              && r.value.source == SourceOf(repoPath, https, ssh))
    {
      var source := SourceOf(repoPath, https, ssh);
      var made: Option<Repo>;
      if ssh.Some? {
        made := clone(ssh.value, repoPath);
      } else if https.Some? {
        made := clone(https.value, repoPath);
      } else {
        made := init(repoPath);
      }
      if made.None? {
        return Err(GitError);
      }
      var d := new Driver(made.value, source);
      r := Ok(d);
    }

    /** `forge_commits`: without an author identity a `ValueError` before
        any commit; otherwise the planned commits of the map's items on
        HEAD, up to the attempt where an opaque step raises, whose error
        comes out as it is. */
    method ForgeCommits(commitsPerDay: Dict, failure: Option<Failure>) returns (r: Outcome<Exc>)
      modifies this
      ensures !old(repo).hasIdentity ==> r == Fail(ValueError) && repo == old(repo)
      ensures old(repo).hasIdentity ==>
        var items := Items(commitsPerDay);
        && repo == Append(old(repo), Plan(items)[..Done(items, failure)])
        && (r.Pass? <==> failure.None? || failure.value.attempt >= |Plan(items)|)
        && (r.Fail? ==> r.error == if failure.value.kind == CommitFails then GitError else OSError)
    {
      if !repo.hasIdentity {
        return Fail(ValueError);
      }
      var forged, failed := ForgeInto(repo, Items(commitsPerDay), failure);
      repo := forged;
      r := Pass;
      if failed.Some? {
        r := Fail(if failed.value == CommitFails then GitError else OSError);
      }
    }

    /** `push`: an unknown remote hands back a `ValueError` and pushes
        nothing; otherwise `refs/heads/main` is pushed, and a transport
        failure raises. */
    method Push(remoteName: string, transportFails: bool) returns (r: Result<Option<Exc>, Exc>)
      modifies this
      ensures remoteName !in old(repo).remotes ==> r == Ok(Some(ValueError)) && repo == old(repo)
      ensures remoteName in old(repo).remotes && transportFails ==> r == Err(GitError) && repo == old(repo)
      ensures remoteName in old(repo).remotes && !transportFails ==>
        r == Ok(None) && repo == old(repo).(pushes := old(repo).pushes + [PushRecord(remoteName, ["refs/heads/main"])])
    {
      if remoteName !in repo.remotes {
        return Ok(Some(ValueError));
      }
      if transportFails {
        return Err(GitError);
      }
      repo := repo.(pushes := repo.pushes + [PushRecord(remoteName, ["refs/heads/main"])]);
      r := Ok(None);
    }
  }
}
