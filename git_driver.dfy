/** The commit-forging driver of forgehub/git.py: the ssh credential
    callback, the reading of GitHub's "repository exists" error, and
    `GitDriver`, whose fields say which repository it works on, whether
    that repository was a local one, and whether to remove a clone when
    the driver's context is left. pygit2 and GitHub calls are opaque
    actions whose outcomes are parameters. */
module ForgeGit {
  import opened Wrappers
  import opened GitRepo
  import ForgeRender

  // ---------------------------------------------------------------------
  // `SshRemoteCallbacks.credentials`.

  /** libgit2's credential type bits: `GIT_CREDENTIAL_SSH_KEY` is bit 1 and
      `GIT_CREDENTIAL_USERNAME` bit 5. */
  const CredentialSshKey: bv32 := 0x2
  const CredentialUsername: bv32 := 0x20

  datatype Credential =
    | Username(name: string)
    | Keypair(username: string, publicKey: string, privateKey: string, passphrase: string)

  /** The credential offered for the allowed types: the user name `git`
      when a user name is allowed, otherwise the key pair without a
      passphrase when an ssh key is allowed, otherwise none. */
  function Credentials(privateKey: string, publicKey: string, allowed: bv32): (r: Option<Credential>)
    ensures r.Some? <==> allowed & (CredentialUsername | CredentialSshKey) != 0
    ensures r.Some? && r.value.Username? <==> allowed & CredentialUsername != 0
    ensures r.Some? && r.value.Username? ==> r.value.name == "git"
    ensures r.Some? && r.value.Keypair? ==> r.value == Keypair("git", publicKey, privateKey, "")
  {
    if allowed & CredentialUsername != 0 then Some(Username("git"))
    else if allowed & CredentialSshKey != 0 then Some(Keypair("git", publicKey, privateKey, ""))
    else None
  }

  // ---------------------------------------------------------------------
  // `_did_repo_exist`.

  const AlreadyExists := "name already exists on this account"

  /** The part of a `GithubException`'s data that is read: the list under
      `"errors"` (absent when the key is missing), each error a dict. */
  datatype ErrorData = ErrorData(errors: Option<seq<map<string, string>>>)

  /** `[error["message"] for error in errors]`, or a `KeyError` (None) as
      soon as one error has no message. */
  function Messages(errors: seq<map<string, string>>): (r: Option<seq<string>>)
    ensures r.Some? <==> forall k :: 0 <= k < |errors| ==> "message" in errors[k]
    ensures r.Some? ==> |r.value| == |errors|
    ensures r.Some? ==> forall k :: 0 <= k < |errors| ==> r.value[k] == errors[k]["message"]
  {
    if errors == [] then Some([])
    else if "message" !in errors[0] then None
    else
      var rest := Messages(errors[1..]);
      if rest.None? then None else Some([errors[0]["message"]] + rest.value)
  }

  /** The repository existed exactly when every error has a message and
      one of them is GitHub's "name already exists" message; a missing key
      anywhere means it did not. */
  function DidRepoExist(data: ErrorData): (r: bool)
    ensures r <==>
      && data.errors.Some?
      && (forall k :: 0 <= k < |data.errors.value| ==> "message" in data.errors.value[k])
      && exists k :: 0 <= k < |data.errors.value| && data.errors.value[k]["message"] == AlreadyExists
  {
    if data.errors.None? then false
    else
      match Messages(data.errors.value)
      case None => false
      case Some(ms) => AlreadyExists in ms
  }

  // ---------------------------------------------------------------------
  // `GitDriver`.

  datatype PushProblem = InvalidRefSpec(spec: string) | NoSuchRemote(name: string) | Transport

  /** What the driver's methods raise: its own three error classes, an
      `AttributeError` when a method needs a repository the driver does
      not have yet, and the `OSError` of opening the mutating file, which
      the driver does not wrap. */
  datatype Exc =
    | DriverInitError
    | DriverForgeError
    | DriverPushError(problem: PushProblem)
    | AttributeError
    | OSError

  /** GitHub's answer to `create_repo`: the new repository's ssh url, or a
      `GithubException` with its data. */
  datatype CreateReply = Created(sshUrl: string) | Refused(data: ErrorData)

  /** The url `create` clones from: the new repository's; or, when the
      name was taken and replacing was asked for, the url of the
      repository created after deleting the old one (`recreated`, None
      when the deletion or the second creation raised); None means
      `DriverInitError`. */
  function CreatedUrl(first: CreateReply, replaceExisting: bool, recreated: Option<string>): (url: Option<string>)
    ensures first.Created? ==> url == Some(first.sshUrl)
    ensures first.Refused? && !(DidRepoExist(first.data) && replaceExisting) ==> url.None?
    ensures first.Refused? && DidRepoExist(first.data) && replaceExisting ==> url == recreated
  {
    match first
    case Created(u) => Some(u)
    case Refused(data) => if DidRepoExist(data) && replaceExisting then recreated else None
  }

  /** The first refspec `reference_is_valid_name` rejects. */
  function FirstInvalid(specs: seq<string>, validName: string -> bool): (r: Option<nat>)
    ensures r.None? <==> forall k :: 0 <= k < |specs| ==> validName(specs[k])
    ensures r.Some? ==> r.value < |specs| && !validName(specs[r.value])
    ensures r.Some? ==> forall k :: 0 <= k < r.value ==> validName(specs[k])
  {
    if specs == [] then None
    else if !validName(specs[0]) then Some(0)
    else
      var rest := FirstInvalid(specs[1..], validName);
      if rest.Some? then Some(rest.value + 1) else None
  }

  /** The repository's `path` (its `.git` directory, not the checked-out
      files around it) goes when the context is left normally, cleanup was
      asked for, and the repository was not a local one. */
  predicate RemovesOnExit(raised: bool, cleanup: bool, wasLocalRepo: bool)
  {
    !raised && cleanup && !wasLocalRepo
  }

  class GitDriver {
    var repo: Option<Repo>
    var wasLocalRepo: bool
    var cleanup: bool
    /** The paths `shutil.rmtree` removed. */
    var removed: seq<string>

    constructor (cleanup: bool)
      ensures this.cleanup == cleanup && repo.None? && !wasLocalRepo && removed == []
    {
      this.cleanup := cleanup;
      repo := None;
      wasLocalRepo := false;
      removed := [];
    }

    /** `__exit__`: remove the repository's `path` (its `.git` directory)
        under `RemovesOnExit`; with no repository that is an
        `AttributeError`. */
    method Exit(raised: bool) returns (r: Outcome<Exc>)
      modifies this
      ensures repo == old(repo) && wasLocalRepo == old(wasLocalRepo) && cleanup == old(cleanup)
      ensures !RemovesOnExit(raised, cleanup, wasLocalRepo) ==> r == Pass && removed == old(removed)
      ensures RemovesOnExit(raised, cleanup, wasLocalRepo) && repo.None? ==>
        r == Fail(AttributeError) && removed == old(removed)
      ensures RemovesOnExit(raised, cleanup, wasLocalRepo) && repo.Some? ==>
        r == Pass && removed == old(removed) + [repo.value.path]
    {
      r := Pass;
      if !raised && cleanup && !wasLocalRepo {
        if repo.None? {
          return Fail(AttributeError);
        }
        removed := removed + [repo.value.path];
      }
    }

    /** `init_repo`: open or create the repository at `path` (the opaque
        `init_repository`, None when it raises) and mark it local. */
    method InitRepo(path: string, init: string -> Option<Repo>) returns (r: Outcome<Exc>)
      modifies this
      ensures init(path).None? ==> r == Fail(DriverInitError) && unchanged(this)
      ensures init(path).Some? ==> r == Pass && repo == init(path) && wasLocalRepo
      ensures cleanup == old(cleanup) && removed == old(removed)
    {
      var made := init(path);
      if made.None? {
        return Fail(DriverInitError);
      }
      repo := made;
      wasLocalRepo := true;
      r := Pass;
    }

    /** `clone_into`: clone `upstream` into `path` (the opaque
        `clone_repository`); whether the repository is local is left as
        it was. */
    method CloneInto(path: string, upstream: string, clone: (string, string) -> Option<Repo>)
      returns (r: Outcome<Exc>)
      modifies this
      ensures clone(upstream, path).None? ==> r == Fail(DriverInitError) && unchanged(this)
      ensures clone(upstream, path).Some? ==> r == Pass && repo == clone(upstream, path)
      ensures wasLocalRepo == old(wasLocalRepo) && cleanup == old(cleanup) && removed == old(removed)
    {
      var cloned := clone(upstream, path);
      if cloned.None? {
        return Fail(DriverInitError);
      }
      repo := cloned;
      r := Pass;
    }

    /** `create`: create the GitHub repository `name` (replacing one of
        that name when asked), then clone it into the path `name`. */
    method Create(name: string, replaceExisting: bool, first: CreateReply, recreated: Option<string>,
                  clone: (string, string) -> Option<Repo>)
      returns (r: Outcome<Exc>)
      modifies this
      ensures var url := CreatedUrl(first, replaceExisting, recreated);
        && (url.None? ==> r == Fail(DriverInitError) && unchanged(this))
        && (url.Some? && clone(url.value, name).None? ==> r == Fail(DriverInitError) && unchanged(this))
        && (url.Some? && clone(url.value, name).Some? ==> r == Pass && repo == clone(url.value, name))
      ensures wasLocalRepo == old(wasLocalRepo) && cleanup == old(cleanup) && removed == old(removed)
    {
      var url: string;
      match first {
        case Created(u) =>
          url := u;
        case Refused(data) =>
          if DidRepoExist(data) && replaceExisting {
            if recreated.None? {
              return Fail(DriverInitError);
            }
            url := recreated.value;
          } else {
            return Fail(DriverInitError);
          }
      }
      r := CloneInto(name, url, clone);
    }

    /** `forge_commits`: with an author identity, the planned commits of
        the map's items on HEAD, up to the attempt where an opaque step
        raises; an index or commit failure and a failed write become
        `DriverForgeError`, a failure to open the file stays an `OSError`. */
    method ForgeCommits(commitsPerDay: ForgeRender.DataLevelMap, failure: Option<Failure>) returns (r: Outcome<Exc>)
      modifies this
      ensures wasLocalRepo == old(wasLocalRepo) && cleanup == old(cleanup) && removed == old(removed)
      ensures old(repo).None? ==> r == Fail(AttributeError) && repo == old(repo)
      ensures old(repo).Some? && !old(repo).value.hasIdentity ==> r == Fail(DriverForgeError) && repo == old(repo)
      ensures old(repo).Some? && old(repo).value.hasIdentity ==>
        var items := commitsPerDay.Items();
        && repo == Some(Append(old(repo).value, Plan(items)[..Done(items, failure)]))
        && (r.Pass? <==> failure.None? || failure.value.attempt >= |Plan(items)|)
        && (r.Fail? ==> r.error == if failure.value.kind == OpenFails then OSError else DriverForgeError)
    {
      if repo.None? {
        return Fail(AttributeError);
      }
      if !repo.value.hasIdentity {
        return Fail(DriverForgeError);
      }
      var forged, failed := ForgeInto(repo.value, commitsPerDay.Items(), failure);
      repo := Some(forged);
      r := Pass;
      if failed.Some? {
        r := Fail(if failed.value == OpenFails then OSError else DriverForgeError);
      }
    }

    /** `push`: explicit refspecs are all checked first; then the remote is
        looked up and pushed to, with `refs/heads/main` when no refspecs
        were given. */
    method Push(remoteName: string, refSpecs: Option<seq<string>>, validName: string -> bool, transportFails: bool)
      returns (r: Outcome<Exc>)
      modifies this
      ensures wasLocalRepo == old(wasLocalRepo) && cleanup == old(cleanup) && removed == old(removed)
      ensures refSpecs.Some? && FirstInvalid(refSpecs.value, validName).Some? ==>
        r == Fail(DriverPushError(InvalidRefSpec(refSpecs.value[FirstInvalid(refSpecs.value, validName).value])))
        && repo == old(repo)
      ensures (refSpecs.None? || FirstInvalid(refSpecs.value, validName).None?) ==>
        && (old(repo).None? ==> r == Fail(AttributeError) && repo == old(repo))
        && (old(repo).Some? && remoteName !in old(repo).value.remotes ==>
              r == Fail(DriverPushError(NoSuchRemote(remoteName))) && repo == old(repo))
        && (old(repo).Some? && remoteName in old(repo).value.remotes && transportFails ==>
              r == Fail(DriverPushError(Transport)) && repo == old(repo))
        && (old(repo).Some? && remoteName in old(repo).value.remotes && !transportFails ==>
              var specs := if refSpecs.None? then ["refs/heads/main"] else refSpecs.value;
              r == Pass && repo == Some(old(repo).value.(pushes := old(repo).value.pushes + [PushRecord(remoteName, specs)])))
    {
      var specs: seq<string>;
      if refSpecs.None? {
        specs := ["refs/heads/main"];
      } else {
        specs := refSpecs.value;
        for k := 0 to |specs|
          invariant forall m :: 0 <= m < k ==> validName(specs[m])
        {
          if !validName(specs[k]) {
            return Fail(DriverPushError(InvalidRefSpec(specs[k])));
          }
        }
      }
      if repo.None? {
        return Fail(AttributeError);
      }
      if remoteName !in repo.value.remotes {
        return Fail(DriverPushError(NoSuchRemote(remoteName)));
      }
      if transportFails {
        return Fail(DriverPushError(Transport));
      }
      repo := Some(repo.value.(pushes := repo.value.pushes + [PushRecord(remoteName, specs)]));
      r := Pass;
    }
  }
}
