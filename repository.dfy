/** An abstract git repository, as both commit-forging drivers see it: a
    list of commits, a HEAD that is unborn or names a commit, the remotes,
    whether an author identity can be resolved from its configuration, and
    the pushes made from it. The commit loop both drivers share is modelled
    here once. */
module GitRepo {
  import opened Wrappers
  import Calendar
  import Text

  /** A forged commit: its message, its parents (indices of earlier
      commits) and the date the `git commit --amend --date=...` run asks
      for. */
  datatype Commit = Commit(message: string, parents: seq<nat>, date: Calendar.Day)

  /** One `remote.push(refspecs)` that went through. */
  datatype PushRecord = PushRecord(remote: string, refSpecs: seq<string>)

  datatype Repo = Repo(
    path: string,
    commits: seq<Commit>,
    head: Option<nat>,
    remotes: set<string>,
    hasIdentity: bool,
    pushes: seq<PushRecord>)
  {
    /** HEAD names an existing commit, and every parent is an older one. */
    predicate Valid()
    {
      && (head.Some? ==> head.value < |commits|)
      && (forall k, j :: 0 <= k < |commits| && 0 <= j < |commits[k].parents| ==> commits[k].parents[j] < k)
    }
  }

  /** The message of the `k`-th commit of a date: `commit #k for YYYY-MM-DD`. */
  function Message(k: nat, date: Calendar.Day): (m: string)
    ensures |m| >= 24 && m[..8] == "commit #"
  {
    "commit #" + Text.NatToString(k) + " for " + Calendar.IsoDate(date)
  }

  /** A message names its commit: the word after `#` is the number in
      decimal, and the last word is the date. */
  lemma MessageNamesCommit(k: nat, date: Calendar.Day)
    ensures Text.FirstPiece(Message(k, date)[8..], ' ') == Text.NatToString(k)
    ensures Text.LastPiece(Message(k, date), ' ') == Calendar.IsoDate(date)
  {
    MessageWords(Text.NatToString(k), Calendar.IsoDate(date));
  }

  /** In `commit #n for d`, with neither `n` nor `d` holding a space, `n`
      is the word after `#` and `d` the last word. */
  lemma MessageWords(n: string, d: string)
    requires ' ' !in n && ' ' !in d
    ensures var m := "commit #" + n + " for " + d;
      && |m| > 8 && m[..8] == "commit #"
      && Text.FirstPiece(m[8..], ' ') == n
      && Text.LastPiece(m, ' ') == d
  {
    var m := "commit #" + n + " for " + d;
    assert m[8..] == n + [' '] + ("for " + d);
    Text.SplitPrefix(n, ' ', "for " + d);
    assert m[|m| - |d|..] == d && m[|m| - |d| - 1] == ' ';
    Text.LastPieceIs(m, ' ', d);
  }

  /** The parents a new commit gets: the commit HEAD names, or none while
      HEAD is unborn (the lookup of HEAD raises and the commit is a root). */
  function HeadParents(r: Repo): (p: seq<nat>)
    ensures p == [] <==> r.head.None?
    ensures r.head.Some? ==> p == [r.head.value]
  {
    if r.head.Some? then [r.head.value] else []
  }

  /** `create_commit` on HEAD's reference, which then names the new commit. */
  function CommitOnHead(r: Repo, message: string, date: Calendar.Day): (c: Repo)
    ensures |c.commits| == |r.commits| + 1 && c.commits[..|r.commits|] == r.commits
    ensures c.commits[|r.commits|] == Commit(message, HeadParents(r), date)
    ensures c.head == Some(|r.commits|)
  {
    r.(commits := r.commits + [Commit(message, HeadParents(r), date)], head := Some(|r.commits|))
  }

  /** A commit made on HEAD keeps the repository well formed: its parent
      is the commit HEAD named, which is older. */
  lemma CommitOnHeadValid(r: Repo, message: string, date: Calendar.Day)
    requires r.Valid()
    ensures CommitOnHead(r, message, date).Valid()
  {
    var c := CommitOnHead(r, message, date);
    forall k, j | 0 <= k < |c.commits| && 0 <= j < |c.commits[k].parents|
      ensures c.commits[k].parents[j] < k
    {
      if k < |r.commits| {
        assert c.commits[k] == r.commits[k];
      }
    }
  }

  /** The commits of `plan` made one after another on top of `r`; only the
      commits and HEAD change. */
  function Append(r: Repo, plan: seq<(string, Calendar.Day)>): (a: Repo)
    ensures a.path == r.path && a.remotes == r.remotes && a.hasIdentity == r.hasIdentity
    ensures a.pushes == r.pushes
    decreases |plan|
  {
    if plan == [] then r
    else
      var last := plan[|plan| - 1];
      CommitOnHead(Append(r, plan[..|plan| - 1]), last.0, last.1)
  }

  /** `range(count)` commits for one date, numbered from 1. */
  function DayPlan(date: Calendar.Day, count: int): (p: seq<(string, Calendar.Day)>)
    ensures |p| == if count > 0 then count else 0
    ensures forall i :: 0 <= i < |p| ==> p[i].1 == date
  {
    seq(if count > 0 then count else 0, i requires 0 <= i => (Message(i + 1, date), date))
  }

  /** The commits `forge_commits` makes for the (date, count) items, in the
      order the items are listed. */
  function Plan(items: seq<(int, int)>): (p: seq<(string, Calendar.Day)>)
    ensures |p| == Total(items)
  {
    if items == [] then []
    else
      var last := items[|items| - 1];
      Plan(items[..|items| - 1]) + DayPlan(last.0, last.1)
  }

  /** What an opaque step of the commit loop may raise: opening the
      mutating file, writing to it, or the index and commit calls. */
  datatype FailKind = OpenFails | WriteFails | CommitFails

  /** The commit attempt (counted from 0 over the whole run) at which a
      step of the loop raises, and which step it is. */
  datatype Failure = Failure(attempt: nat, kind: FailKind)

  /** The number of commits made before the run stops. */
  function Done(items: seq<(int, int)>, failure: Option<Failure>): nat
  {
    if failure.Some? && failure.value.attempt < |Plan(items)| then failure.value.attempt
    else |Plan(items)|
  }

  // ---------------------------------------------------------------------
  // Facts about the plan and the appended commits.

  lemma {:induction false} PlanConcat(a: seq<(int, int)>, b: seq<(int, int)>)
    ensures Plan(a + b) == Plan(a) + Plan(b)
    decreases |b|
  {
    if b == [] {
      assert a + b == a;
    } else {
      var b', last := b[..|b| - 1], b[|b| - 1];
      PlanConcat(a, b');
      assert b == b' + [last];
      assert a + b == (a + b') + [last];
      PlanSnoc(b', last);
      PlanSnoc(a + b', last);
      ConcatAssoc(Plan(a), Plan(b'), DayPlan(last.0, last.1));
    }
  }

  /** Sequence concatenation is associative. */
  lemma ConcatAssoc<T>(x: seq<T>, y: seq<T>, z: seq<T>)
    ensures (x + y) + z == x + (y + z)
  {
  }

  /** Planning one more item appends that item's day. */
  lemma PlanSnoc(s: seq<(int, int)>, x: (int, int))
    ensures Plan(s + [x]) == Plan(s) + DayPlan(x.0, x.1)
  {
    assert (s + [x])[..|s|] == s;
  }

  /** The `i`-th commit for item `j` comes right after the commits for the
      items before it, and carries the message `commit #(i+1) for <date>`. */
  lemma {:induction false} PlanAt(items: seq<(int, int)>, j: nat, i: nat)
    requires j < |items| && i < items[j].1
    ensures |Plan(items[..j])| + i < |Plan(items)|
    ensures Plan(items)[|Plan(items[..j])| + i] == (Message(i + 1, items[j].0), items[j].0)
  {
    DayPlanAt(items[j].0, items[j].1, i);
    PlanIndex(items, j, i);
  }

  /** Position `|Plan(items[..j])| + i` of the plan holds entry `i` of
      item `j`'s day. */
  lemma {:induction false} PlanIndex(items: seq<(int, int)>, j: nat, i: nat)
    requires j < |items| && i < |DayPlan(items[j].0, items[j].1)|
    ensures |Plan(items[..j])| + i < |Plan(items)|
    ensures Plan(items)[|Plan(items[..j])| + i] == DayPlan(items[j].0, items[j].1)[i]
  {
    PlanAround(items, j);
    MiddleAt(Plan(items), Plan(items[..j]), DayPlan(items[j].0, items[j].1), Plan(items[j + 1..]), i);
  }

  /** The plan is the plans before item `j`, then item `j`'s day, then
      the plans after it. */
  lemma {:induction false} PlanAround(items: seq<(int, int)>, j: nat)
    requires j < |items|
    ensures Plan(items) == Plan(items[..j]) + DayPlan(items[j].0, items[j].1) + Plan(items[j + 1..])
  {
    var head, tail := items[..j + 1], items[j + 1..];
    PlanStep(items, j);
    PlanConcat(head, tail);
    assert head + tail == items;
    assert Plan(items) == Plan(head) + Plan(tail);
  }

  /** Commit `i` of a day's plan carries `commit #(i+1) for <date>`. */
  lemma DayPlanAt(date: Calendar.Day, count: int, i: nat)
    requires i < count
    ensures i < |DayPlan(date, count)| && DayPlan(date, count)[i] == (Message(i + 1, date), date)
  {
  }

  /** Element `i` of the middle part of a three-part sequence. */
  lemma MiddleAt<T>(s: seq<T>, a: seq<T>, b: seq<T>, c: seq<T>, i: nat)
    requires s == a + b + c && i < |b|
    ensures |a| + i < |s| && s[|a| + i] == b[i]
  {
  }

  /** The number of commits is the sum of the positive counts. */
  function Total(items: seq<(int, int)>): nat
  {
    if items == [] then 0
    else
      var last := items[|items| - 1];
      Total(items[..|items| - 1]) + (if last.1 > 0 then last.1 else 0)
  }

  /** Appending keeps the existing commits, adds one commit per planned
      entry with its message and date, chains each to the one before (the
      first to the old HEAD, or none when HEAD was unborn), and leaves HEAD
      on the last one. */
  lemma {:induction false} AppendShape(r: Repo, plan: seq<(string, Calendar.Day)>)
    ensures var a := Append(r, plan); var n := |r.commits|;
      && |a.commits| == n + |plan|
      && a.commits[..n] == r.commits
      && (forall k :: 0 <= k < |plan| ==>
            && a.commits[n + k].message == plan[k].0
            && a.commits[n + k].date == plan[k].1
            && a.commits[n + k].parents == if k == 0 then HeadParents(r) else [n + k - 1])
      && a.head == (if plan == [] then r.head else Some(n + |plan| - 1))
      && a.path == r.path && a.remotes == r.remotes && a.hasIdentity == r.hasIdentity
      && a.pushes == r.pushes
    decreases |plan|
  {
    if plan != [] {
      var init := plan[..|plan| - 1];
      AppendShape(r, init);
      var b := Append(r, init);
      assert b.commits[..|r.commits|] == r.commits;
      assert Append(r, plan).commits == b.commits + [Commit(plan[|plan| - 1].0, HeadParents(b), plan[|plan| - 1].1)];
    }
  }

  /** Appending commits keeps a repository valid. */
  lemma {:induction false} AppendValid(r: Repo, plan: seq<(string, Calendar.Day)>)
    requires r.Valid()
    ensures Append(r, plan).Valid()
    decreases |plan|
  {
    if plan != [] {
      var init := plan[..|plan| - 1];
      AppendValid(r, init);
      var b := Append(r, init);
      var a := Append(r, plan);
      assert a.commits == b.commits + [Commit(plan[|plan| - 1].0, HeadParents(b), plan[|plan| - 1].1)];
      forall k, j | 0 <= k < |a.commits| && 0 <= j < |a.commits[k].parents|
        ensures a.commits[k].parents[j] < k
      {
        if k < |b.commits| {
          assert a.commits[k] == b.commits[k];
        }
      }
    }
  }

  /** Committing a plan in two parts is committing it whole. */
  lemma {:induction false} AppendConcat(r: Repo, p: seq<(string, Calendar.Day)>, q: seq<(string, Calendar.Day)>)
    ensures Append(r, p + q) == Append(Append(r, p), q)
    decreases |q|
  {
    if q == [] {
      assert p + q == p;
    } else {
      AppendConcat(r, p, q[..|q| - 1]);
      assert (p + q)[..|p + q| - 1] == p + q[..|q| - 1];
    }
  }

  /** The number of commits made for one date before the run stops, when
      `attempt` commits came before it. */
  function DayDone(count: int, attempt: nat, failure: Option<Failure>): nat
  {
    var n := if count > 0 then count else 0;
    if failure.Some? && attempt <= failure.value.attempt < attempt + n then failure.value.attempt - attempt
    else n
  }

  /** Commit `i` of a day's plan goes on top of the ones before it. */
  lemma DayStep(repo: Repo, date: Calendar.Day, count: int, i: nat)
    requires i < |DayPlan(date, count)|
    ensures Append(repo, DayPlan(date, count)[..i + 1])
      == CommitOnHead(Append(repo, DayPlan(date, count)[..i]), Message(i + 1, date), date)
  {
    var day := DayPlan(date, count);
    assert day[..i + 1][..i] == day[..i];
  }

  /** The inner loop: `range(count)` commits for one date, the `i`-th
      with message `commit #(i+1) for <date>`, unless an opaque step
      raises on the way. */
  method ForgeDay(repo: Repo, date: Calendar.Day, count: int, attempt: nat, failure: Option<Failure>)
    returns (repo': Repo, attempt': nat, failed: Option<FailKind>)
    requires failure.Some? ==> failure.value.attempt >= attempt
    ensures failed.Some? <==> failure.Some? && failure.value.attempt < attempt + |DayPlan(date, count)|
    ensures failed.Some? ==> failed.value == failure.value.kind
    ensures attempt' == attempt + DayDone(count, attempt, failure)
    ensures repo' == Append(repo, DayPlan(date, count)[..DayDone(count, attempt, failure)])
  {
    ghost var day := DayPlan(date, count);
    repo', attempt' := repo, attempt;
    var i := 0;
    while i < count
      invariant 0 <= i <= |day|
      invariant attempt' == attempt + i
      invariant repo' == Append(repo, day[..i])
      invariant failure.Some? ==> failure.value.attempt >= attempt'
      decreases count - i
    {
      if failure.Some? && failure.value.attempt == attempt' {
        return repo', attempt', Some(failure.value.kind);
      }
      DayStep(repo, date, count, i);
      repo' := CommitOnHead(repo', Message(i + 1, date), date);
      assert repo' == Append(repo, day[..i + 1]);
      attempt' := attempt' + 1;
      i := i + 1;
    }
    assert day[..i] == day;
    failed := None;
  }

  /** The shared commit loop: for each (date, count) item, `count` commits
      on HEAD, stopping at the attempt where an opaque step raises. */
  method ForgeInto(repo: Repo, items: seq<(int, int)>, failure: Option<Failure>)
    returns (repo': Repo, failed: Option<FailKind>)
    ensures failed.Some? <==> failure.Some? && failure.value.attempt < |Plan(items)|
    ensures failed.Some? ==> failed.value == failure.value.kind
    ensures repo' == Append(repo, Plan(items)[..Done(items, failure)])
  {
    repo', failed := repo, None;
    var attempt := 0;
    for j := 0 to |items|
      invariant attempt == |Plan(items[..j])|
      invariant repo' == Append(repo, Plan(items[..j]))
      invariant failure.Some? ==> failure.value.attempt >= attempt
      invariant failed.None?
    {
      var (date, count) := items[j];
      ghost var before := Plan(items[..j]);
      ghost var day := DayPlan(date, count);
      ghost var stop := DayDone(count, attempt, failure);
      repo', attempt, failed := ForgeDay(repo', date, count, attempt, failure);
      AppendConcat(repo, before, day[..stop]);

      PlanStep(items, j);
      if failed.Some? {
        StopInDay(items, j, failure.value);
        return;
      }
      assert stop == |day|;
      assert day[..stop] == day;
    }
    assert items[..|items|] == items;
    assert Plan(items)[..|Plan(items)|] == Plan(items);
  }

  /** A failure during the commits of item `j` stops the run there. */
  lemma {:induction false} StopInDay(items: seq<(int, int)>, j: nat, failure: Failure)
    requires j < |items|
    requires |Plan(items[..j])| <= failure.attempt < |Plan(items[..j])| + |DayPlan(items[j].0, items[j].1)|
    ensures Done(items, Some(failure)) == failure.attempt
    ensures Plan(items)[..failure.attempt] == Plan(items[..j])
      + DayPlan(items[j].0, items[j].1)[..DayDone(items[j].1, |Plan(items[..j])|, Some(failure))]
  {
    PlanStep(items, j);
    PlanPrefix(items, j, failure.attempt - |Plan(items[..j])|);
  }

  /** The plan of the first `j + 1` items extends that of the first `j`. */
  lemma {:induction false} PlanStep(items: seq<(int, int)>, j: nat)
    requires j < |items|
    ensures Plan(items[..j + 1]) == Plan(items[..j]) + DayPlan(items[j].0, items[j].1)
    ensures |Plan(items[..j + 1])| <= |Plan(items)|
  {
    assert items[..j + 1][..j] == items[..j];
    PlanConcat(items[..j + 1], items[j + 1..]);
    assert items[..j + 1] + items[j + 1..] == items;
  }

  /** The commits made before attempt `|Plan(items[..j])| + i` are the
      plan of the first `j` items and `i` commits of item `j`. */
  lemma {:induction false} PlanPrefix(items: seq<(int, int)>, j: nat, i: nat)
    requires j < |items| && i <= (if items[j].1 > 0 then items[j].1 else 0)
    ensures |Plan(items[..j])| + i <= |Plan(items)|
    ensures Plan(items)[..|Plan(items[..j])| + i]
      == Plan(items[..j]) + DayPlan(items[j].0, items[j].1)[..i]
  {
    PlanStep(items, j);
    PlanConcat(items[..j + 1], items[j + 1..]);
    assert items[..j + 1] + items[j + 1..] == items;
  }
}
