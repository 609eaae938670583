/**
 * What one run of `sync_revisions_for` does to the store (lib/warehouse/command.rb,
 * lines 39-104), stated as functions of the store before the run, the backend and
 * the wall clock; `Command.SyncRevisionsFor` is proved to produce exactly this.
 *
 * The Subversion backend is a value: its youngest revision and, per revision, the
 * author, log message, date and the delta against the previous revision. The wall
 * clock read after ingesting a revision (`Time.now.utc`) is a function of that revision.
 */
module SyncPlan {
  import opened Wrappers
  import opened Records
  import opened OrderedHash
  import ChangeClassifier

  datatype RevisionInfo = RevisionInfo(author: string, message: string, date: int, delta: Delta)

  datatype Backend = Backend(youngest: int, info: int -> RevisionInfo)

  // ---------------------------------------------------------------- where to start

  /**
   * `changesets.where(repository_id).reverse_order(:changed_at).first`: the repository's
   * changeset with the latest date; among equal dates the one first in table order.
   */
  function Latest(cs: seq<Changeset>, repoId: int): (r: Option<Changeset>)
    ensures r.None? <==> forall i :: 0 <= i < |cs| ==> cs[i].repositoryId != repoId
    ensures r.Some? ==> r.value in cs && r.value.repositoryId == repoId
    ensures r.Some? ==> forall i :: 0 <= i < |cs| && cs[i].repositoryId == repoId ==> cs[i].changedAt <= r.value.changedAt
  {
    if cs == [] then None
    else
      var best := Latest(cs[..|cs| - 1], repoId);
      var c := cs[|cs| - 1];
      if c.repositoryId != repoId then best
      else if best.None? || c.changedAt > best.value.changedAt then Some(c)
      else best
  }

  /** `recorded_revision_for`: the revision after the latest recorded one, 1 when there is none. */
  function NextRevision(cs: seq<Changeset>, repoId: int): (r: int)
    ensures (forall i :: 0 <= i < |cs| ==> cs[i].repositoryId != repoId) ==> r == 1
    ensures (exists i :: 0 <= i < |cs| && cs[i].repositoryId == repoId) ==>
      exists c :: c in cs && c.repositoryId == repoId && r == c.revision + 1 &&
        forall i :: 0 <= i < |cs| && cs[i].repositoryId == repoId ==> cs[i].changedAt <= c.changedAt
  {
    match Latest(cs, repoId)
    case None => 1
    case Some(c) => c.revision + 1
  }

  /**
   * Lines 61-64: `(start..youngest).to_a`, cut to its first `num` entries when `num > 0`.
   */
  function RevisionsToSync(start: int, youngest: int, num: int): (revs: seq<int>)
    ensures forall i :: 0 <= i < |revs| ==> revs[i] == start + i
    ensures |revs| <= (if youngest < start then 0 else youngest - start + 1)
    ensures num > 0 ==> |revs| <= num
    ensures (num <= 0 || num >= youngest - start + 1) && start <= youngest ==> |revs| == youngest - start + 1
    ensures num > 0 && num < youngest - start + 1 ==> |revs| == num
  {
    var all := seq(if youngest < start then 0 else youngest - start + 1, i => start + i);
    if num > 0 && num < |all| then all[..num] else all
  }

  /** The revisions one run ingests, in order. */
  function Plan(db: Store, repo: Repository, num: int, b: Backend): seq<int> {
    RevisionsToSync(NextRevision(db.changesets, repo.id), b.youngest, num)
  }

  // ---------------------------------------------------------------- commit boundaries

  /** Line 69: COMMIT then BEGIN are issued just before ingesting such a revision. */
  predicate IsCommitBoundary(rev: int) {
    rev > 1 && rev % 100 == 0
  }

  /** The revisions before which a run over `revs` issues COMMIT/BEGIN, in order. */
  function Boundaries(revs: seq<int>): (r: seq<int>)
    ensures forall x :: x in r <==> x in revs && IsCommitBoundary(x)
  {
    if revs == [] then []
    else Boundaries(revs[..|revs| - 1]) + (if IsCommitBoundary(revs[|revs| - 1]) then [revs[|revs| - 1]] else [])
  }

  /**
   * How many of the run's revisions are durable if ingesting `revs[k - 1]` fails: those
   * before the last COMMIT issued so far.
   */
  function CommittedCount(revs: seq<int>, k: nat): (c: nat)
    requires k <= |revs|
    ensures c <= k && (k > 0 ==> c < k)
  {
    if k == 0 then 0
    else if IsCommitBoundary(revs[k - 1]) then k - 1
    else CommittedCount(revs, k - 1)
  }

  /** The durable prefix ends right before the last boundary reached, and only there. */
  lemma {:induction false} CommittedCountSpec(revs: seq<int>, k: nat)
    requires 0 < k <= |revs|
    ensures CommittedCount(revs, k) < k
    ensures CommittedCount(revs, k) > 0 ==> IsCommitBoundary(revs[CommittedCount(revs, k)])
    ensures forall j :: CommittedCount(revs, k) < j < k ==> !IsCommitBoundary(revs[j])
  {
    if !IsCommitBoundary(revs[k - 1]) && k > 1 {
      CommittedCountSpec(revs, k - 1);
    }
  }

  /**
   * A first run over revisions 1..300 that fails while ingesting revision 200 (just after
   * the second forced commit) leaves revisions 1..199 durable.
   */
  lemma FailureAtRevision200()
    ensures CommittedCount(RevisionsToSync(1, 300, 0), 200) == 199
  {
    var revs := RevisionsToSync(1, 300, 0);
    CommittedCountSpec(revs, 200);
    assert IsCommitBoundary(revs[199]);
  }

  // ---------------------------------------------------------------- ingestion

  /** The row `create_changeset` inserts for `rev`, given the id the store assigns. */
  function NewChangeset(id: int, repo: Repository, rev: int, b: Backend): Changeset {
    Changeset(id, repo.id, rev, b.info(rev).author, b.info(rev).message, b.info(rev).date)
  }

  /** `create_changeset`: one changesets row, then its changes rows. */
  function IngestOne(db: Store, repo: Repository, rev: int, b: Backend): Store {
    var cs := NewChangeset(db.nextChangesetId, repo, rev, b);
    db.(changesets := db.changesets + [cs],
        changes := db.changes + ChangeClassifier.Classify(cs.id, b.info(rev).delta),
        nextChangesetId := db.nextChangesetId + 1)
  }

  /** The ingestion loop, revision by revision in the given order. */
  function Ingest(db: Store, repo: Repository, revs: seq<int>, b: Backend): (r: Store)
    ensures r.permissions == db.permissions && r.users == db.users
  {
    if revs == [] then db
    else IngestOne(Ingest(db, repo, revs[..|revs| - 1], b), repo, revs[|revs| - 1], b)
  }

  /** The changes rows of the revisions `revs`, whose changesets get ids from `firstId` on. */
  function IngestedChanges(firstId: int, revs: seq<int>, b: Backend): seq<Change> {
    if revs == [] then []
    else IngestedChanges(firstId, revs[..|revs| - 1], b)
         + ChangeClassifier.Classify(firstId + |revs| - 1, b.info(revs[|revs| - 1]).delta)
  }

  lemma {:induction false} IngestFrame(db: Store, repo: Repository, revs: seq<int>, b: Backend)
    ensures Ingest(db, repo, revs, b).repositories == db.repositories
    ensures Ingest(db, repo, revs, b).nextChangesetId == db.nextChangesetId + |revs|
    ensures |Ingest(db, repo, revs, b).changesets| == |db.changesets| + |revs|
  {
    if revs != [] {
      IngestFrame(db, repo, revs[..|revs| - 1], b);
    }
  }

  lemma {:induction false} IngestKeepsRows(db: Store, repo: Repository, revs: seq<int>, b: Backend)
    ensures |Ingest(db, repo, revs, b).changesets| >= |db.changesets|
    ensures Ingest(db, repo, revs, b).changesets[..|db.changesets|] == db.changesets
  {
    if revs != [] {
      var r0 := Ingest(db, repo, revs[..|revs| - 1], b);
      IngestKeepsRows(db, repo, revs[..|revs| - 1], b);
      IngestLast(db, repo, revs, b);
      var c := NewChangeset(r0.nextChangesetId, repo, revs[|revs| - 1], b);
      assert (r0.changesets + [c])[..|db.changesets|] == r0.changesets[..|db.changesets|];
    }
  }

  lemma {:induction false} IngestNewRows(db: Store, repo: Repository, revs: seq<int>, b: Backend)
    ensures |Ingest(db, repo, revs, b).changesets| == |db.changesets| + |revs|
    ensures forall i :: 0 <= i < |revs| ==>
      Ingest(db, repo, revs, b).changesets[|db.changesets| + i] == NewChangeset(db.nextChangesetId + i, repo, revs[i], b)
  {
    IngestFrame(db, repo, revs, b);
    if revs != [] {
      var init := revs[..|revs| - 1];
      IngestNewRows(db, repo, init, b);
      IngestFrame(db, repo, init, b);
      IngestLast(db, repo, revs, b);
      var r0 := Ingest(db, repo, init, b);
      var r := Ingest(db, repo, revs, b);
      forall i | 0 <= i < |revs|
        ensures r.changesets[|db.changesets| + i] == NewChangeset(db.nextChangesetId + i, repo, revs[i], b)
      {
        if i < |revs| - 1 {
          assert r.changesets[|db.changesets| + i] == r0.changesets[|db.changesets| + i];
          assert init[i] == revs[i];
        }
      }
    }
  }

  /**
   * Ingesting appends one changeset per revision, in order, with consecutive ids;
   * earlier rows and the tables other than changes are untouched.
   */
  lemma IngestSpec(db: Store, repo: Repository, revs: seq<int>, b: Backend)
    ensures Ingest(db, repo, revs, b).repositories == db.repositories
    ensures Ingest(db, repo, revs, b).users == db.users
    ensures Ingest(db, repo, revs, b).permissions == db.permissions
    ensures Ingest(db, repo, revs, b).nextChangesetId == db.nextChangesetId + |revs|
    ensures |Ingest(db, repo, revs, b).changesets| == |db.changesets| + |revs|
    ensures Ingest(db, repo, revs, b).changesets[..|db.changesets|] == db.changesets
    ensures forall i :: 0 <= i < |revs| ==>
      Ingest(db, repo, revs, b).changesets[|db.changesets| + i] == NewChangeset(db.nextChangesetId + i, repo, revs[i], b)
  {
    IngestFrame(db, repo, revs, b);
    IngestKeepsRows(db, repo, revs, b);
    IngestNewRows(db, repo, revs, b);
  }

  lemma IngestOneChanges(db: Store, repo: Repository, rev: int, b: Backend)
    ensures IngestOne(db, repo, rev, b).changes == db.changes + ChangeClassifier.Classify(db.nextChangesetId, b.info(rev).delta)
  {
  }

  /** The changes rows ingested are those of each revision's delta, revision by revision. */
  lemma {:induction false} IngestChanges(db: Store, repo: Repository, revs: seq<int>, b: Backend)
    ensures Ingest(db, repo, revs, b).changes == db.changes + IngestedChanges(db.nextChangesetId, revs, b)
  {
    if revs != [] {
      var init := revs[..|revs| - 1];
      IngestChanges(db, repo, init, b);
      IngestFrame(db, repo, init, b);
      var r0 := Ingest(db, repo, init, b);
      IngestOneChanges(r0, repo, revs[|revs| - 1], b);
      var c := ChangeClassifier.Classify(r0.nextChangesetId, b.info(revs[|revs| - 1]).delta);
      var ic := IngestedChanges(db.nextChangesetId, init, b);
      assert Ingest(db, repo, revs, b) == IngestOne(r0, repo, revs[|revs| - 1], b);
      assert IngestedChanges(db.nextChangesetId, revs, b) == ic + c;
      AppendAssoc(db.changes, ic, c);
    }
  }

  lemma AppendAssoc<T>(a: seq<T>, b: seq<T>, c: seq<T>)
    ensures a + b + c == a + (b + c)
  {
  }

  // ---------------------------------------------------------------- resuming

  /**
   * The dates the backend reports grow with the revision number and are later than
   * every changeset already recorded for the repository.
   */
  predicate NewerRevisions(cs: seq<Changeset>, repoId: int, revs: seq<int>, b: Backend) {
    && (forall i, j :: 0 <= i < j < |revs| ==> b.info(revs[i]).date < b.info(revs[j]).date)
    && (forall k, i :: 0 <= k < |cs| && cs[k].repositoryId == repoId && 0 <= i < |revs| ==>
          cs[k].changedAt < b.info(revs[i]).date)
  }

  /** A changeset later than every earlier one of its repository becomes the latest. */
  lemma LatestAppend(cs: seq<Changeset>, c: Changeset, repoId: int)
    requires c.repositoryId == repoId
    requires forall k :: 0 <= k < |cs| && cs[k].repositoryId == repoId ==> cs[k].changedAt < c.changedAt
    ensures Latest(cs + [c], repoId) == Some(c)
  {
    var all := cs + [c];
    assert all[..|all| - 1] == cs;
  }

  /** Row `k` after ingesting `revs`: an old row, or the changeset of one of `revs`. */
  lemma IngestedRow(db: Store, repo: Repository, revs: seq<int>, b: Backend, k: int)
    requires 0 <= k < |Ingest(db, repo, revs, b).changesets|
    ensures k < |db.changesets| ==> Ingest(db, repo, revs, b).changesets[k] == db.changesets[k]
    ensures k >= |db.changesets| ==> (k - |db.changesets| < |revs| &&
      Ingest(db, repo, revs, b).changesets[k] == NewChangeset(db.nextChangesetId + (k - |db.changesets|), repo, revs[k - |db.changesets|], b))
  {
    IngestSpec(db, repo, revs, b);
    var n := |db.changesets|;
    if k < n {
      assert Ingest(db, repo, revs, b).changesets[..n][k] == db.changesets[k];
    }
  }

  /** The changeset of the last revision is later than every one recorded before it. */
  lemma IngestedLatest(db: Store, repo: Repository, revs: seq<int>, b: Backend)
    requires revs != [] && NewerRevisions(db.changesets, repo.id, revs, b)
    ensures var r0 := Ingest(db, repo, revs[..|revs| - 1], b);
      var c := NewChangeset(r0.nextChangesetId, repo, revs[|revs| - 1], b);
      Latest(r0.changesets + [c], repo.id) == Some(c)
  {
    var init := revs[..|revs| - 1];
    var r0 := Ingest(db, repo, init, b);
    var c := NewChangeset(r0.nextChangesetId, repo, revs[|revs| - 1], b);
    var n := |db.changesets|;
    forall k | 0 <= k < |r0.changesets| && r0.changesets[k].repositoryId == repo.id
      ensures r0.changesets[k].changedAt < c.changedAt
    {
      IngestedRow(db, repo, init, b, k);
      if k >= n {
        assert init[k - n] == revs[k - n];
      }
    }
    LatestAppend(r0.changesets, c, repo.id);
  }

  /**
   * After ingesting `revs` with growing dates, the next run starts right after the last
   * of them: a re-run never ingests a revision twice.
   */
  lemma ResumeAfterIngest(db: Store, repo: Repository, revs: seq<int>, b: Backend)
    requires revs != [] && NewerRevisions(db.changesets, repo.id, revs, b)
    ensures NextRevision(Ingest(db, repo, revs, b).changesets, repo.id) == revs[|revs| - 1] + 1
  {
    var last := revs[|revs| - 1];
    var r0 := Ingest(db, repo, revs[..|revs| - 1], b);
    IngestLast(db, repo, revs, b);
    IngestedLatest(db, repo, revs, b);
  }

  /** If the run fails while ingesting `revs[k - 1]`, what is left in the store. */
  function AfterFailure(db: Store, repo: Repository, revs: seq<int>, k: nat, b: Backend): Store
    requires k <= |revs|
  {
    Ingest(db, repo, revs[..CommittedCount(revs, k)], b)
  }

  /**
   * After a failure past a forced commit, the next run starts at the boundary revision
   * itself: the revision whose ingestion the commit preceded is ingested again.
   */
  lemma ResumeAfterFailure(db: Store, repo: Repository, revs: seq<int>, k: nat, b: Backend)
    requires 0 < k <= |revs| && CommittedCount(revs, k) > 0
    requires NewerRevisions(db.changesets, repo.id, revs, b)
    requires forall i :: 0 <= i < |revs| - 1 ==> revs[i + 1] == revs[i] + 1
    ensures NextRevision(AfterFailure(db, repo, revs, k, b).changesets, repo.id) == revs[CommittedCount(revs, k)]
    ensures IsCommitBoundary(revs[CommittedCount(revs, k)])
  {
    var c := CommittedCount(revs, k);
    CommittedCountSpec(revs, k);
    var pre := revs[..c];
    assert NewerRevisions(db.changesets, repo.id, pre, b);
    ResumeAfterIngest(db, repo, pre, b);
  }

  // ---------------------------------------------------------------- authors and users

  /**
   * The `authors` hash after the loop: each author once, in order of first appearance,
   * mapped to the clock reading after their last revision in the run.
   */
  function AuthorTimes(revs: seq<int>, b: Backend, clock: int -> int): Hash<string, int> {
    if revs == [] then []
    else Put(AuthorTimes(revs[..|revs| - 1], b, clock), b.info(revs[|revs| - 1]).author, clock(revs[|revs| - 1]))
  }

  lemma {:induction false} AuthorTimesDistinct(revs: seq<int>, b: Backend, clock: int -> int)
    ensures DistinctKeys(AuthorTimes(revs, b, clock))
  {
    if revs != [] {
      AuthorTimesDistinct(revs[..|revs| - 1], b, clock);
      PutDistinct(AuthorTimes(revs[..|revs| - 1], b, clock), b.info(revs[|revs| - 1]).author, clock(revs[|revs| - 1]));
    }
  }

  lemma {:induction false} AuthorTimesKeys(revs: seq<int>, b: Backend, clock: int -> int, a: string)
    ensures Get(AuthorTimes(revs, b, clock), a).Some? <==> exists i :: 0 <= i < |revs| && b.info(revs[i]).author == a
  {
    if revs != [] {
      var init := revs[..|revs| - 1];
      var last := revs[|revs| - 1];
      AuthorTimesKeys(init, b, clock, a);
      PutGet(AuthorTimes(init, b, clock), b.info(last).author, clock(last), a);
      if b.info(last).author != a {
        if exists i :: 0 <= i < |revs| && b.info(revs[i]).author == a {
          var i :| 0 <= i < |revs| && b.info(revs[i]).author == a;
          assert init[i] == revs[i];
        }
        if exists i :: 0 <= i < |init| && b.info(init[i]).author == a {
          var i :| 0 <= i < |init| && b.info(init[i]).author == a;
          assert init[i] == revs[i];
        }
      }
    }
  }

  lemma {:induction false} AuthorTimesValue(revs: seq<int>, b: Backend, clock: int -> int, a: string)
    ensures Get(AuthorTimes(revs, b, clock), a).Some? ==>
      exists i :: 0 <= i < |revs| && b.info(revs[i]).author == a
        && Get(AuthorTimes(revs, b, clock), a).value == clock(revs[i])
        && forall j :: i < j < |revs| ==> b.info(revs[j]).author != a
  {
    if revs != [] {
      var init := revs[..|revs| - 1];
      var last := revs[|revs| - 1];
      var h := AuthorTimes(init, b, clock);
      PutGet(h, b.info(last).author, clock(last), a);
      if b.info(last).author == a {
        assert b.info(revs[|revs| - 1]).author == a;
      } else if Get(h, a).Some? {
        AuthorTimesValue(init, b, clock, a);
        var i :| 0 <= i < |init| && b.info(init[i]).author == a
          && Get(h, a).value == clock(init[i])
          && forall j :: i < j < |init| ==> b.info(init[j]).author != a;
        assert revs[i] == init[i];
        forall j | i < j < |revs| ensures b.info(revs[j]).author != a {
          if j < |revs| - 1 { assert revs[j] == init[j]; }
        }
      }
    }
  }

  /** Extending the ingested prefix of `revs` by one revision: one more changeset, boundary and author write. */
  lemma IngestPrefixStep(db: Store, repo: Repository, revs: seq<int>, i: nat, b: Backend, clock: int -> int)
    requires i < |revs|
    ensures Ingest(db, repo, revs[..i + 1], b) == IngestOne(Ingest(db, repo, revs[..i], b), repo, revs[i], b)
    ensures Boundaries(revs[..i + 1]) == Boundaries(revs[..i]) + (if IsCommitBoundary(revs[i]) then [revs[i]] else [])
    ensures AuthorTimes(revs[..i + 1], b, clock) == Put(AuthorTimes(revs[..i], b, clock), b.info(revs[i]).author, clock(revs[i]))
  {
    assert revs[..i + 1][..i] == revs[..i];
  }

  /**
   * Every author of the run is a key, with the time of their last revision; there are
   * no other keys, and none twice.
   */
  lemma AuthorTimesSpec(revs: seq<int>, b: Backend, clock: int -> int, a: string)
    ensures DistinctKeys(AuthorTimes(revs, b, clock))
    ensures Get(AuthorTimes(revs, b, clock), a).Some? <==> exists i :: 0 <= i < |revs| && b.info(revs[i]).author == a
    ensures Get(AuthorTimes(revs, b, clock), a).Some? ==>
      exists i :: 0 <= i < |revs| && b.info(revs[i]).author == a
        && Get(AuthorTimes(revs, b, clock), a).value == clock(revs[i])
        && forall j :: i < j < |revs| ==> b.info(revs[j]).author != a
  {
    AuthorTimesDistinct(revs, b, clock);
    AuthorTimesKeys(revs, b, clock, a);
    AuthorTimesValue(revs, b, clock, a);
  }

  /** `users.where(:login => authors.keys)`: the users rows whose login is an author, in table order. */
  function MatchingUsers(users: seq<User>, logins: seq<string>): (r: seq<User>)
    ensures forall u :: u in r <==> u in users && u.login in logins
  {
    if users == [] then []
    else MatchingUsers(users[..|users| - 1], logins)
         + (if users[|users| - 1].login in logins then [users[|users| - 1]] else [])
  }

  /** The login -> id lookup built from user rows; a later row wins on a repeated login. */
  function IdsByLogin(rows: seq<User>): map<string, int> {
    if rows == [] then map[]
    else IdsByLogin(rows[..|rows| - 1])[rows[|rows| - 1].login := rows[|rows| - 1].id]
  }

  /** The lookup resolves exactly the logins of the rows, each to the id of its last row. */
  lemma {:induction false} IdsByLoginSpec(rows: seq<User>, login: string)
    ensures login in IdsByLogin(rows) <==> exists i :: 0 <= i < |rows| && rows[i].login == login
    ensures login in IdsByLogin(rows) ==>
      exists i :: 0 <= i < |rows| && rows[i].login == login && IdsByLogin(rows)[login] == rows[i].id
        && forall j :: i < j < |rows| ==> rows[j].login != login
  {
    if rows != [] {
      var init := rows[..|rows| - 1];
      IdsByLoginSpec(init, login);
      if rows[|rows| - 1].login != login {
        if exists i :: 0 <= i < |rows| && rows[i].login == login {
          var i :| 0 <= i < |rows| && rows[i].login == login;
          assert init[i] == rows[i];
        }
        if login in IdsByLogin(init) {
          var i :| 0 <= i < |init| && init[i].login == login && IdsByLogin(init)[login] == init[i].id
            && forall j :: i < j < |init| ==> init[j].login != login;
          assert rows[i] == init[i];
          forall j | i < j < |rows| ensures rows[j].login != login {
            if j < |rows| - 1 { assert rows[j] == init[j]; }
          }
        }
      }
    }
  }

  /**
   * Lines 78-80 as written: `inject` without an initial value returns nil for no rows,
   * and otherwise starts from the first row itself, whose keys are column symbols, so
   * the first matching user's login is never a key.
   */
  function InjectAsWritten(rows: seq<User>): Option<map<string, int>> {
    if rows == [] then None else Some(IdsByLogin(rows[1..]))
  }

  /** As written, the first matching user is not resolved although a row has that login. */
  lemma {:induction false} InjectAsWrittenDropsFirstUser(rows: seq<User>)
    requires rows != []
    requires forall j :: 0 < j < |rows| ==> rows[j].login != rows[0].login
    ensures InjectAsWritten(rows).Some?
    ensures rows[0].login !in InjectAsWritten(rows).value
    ensures rows[0].login in IdsByLogin(rows)
  {
    IdsByLoginSpec(rows[1..], rows[0].login);
    IdsByLoginSpec(rows, rows[0].login);
  }

  /** The input that shows it: the only author resolves to no user, and no author at all means nil. */
  lemma InjectAsWrittenCounterexample()
    ensures InjectAsWritten([User(42, "al", "x")]) == Some(map[])
    ensures IdsByLogin([User(42, "al", "x")]) == map["al" := 42]
    ensures InjectAsWritten([]) == None
  {
  }

  // ---------------------------------------------------------------- permission statistics

  /** `changesets.where(:repository_id).count(:id)`. */
  function CountFor(cs: seq<Changeset>, repoId: int): nat {
    if cs == [] then 0
    else CountFor(cs[..|cs| - 1], repoId) + (if cs[|cs| - 1].repositoryId == repoId then 1 else 0)
  }

  /** The denormalised fields one `update` writes. */
  function Stamp(p: Permission, login: string, changedAt: int, count: int): Permission {
    p.(author := Some(login), lastChangedAt := Some(changedAt), changesetsCount := Some(count))
  }

  /** Lines 85-86: stamps every permission of `userId` on the repository. */
  function UpdatePermissions(perms: seq<Permission>, userId: int, repoId: int, login: string, changedAt: int, count: int): (r: seq<Permission>)
    ensures |r| == |perms|
  {
    seq(|perms|, i requires 0 <= i < |perms| =>
      if perms[i].userId == Some(userId) && perms[i].repositoryId == repoId
      then Stamp(perms[i], login, changedAt, count) else perms[i])
  }

  /** Lines 82-87: one update per author that resolves to a user, in the hash's order. */
  function Reconcile(perms: seq<Permission>, authors: Hash<string, int>, ids: map<string, int>, repoId: int, count: int): (r: seq<Permission>)
    ensures |r| == |perms|
  {
    if authors == [] then perms
    else
      var p := Reconcile(perms, authors[..|authors| - 1], ids, repoId, count);
      var (login, changedAt) := authors[|authors| - 1];
      if login in ids then UpdatePermissions(p, ids[login], repoId, login, changedAt, count) else p
  }

  /** Author `j` of the hash resolves to a user that owns permission `p` on the repository. */
  predicate Resolves(authors: Hash<string, int>, ids: map<string, int>, p: Permission, repoId: int, j: int) {
    0 <= j < |authors| && authors[j].0 in ids && p.repositoryId == repoId && p.userId == Some(ids[authors[j].0])
  }

  /** Distinct authors resolve to distinct users. */
  predicate InjectiveOn(authors: Hash<string, int>, ids: map<string, int>) {
    forall j, k :: 0 <= j < k < |authors| && authors[j].0 in ids && authors[k].0 in ids ==>
      ids[authors[j].0] != ids[authors[k].0]
  }

  /**
   * A permission owned on the repository by the user an author resolves to gets that
   * author's login and time and the repository's changeset count; every other
   * permission is left as it was.
   */
  lemma {:induction false} ReconcileRow(perms: seq<Permission>, authors: Hash<string, int>, ids: map<string, int>,
                                        repoId: int, count: int, i: nat)
    requires i < |perms| && InjectiveOn(authors, ids)
    ensures (forall j :: !Resolves(authors, ids, perms[i], repoId, j)) ==>
      Reconcile(perms, authors, ids, repoId, count)[i] == perms[i]
    ensures forall j :: Resolves(authors, ids, perms[i], repoId, j) ==>
      Reconcile(perms, authors, ids, repoId, count)[i] == Stamp(perms[i], authors[j].0, authors[j].1, count)
  {
    if authors != [] {
      var init := authors[..|authors| - 1];
      var n := |authors| - 1;
      assert InjectiveOn(init, ids);
      ReconcileRow(perms, init, ids, repoId, count, i);
      forall j | Resolves(init, ids, perms[i], repoId, j) ensures Resolves(authors, ids, perms[i], repoId, j) {
        assert authors[j] == init[j];
      }
      forall j | 0 <= j < n && Resolves(authors, ids, perms[i], repoId, j)
        ensures Resolves(init, ids, perms[i], repoId, j)
      {
        assert authors[j] == init[j];
      }
      if Resolves(authors, ids, perms[i], repoId, n) {
        forall j | 0 <= j < n ensures !Resolves(init, ids, perms[i], repoId, j) {
          assert authors[j] == init[j];
        }
      }
    }
  }

  // ---------------------------------------------------------------- one whole run

  /** `sync_revisions_for(repo, num)`: ingest the planned revisions, then restamp permissions. */
  function SyncFor(db: Store, repo: Repository, num: int, b: Backend, clock: int -> int): (r: Store)
    ensures |r.permissions| == |db.permissions|
  {
    var revs := Plan(db, repo, num, b);
    if revs == [] then db
    else
      var db1 := Ingest(db, repo, revs, b);
      var authors := AuthorTimes(revs, b, clock);
      var ids := IdsByLogin(MatchingUsers(db1.users, Keys(authors)));
      db1.(permissions := Reconcile(db1.permissions, authors, ids, repo.id, CountFor(db1.changesets, repo.id)))
  }

  /** `sync_revisions(num)`: every repository in table order, each run seeing the previous ones' rows. */
  function SyncAll(db: Store, repos: seq<Repository>, num: int, backends: string -> Backend, clocks: int -> int -> int): Store {
    if repos == [] then db
    else
      var r := repos[|repos| - 1];
      SyncFor(SyncAll(db, repos[..|repos| - 1], num, backends, clocks), r, num, backends(r.path), clocks(r.id))
  }

  /** The COMMIT/BEGIN boundaries `sync_revisions` issues, in order. */
  function SyncAllCommits(db: Store, repos: seq<Repository>, num: int, backends: string -> Backend, clocks: int -> int -> int): seq<int> {
    if repos == [] then []
    else
      var r := repos[|repos| - 1];
      SyncAllCommits(db, repos[..|repos| - 1], num, backends, clocks)
      + Boundaries(Plan(SyncAll(db, repos[..|repos| - 1], num, backends, clocks), r, num, backends(r.path)))
  }

  /** Extending the list of repositories by one runs one more sync on the result. */
  lemma SyncAllStep(db: Store, repos: seq<Repository>, i: nat, num: int, backends: string -> Backend, clocks: int -> int -> int)
    requires i < |repos|
    ensures SyncAll(db, repos[..i + 1], num, backends, clocks)
      == SyncFor(SyncAll(db, repos[..i], num, backends, clocks), repos[i], num, backends(repos[i].path), clocks(repos[i].id))
    ensures SyncAllCommits(db, repos[..i + 1], num, backends, clocks)
      == SyncAllCommits(db, repos[..i], num, backends, clocks)
         + Boundaries(Plan(SyncAll(db, repos[..i], num, backends, clocks), repos[i], num, backends(repos[i].path)))
  {
    assert repos[..i + 1][..i] == repos[..i];
  }

  // ---------------------------------------------------------------- properties of a run

  /** A run that ingested something leaves the next run to start right after its last revision. */
  lemma SyncResumes(db: Store, repo: Repository, num: int, b: Backend, clock: int -> int)
    requires Plan(db, repo, num, b) != []
    requires NewerRevisions(db.changesets, repo.id, Plan(db, repo, num, b), b)
    ensures NextRevision(SyncFor(db, repo, num, b, clock).changesets, repo.id)
            == Plan(db, repo, num, b)[|Plan(db, repo, num, b)| - 1] + 1
  {
    ResumeAfterIngest(db, repo, Plan(db, repo, num, b), b);
  }

  /** An unbounded run followed by a second one with no new revisions: the second changes nothing. */
  lemma SyncIdempotent(db: Store, repo: Repository, num: int, b: Backend, clock: int -> int)
    requires num <= 0
    requires NewerRevisions(db.changesets, repo.id, Plan(db, repo, num, b), b)
    ensures SyncFor(SyncFor(db, repo, num, b, clock), repo, num, b, clock) == SyncFor(db, repo, num, b, clock)
  {
    var revs := Plan(db, repo, num, b);
    if revs != [] {
      SyncResumes(db, repo, num, b, clock);
      assert revs[|revs| - 1] == b.youngest;
      assert Plan(SyncFor(db, repo, num, b, clock), repo, num, b) == [];
    }
  }

  /**
   * Why the resume properties need growing dates: the start is taken from the changeset
   * with the latest date, not the highest revision. Revision 1 recorded with date 10 and
   * revision 2 dated 5 make a second unbounded run ingest revision 2 again.
   */
  lemma ResumeByDateRepeatsRevision()
    ensures var repo := Repository(1, "/svn/a", "a");
      var empty := Delta([], [], [], [], [], [], [], []);
      var b := Backend(2, (r: int) => RevisionInfo("al", "", if r == 2 then 5 else 10, empty));
      var db := Store([repo], [Changeset(1, 1, 1, "al", "", 10)], [], [], [], 2);
      var once := SyncFor(db, repo, 0, b, (r: int) => 0);
      Plan(db, repo, 0, b) == [2] && Plan(once, repo, 0, b) == [2]
      && |SyncFor(once, repo, 0, b, (r: int) => 0).changesets| == 3
  {
    var repo := Repository(1, "/svn/a", "a");
    var empty := Delta([], [], [], [], [], [], [], []);
    var b := Backend(2, (r: int) => RevisionInfo("al", "", if r == 2 then 5 else 10, empty));
    var c1 := Changeset(1, 1, 1, "al", "", 10);
    var db := Store([repo], [c1], [], [], [], 2);
    var clock := (r: int) => 0;
    assert Latest([c1], 1) == Some(c1) by { assert [c1][..0] == []; }
    assert Plan(db, repo, 0, b) == [2];
    var once := SyncFor(db, repo, 0, b, clock);
    var c2 := NewChangeset(2, repo, 2, b);
    SyncForChangesets(db, repo, 0, b, clock);
    assert once.changesets == [c1, c2] by {
      IngestLast(db, repo, [2], b);
      assert [2][..0] == [];
    }
    assert Latest([c1, c2], 1) == Some(c1) by {
      assert [c1, c2][..1] == [c1];
      assert [c1][..0] == [];
    }
    assert Plan(once, repo, 0, b) == [2];
    SyncForChangesets(once, repo, 0, b, clock);
    IngestSpec(once, repo, [2], b);
  }

  /** The revisions recorded for a repository, in table order. */
  function RevisionsOf(cs: seq<Changeset>, repoId: int): seq<int> {
    if cs == [] then []
    else RevisionsOf(cs[..|cs| - 1], repoId) + (if cs[|cs| - 1].repositoryId == repoId then [cs[|cs| - 1].revision] else [])
  }

  /** The recorded revisions are 1, 2, ..., n without gap or repeat, and the latest-dated is n. */
  predicate ContiguousHistory(cs: seq<Changeset>, repoId: int) {
    && (forall i :: 0 <= i < |RevisionsOf(cs, repoId)| ==> RevisionsOf(cs, repoId)[i] == i + 1)
    && NextRevision(cs, repoId) == |RevisionsOf(cs, repoId)| + 1
  }

  lemma {:induction false} RevisionsOfAppend(cs: seq<Changeset>, more: seq<Changeset>, repoId: int)
    ensures RevisionsOf(cs + more, repoId) == RevisionsOf(cs, repoId) + RevisionsOf(more, repoId)
  {
    if more != [] {
      var all := cs + more;
      assert all[..|all| - 1] == cs + more[..|more| - 1];
      RevisionsOfAppend(cs, more[..|more| - 1], repoId);
    } else {
      assert cs + more == cs;
    }
  }

  lemma RevisionsOfOne(c: Changeset, repoId: int)
    ensures RevisionsOf([c], repoId) == if c.repositoryId == repoId then [c.revision] else []
  {
    assert [c][..0] == [];
  }

  lemma Snoc<T>(xs: seq<T>)
    requires xs != []
    ensures xs[..|xs| - 1] + [xs[|xs| - 1]] == xs
  {
  }

  /** Ingesting one more revision appends its changeset. */
  lemma IngestLast(db: Store, repo: Repository, revs: seq<int>, b: Backend)
    requires revs != []
    ensures var r0 := Ingest(db, repo, revs[..|revs| - 1], b);
      Ingest(db, repo, revs, b).changesets == r0.changesets + [NewChangeset(r0.nextChangesetId, repo, revs[|revs| - 1], b)]
  {
  }

  /** Ingesting adds exactly the ingested revisions, in order, to the repository's history. */
  lemma {:induction false} RevisionsOfIngest(db: Store, repo: Repository, revs: seq<int>, b: Backend)
    ensures RevisionsOf(Ingest(db, repo, revs, b).changesets, repo.id) == RevisionsOf(db.changesets, repo.id) + revs
  {
    if revs != [] {
      var init := revs[..|revs| - 1];
      var last := revs[|revs| - 1];
      RevisionsOfIngest(db, repo, init, b);
      var r0 := Ingest(db, repo, init, b);
      var c := NewChangeset(r0.nextChangesetId, repo, last, b);
      IngestLast(db, repo, revs, b);
      RevisionsOfAppend(r0.changesets, [c], repo.id);
      RevisionsOfOne(c, repo.id);
      AppendAssoc(RevisionsOf(db.changesets, repo.id), init, [last]);
      Snoc(revs);
    }
  }

  /** A run's changesets rows are those of its ingestion; the permissions update does not touch them. */
  lemma SyncForChangesets(db: Store, repo: Repository, num: int, b: Backend, clock: int -> int)
    ensures SyncFor(db, repo, num, b, clock).changesets == Ingest(db, repo, Plan(db, repo, num, b), b).changesets
  {
  }

  /** A run keeps a repository's history gap-free: it extends 1..n to 1..n + (revisions ingested). */
  lemma SyncKeepsHistoryContiguous(db: Store, repo: Repository, num: int, b: Backend, clock: int -> int)
    requires ContiguousHistory(db.changesets, repo.id)
    requires NewerRevisions(db.changesets, repo.id, Plan(db, repo, num, b), b)
    ensures ContiguousHistory(SyncFor(db, repo, num, b, clock).changesets, repo.id)
    ensures |RevisionsOf(SyncFor(db, repo, num, b, clock).changesets, repo.id)|
            == |RevisionsOf(db.changesets, repo.id)| + |Plan(db, repo, num, b)|
  {
    var revs := Plan(db, repo, num, b);
    var before := RevisionsOf(db.changesets, repo.id);
    var after := SyncFor(db, repo, num, b, clock).changesets;
    SyncForChangesets(db, repo, num, b, clock);
    RevisionsOfIngest(db, repo, revs, b);
    assert RevisionsOf(after, repo.id) == before + revs;
    forall k | 0 <= k < |before + revs| ensures (before + revs)[k] == k + 1 {
      if k >= |before| {
        assert revs[k - |before|] == NextRevision(db.changesets, repo.id) + (k - |before|);
      }
    }
    if revs != [] {
      SyncResumes(db, repo, num, b, clock);
    } else {
      assert after == db.changesets;
    }
  }

  /** No two users rows share an id (the table's primary key). */
  predicate UniqueIds(users: seq<User>) {
    forall u, v :: u in users && v in users && u.id == v.id ==> u == v
  }

  /** No two users rows share a login. */
  predicate UniqueLogins(users: seq<User>) {
    forall u, v :: u in users && v in users && u.login == v.login ==> u == v
  }

  lemma IdsByLoginInjective(rows: seq<User>, authors: Hash<string, int>)
    requires UniqueIds(rows) && DistinctKeys(authors)
    ensures InjectiveOn(authors, IdsByLogin(rows))
  {
    var ids := IdsByLogin(rows);
    forall j, k | 0 <= j < k < |authors| && authors[j].0 in ids && authors[k].0 in ids
      ensures ids[authors[j].0] != ids[authors[k].0]
    {
      IdsByLoginSpec(rows, authors[j].0);
      IdsByLoginSpec(rows, authors[k].0);
    }
  }

  function IndexOf<T(==)>(xs: seq<T>, x: T): (k: nat)
    requires x in xs
    ensures k < |xs| && xs[k] == x
  {
    if xs[0] == x then 0 else 1 + IndexOf(xs[1..], x)
  }

  /** The parts of a run that touch permissions, named. */
  function RunAuthors(db: Store, repo: Repository, num: int, b: Backend, clock: int -> int): Hash<string, int> {
    AuthorTimes(Plan(db, repo, num, b), b, clock)
  }

  function RunIds(db: Store, repo: Repository, num: int, b: Backend, clock: int -> int): map<string, int> {
    IdsByLogin(MatchingUsers(db.users, Keys(RunAuthors(db, repo, num, b, clock))))
  }

  lemma SyncForPermissions(db: Store, repo: Repository, num: int, b: Backend, clock: int -> int)
    requires Plan(db, repo, num, b) != []
    ensures SyncFor(db, repo, num, b, clock).permissions ==
      Reconcile(db.permissions, RunAuthors(db, repo, num, b, clock), RunIds(db, repo, num, b, clock), repo.id,
                CountFor(SyncFor(db, repo, num, b, clock).changesets, repo.id))
  {
    IngestSpec(db, repo, Plan(db, repo, num, b), b);
  }

  /** The user-level reading of ReconcileRow: a permission of a user who is an author is stamped with that author's entry. */
  lemma ReconcileStampsUser(perms: seq<Permission>, authors: Hash<string, int>, users: seq<User>,
                            repoId: int, count: int, i: nat, u: User)
    requires i < |perms| && DistinctKeys(authors) && UniqueIds(users) && UniqueLogins(users)
    requires u in users && Get(authors, u.login).Some?
    requires perms[i].repositoryId == repoId && perms[i].userId == Some(u.id)
    ensures Reconcile(perms, authors, IdsByLogin(MatchingUsers(users, Keys(authors))), repoId, count)[i]
            == Stamp(perms[i], u.login, Get(authors, u.login).value, count)
  {
    var rows := MatchingUsers(users, Keys(authors));
    var ids := IdsByLogin(rows);
    IdsByLoginInjective(rows, authors);
    ReconcileRow(perms, authors, ids, repoId, count, i);
    assert u.login in Keys(authors);
    var j :| 0 <= j < |authors| && Keys(authors)[j] == u.login;
    assert u in rows;
    IdsByLoginSpec(rows, u.login);
    assert u.login in ids by { assert u == rows[IndexOf(rows, u)]; }
    var k :| 0 <= k < |rows| && rows[k].login == u.login && ids[u.login] == rows[k].id;
    assert rows[k] in users;
    GetOfDistinct(authors, j);
    assert Resolves(authors, ids, perms[i], repoId, j);
  }

  /** The other reading: a permission no author resolves to is left alone. */
  lemma ReconcileKeepsOthers(perms: seq<Permission>, authors: Hash<string, int>, users: seq<User>,
                             repoId: int, count: int, i: nat)
    requires i < |perms| && DistinctKeys(authors) && UniqueIds(users)
    requires var p := perms[i];
      p.repositoryId != repoId || p.userId.None? ||
      forall u :: u in users && u.id == p.userId.value ==> Get(authors, u.login).None?
    ensures Reconcile(perms, authors, IdsByLogin(MatchingUsers(users, Keys(authors))), repoId, count)[i] == perms[i]
  {
    var rows := MatchingUsers(users, Keys(authors));
    var ids := IdsByLogin(rows);
    IdsByLoginInjective(rows, authors);
    ReconcileRow(perms, authors, ids, repoId, count, i);
    forall j | 0 <= j < |authors| ensures !Resolves(authors, ids, perms[i], repoId, j) {
      if Resolves(authors, ids, perms[i], repoId, j) {
        IdsByLoginSpec(rows, authors[j].0);
        GetOfDistinct(authors, j);
      }
    }
  }

  /**
   * After a run, a permission on the synced repository of a user who authored one of
   * the run's revisions carries that user's login, the clock reading after their last
   * revision and the repository's changeset count.
   */
  lemma SyncStampsAuthorPermission(db: Store, repo: Repository, num: int, b: Backend, clock: int -> int, i: nat, u: User)
    requires Plan(db, repo, num, b) != [] && i < |db.permissions|
    requires UniqueIds(db.users) && UniqueLogins(db.users)
    requires u in db.users && Get(RunAuthors(db, repo, num, b, clock), u.login).Some?
    requires db.permissions[i].repositoryId == repo.id && db.permissions[i].userId == Some(u.id)
    ensures SyncFor(db, repo, num, b, clock).permissions[i] ==
      Stamp(db.permissions[i], u.login, Get(RunAuthors(db, repo, num, b, clock), u.login).value,
            CountFor(SyncFor(db, repo, num, b, clock).changesets, repo.id))
  {
    SyncForPermissions(db, repo, num, b, clock);
    AuthorTimesSpec(Plan(db, repo, num, b), b, clock, u.login);
    ReconcileStampsUser(db.permissions, RunAuthors(db, repo, num, b, clock), db.users, repo.id,
                        CountFor(SyncFor(db, repo, num, b, clock).changesets, repo.id), i, u);
  }

  /** Permissions on other repositories, anonymous ones and those of users who authored nothing in the run are untouched. */
  lemma SyncKeepsOtherPermissions(db: Store, repo: Repository, num: int, b: Backend, clock: int -> int, i: nat)
    requires i < |db.permissions|
    requires UniqueIds(db.users)
    requires var p := db.permissions[i];
      p.repositoryId != repo.id || p.userId.None? ||
      forall u :: u in db.users && u.id == p.userId.value ==> Get(RunAuthors(db, repo, num, b, clock), u.login).None?
    ensures SyncFor(db, repo, num, b, clock).permissions[i] == db.permissions[i]
  {
    if Plan(db, repo, num, b) != [] {
      SyncForPermissions(db, repo, num, b, clock);
      AuthorTimesSpec(Plan(db, repo, num, b), b, clock, "");
      ReconcileKeepsOthers(db.permissions, RunAuthors(db, repo, num, b, clock), db.users, repo.id,
                           CountFor(SyncFor(db, repo, num, b, clock).changesets, repo.id), i);
    }
  }
}
