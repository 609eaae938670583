/**
 * `Warehouse::Command` (lib/warehouse/command.rb): the object that syncs Subversion
 * revisions into the store and writes the server's access and credential files.
 *
 * Its state is what the source changes: the store behind `connection`, the COMMIT/BEGIN
 * boundaries the sync issues, and the files it writes (an access file is its text, an
 * htpasswd file its login -> crypted password map). The backend and the clock are
 * parameters of the operations that read them.
 */
module Warehouse {
  import opened Wrappers
  import opened Records
  import opened OrderedHash
  import ChangeClassifier
  import SyncPlan
  import Credentials
  import AccessConfig
  import Queries

  /** The first argument of `build_config_for`: a list of repositories, or a value for `find_repo`. */
  datatype RepoSelector = Listed(repos: seq<Repository>) | Lookup(value: Option<string>)

  class Command {
    var db: Store
    var commits: seq<int>
    var configFiles: map<string, string>
    var htpasswdFiles: map<string, map<string, string>>

    constructor (store: Store, configs: map<string, string>, htpasswds: map<string, map<string, string>>)
      ensures db == store && commits == [] && configFiles == configs && htpasswdFiles == htpasswds
    {
      db := store;
      commits := [];
      configFiles := configs;
      htpasswdFiles := htpasswds;
    }

    /** Lines 39-42: the revision after the latest recorded one, 1 when none is recorded. */
    method RecordedRevisionFor(repo: Repository) returns (rev: int)
      ensures rev == SyncPlan.NextRevision(db.changesets, repo.id)
      ensures (forall i :: 0 <= i < |db.changesets| ==> db.changesets[i].repositoryId != repo.id) ==> rev == 1
    {
      rev := match SyncPlan.Latest(db.changesets, repo.id)
        case None => 0 + 1
        case Some(changeset) => changeset.revision + 1;
    }

    // ------------------------------------------------------------ changes of one revision

    /** Lines 138-146: inserts one changes row. */
    method ProcessChangePathAndSave(changesetId: int, name: ChangeName, path: ChangeClassifier.PathEntry)
      requires ChangeClassifier.Fits(name, path)
      modifies this
      ensures db == old(db).(changes := old(db).changes + [ChangeClassifier.Record(changesetId, name, path)])
      ensures commits == old(commits) && configFiles == old(configFiles) && htpasswdFiles == old(htpasswdFiles)
    {
      var change := ChangeClassifier.Record(changesetId, name, path);
      db := db.(changes := db.changes + [change]);
    }

    /** One `each` loop of lines 112-134 over plain paths. */
    method SavePaths(changesetId: int, name: ChangeName, paths: seq<string>)
      requires name != MV && name != CP
      modifies this
      ensures db == old(db).(changes := old(db).changes + ChangeClassifier.PathChanges(changesetId, name, paths))
      ensures commits == old(commits) && configFiles == old(configFiles) && htpasswdFiles == old(htpasswdFiles)
    {
      var i := 0;
      while i < |paths|
        invariant 0 <= i <= |paths|
        invariant db == old(db).(changes := old(db).changes + ChangeClassifier.PathChanges(changesetId, name, paths[..i]))
        invariant commits == old(commits) && configFiles == old(configFiles) && htpasswdFiles == old(htpasswdFiles)
      {
        assert ChangeClassifier.PathChanges(changesetId, name, paths[..i + 1])
          == ChangeClassifier.PathChanges(changesetId, name, paths[..i]) + [ChangeClassifier.PathChange(changesetId, name, paths[i])];
        ProcessChangePathAndSave(changesetId, name, ChangeClassifier.Plain(paths[i]));
        i := i + 1;
      }
      assert paths[..i] == paths;
    }

    /** One `each` loop of lines 125-131 over copied entries. */
    method SaveCopies(changesetId: int, name: ChangeName, copies: seq<CopiedPath>)
      requires name == MV || name == CP
      modifies this
      ensures db == old(db).(changes := old(db).changes + ChangeClassifier.CopyChanges(changesetId, name, copies))
      ensures commits == old(commits) && configFiles == old(configFiles) && htpasswdFiles == old(htpasswdFiles)
    {
      var i := 0;
      while i < |copies|
        invariant 0 <= i <= |copies|
        invariant db == old(db).(changes := old(db).changes + ChangeClassifier.CopyChanges(changesetId, name, copies[..i]))
        invariant commits == old(commits) && configFiles == old(configFiles) && htpasswdFiles == old(htpasswdFiles)
      {
        assert ChangeClassifier.CopyChanges(changesetId, name, copies[..i + 1])
          == ChangeClassifier.CopyChanges(changesetId, name, copies[..i]) + [ChangeClassifier.CopyChange(changesetId, name, copies[i])];
        ProcessChangePathAndSave(changesetId, name, ChangeClassifier.Copy(copies[i]));
        i := i + 1;
      }
      assert copies[..i] == copies;
    }

    /**
     * Lines 106-136: the rows of one revision, A, M, MV, CP and D in that order, moves
     * told from copies by the partition loop.
     */
    method CreateChangeFromChangeset(changesetId: int, d: Delta)
      modifies this
      ensures db == old(db).(changes := old(db).changes + ChangeClassifier.Classify(changesetId, d))
      ensures commits == old(commits) && configFiles == old(configFiles) && htpasswdFiles == old(htpasswdFiles)
    {
      SavePaths(changesetId, A, ChangeClassifier.Added(d));
      SavePaths(changesetId, M, ChangeClassifier.Updated(d));
      var moved, copied, deleted := ChangeClassifier.PartitionCopies(ChangeClassifier.Copied(d), ChangeClassifier.Deleted(d));
      SaveCopies(changesetId, MV, moved);
      SaveCopies(changesetId, CP, copied);
      SavePaths(changesetId, D, deleted);
      AppendAssoc5(old(db).changes,
        ChangeClassifier.PathChanges(changesetId, A, ChangeClassifier.Added(d)),
        ChangeClassifier.PathChanges(changesetId, M, ChangeClassifier.Updated(d)),
        ChangeClassifier.CopyChanges(changesetId, MV, moved),
        ChangeClassifier.CopyChanges(changesetId, CP, copied),
        ChangeClassifier.PathChanges(changesetId, D, deleted));
    }

    /** Lines 93-104: the changesets row of one revision, then its changes rows. */
    method CreateChangeset(repo: Repository, rev: int, b: SyncPlan.Backend) returns (changeset: Changeset)
      modifies this
      ensures changeset == SyncPlan.NewChangeset(old(db).nextChangesetId, repo, rev, b)
      ensures db == SyncPlan.IngestOne(old(db), repo, rev, b)
      ensures commits == old(commits) && configFiles == old(configFiles) && htpasswdFiles == old(htpasswdFiles)
    {
      changeset := SyncPlan.NewChangeset(db.nextChangesetId, repo, rev, b);
      db := db.(changesets := db.changesets + [changeset], nextChangesetId := db.nextChangesetId + 1);
      CreateChangeFromChangeset(changeset.id, b.info(rev).delta);
    }

    // ------------------------------------------------------------ syncing

    /**
     * Lines 58-91: ingests the planned revisions in order, issuing COMMIT/BEGIN before
     * each boundary revision, then stamps the permissions of the authors that resolve to
     * users. The login lookup is the one the source evidently intends (see `IdsByLogin`).
     */
    method SyncRevisionsFor(repo: Repository, num: int, b: SyncPlan.Backend, clock: int -> int)
      modifies this
      ensures db == SyncPlan.SyncFor(old(db), repo, num, b, clock)
      ensures commits == old(commits) + SyncPlan.Boundaries(SyncPlan.Plan(old(db), repo, num, b))
      ensures configFiles == old(configFiles) && htpasswdFiles == old(htpasswdFiles)
    {
      var start := RecordedRevisionFor(repo);
      var revisions := SyncPlan.RevisionsToSync(start, b.youngest, num);
      if revisions == [] {
        return;
      }
      var authors := IngestRevisions(repo, revisions, b, clock);
      var users := SyncPlan.IdsByLogin(SyncPlan.MatchingUsers(db.users, Keys(authors)));
      StampAuthors(repo, authors, users);
    }

    /** Lines 69-74: one iteration of the ingestion loop; answers the revision's author. */
    method IngestRevision(repo: Repository, rev: int, b: SyncPlan.Backend) returns (author: string)
      modifies this
      ensures db == SyncPlan.IngestOne(old(db), repo, rev, b)
      ensures commits == old(commits) + (if SyncPlan.IsCommitBoundary(rev) then [rev] else [])
      ensures author == b.info(rev).author
      ensures configFiles == old(configFiles) && htpasswdFiles == old(htpasswdFiles)
    {
      if rev > 1 && rev % 100 == 0 {
        commits := commits + [rev];
      } else {
        assert commits == commits + [];
      }
      var changeset := CreateChangeset(repo, rev, b);
      author := changeset.author;
    }

    /** Lines 68-76: one changeset per revision, a COMMIT/BEGIN before each boundary revision. */
    method IngestRevisions(repo: Repository, revisions: seq<int>, b: SyncPlan.Backend, clock: int -> int)
      returns (authors: Hash<string, int>)
      modifies this
      ensures db == SyncPlan.Ingest(old(db), repo, revisions, b)
      ensures commits == old(commits) + SyncPlan.Boundaries(revisions)
      ensures authors == SyncPlan.AuthorTimes(revisions, b, clock)
      ensures configFiles == old(configFiles) && htpasswdFiles == old(htpasswdFiles)
    {
      authors := [];
      var i := 0;
      assert commits == old(commits) + SyncPlan.Boundaries(revisions[..0]) by {
        assert revisions[..0] == [];
      }
      while i < |revisions|
        invariant 0 <= i <= |revisions|
        invariant db == SyncPlan.Ingest(old(db), repo, revisions[..i], b)
        invariant commits == old(commits) + SyncPlan.Boundaries(revisions[..i])
        invariant authors == SyncPlan.AuthorTimes(revisions[..i], b, clock)
        invariant configFiles == old(configFiles) && htpasswdFiles == old(htpasswdFiles)
      {
        SyncPlan.IngestPrefixStep(old(db), repo, revisions, i, b, clock);
        SyncPlan.AppendAssoc(old(commits), SyncPlan.Boundaries(revisions[..i]),
                             if SyncPlan.IsCommitBoundary(revisions[i]) then [revisions[i]] else []);
        var author := IngestRevision(repo, revisions[i], b);
        authors := Put(authors, author, clock(revisions[i]));
        i := i + 1;
      }
      assert revisions[..i] == revisions;
    }

    /** Lines 82-87: one permissions update per author that resolves to a user. */
    method StampAuthors(repo: Repository, authors: Hash<string, int>, users: map<string, int>)
      modifies this
      ensures db == old(db).(permissions := SyncPlan.Reconcile(old(db).permissions, authors, users, repo.id,
                                                               SyncPlan.CountFor(old(db).changesets, repo.id)))
      ensures commits == old(commits) && configFiles == old(configFiles) && htpasswdFiles == old(htpasswdFiles)
    {
      var j := 0;
      while j < |authors|
        invariant 0 <= j <= |authors|
        invariant db == old(db).(permissions := SyncPlan.Reconcile(old(db).permissions, authors[..j], users, repo.id,
                                                                   SyncPlan.CountFor(old(db).changesets, repo.id)))
        invariant commits == old(commits) && configFiles == old(configFiles) && htpasswdFiles == old(htpasswdFiles)
      {
        var (login, changedAt) := authors[j];
        assert authors[..j + 1][..j] == authors[..j];
        if login in users {
          var changesetsCount := SyncPlan.CountFor(db.changesets, repo.id);
          db := db.(permissions := SyncPlan.UpdatePermissions(db.permissions, users[login], repo.id, login, changedAt, changesetsCount));
        }
        j := j + 1;
      }
      assert authors[..j] == authors;
    }

    /** Lines 52-56: every repository in table order. */
    method SyncRevisions(num: int, backends: string -> SyncPlan.Backend, clocks: int -> int -> int)
      modifies this
      ensures db == SyncPlan.SyncAll(old(db), old(db).repositories, num, backends, clocks)
      ensures commits == old(commits) + SyncPlan.SyncAllCommits(old(db), old(db).repositories, num, backends, clocks)
      ensures configFiles == old(configFiles) && htpasswdFiles == old(htpasswdFiles)
    {
      var repos := db.repositories;
      var i := 0;
      while i < |repos|
        invariant 0 <= i <= |repos|
        invariant db == SyncPlan.SyncAll(old(db), repos[..i], num, backends, clocks)
        invariant commits == old(commits) + SyncPlan.SyncAllCommits(old(db), repos[..i], num, backends, clocks)
        invariant configFiles == old(configFiles) && htpasswdFiles == old(htpasswdFiles)
      {
        SyncPlan.SyncAllStep(old(db), repos, i, num, backends, clocks);
        SyncPlan.AppendAssoc(old(commits), SyncPlan.SyncAllCommits(old(db), repos[..i], num, backends, clocks),
                             SyncPlan.Boundaries(SyncPlan.Plan(db, repos[i], num, backends(repos[i].path))));
        SyncRevisionsFor(repos[i], num, backends(repos[i].path), clocks(repos[i].id));
        i := i + 1;
      }
      assert repos[..i] == repos;
    }

    // ------------------------------------------------------------ credential files

    /** Lines 154-170: empties the file, then adds every user with a login and a password. */
    method WriteUsersToHtpasswd(users: seq<User>, htpasswdPath: string)
      modifies this
      ensures htpasswdFiles == old(htpasswdFiles)[htpasswdPath := Credentials.Credentials(users)]
      ensures db == old(db) && commits == old(commits) && configFiles == old(configFiles)
    {
      var htpasswd := new Credentials.Htpasswd(if htpasswdPath in htpasswdFiles then htpasswdFiles[htpasswdPath] else map[]);
      htpasswd.Clear();
      var i := 0;
      while i < |users|
        invariant 0 <= i <= |users|
        invariant htpasswd.passwd == Credentials.Credentials(users[..i])
        modifies htpasswd
      {
        var user := users[i];
        assert users[..i + 1][..i] == users[..i];
        if Credentials.Listed(user) {
          htpasswd.passwd := htpasswd.passwd[user.login := user.cryptedPassword];
        }
        i := i + 1;
      }
      assert users[..i] == users;
      htpasswdFiles := htpasswdFiles[htpasswdPath := htpasswd.passwd];
    }

    /** Lines 155-158: with one argument, the file gets every user of the store. */
    method WriteAllUsersToHtpasswd(htpasswdPath: string)
      modifies this
      ensures htpasswdFiles == old(htpasswdFiles)[htpasswdPath := Credentials.Credentials(old(db).users)]
      ensures db == old(db) && commits == old(commits) && configFiles == old(configFiles)
    {
      WriteUsersToHtpasswd(db.users, htpasswdPath);
    }

    /** Lines 148-152: one file per repository, holding the repository's users. */
    method WriteRepoUsersToHtpasswd(repos: seq<Repository>, htpasswdPath: string)
      modifies this
      ensures htpasswdFiles == Credentials.RepoFiles(old(htpasswdFiles), repos, htpasswdPath, old(db).users, old(db).permissions)
      ensures db == old(db) && commits == old(commits) && configFiles == old(configFiles)
    {
      var i := 0;
      while i < |repos|
        invariant 0 <= i <= |repos|
        invariant htpasswdFiles == Credentials.RepoFiles(old(htpasswdFiles), repos[..i], htpasswdPath, db.users, db.permissions)
        invariant db == old(db) && commits == old(commits) && configFiles == old(configFiles)
      {
        var repo := repos[i];
        assert repos[..i + 1][..i] == repos[..i];
        WriteUsersToHtpasswd(Credentials.UsersFromRepo(db.users, db.permissions, repo.id),
                             Credentials.RepoPath(htpasswdPath, repo));
        i := i + 1;
      }
      assert repos[..i] == repos;
    }

    // ------------------------------------------------------------ access file

    /**
     * Lines 176-206: the access file for the listed repositories; a lookup that finds no
     * repository fails before the file is opened.
     */
    method BuildConfigFor(repositories: RepoSelector, configPath: string) returns (outcome: Result<(), string>)
      modifies this
      ensures repositories.Listed? ==> (outcome.Success? &&
        configFiles == old(configFiles)[configPath := AccessConfig.BuildConfigText(old(db).permissions, old(db).users, repositories.repos)])
      ensures repositories.Lookup? ==>
        match Queries.FindRepo(old(db).repositories, repositories.value)
        case None => outcome.Failure? && configFiles == old(configFiles)
        case Some(r) => (outcome.Success? &&
          configFiles == old(configFiles)[configPath := AccessConfig.BuildConfigText(old(db).permissions, old(db).users, [r])])
      ensures db == old(db) && commits == old(commits) && htpasswdFiles == old(htpasswdFiles)
      decreases if repositories.Lookup? then 1 else 0
    {
      match repositories
      case Lookup(value) =>
        var found := Queries.FindRepo(db.repositories, value);
        if found.None? {
          return Failure("no repository for the given value");
        }
        outcome := BuildConfigFor(Listed([found.value]), configPath);
      case Listed(repos) =>
        var grouped := AccessConfig.GroupedPermissionsFor(db.permissions, repos);
        var permissions := AccessConfig.GroupedPermissionPathsFor(grouped);
        var users := AccessConfig.IndexedUsersFrom(db.users, AccessConfig.FlattenPaths(permissions));
        var text := AccessConfig.RenderConfig(repos, permissions, users);
        configFiles := configFiles[configPath := text];
        outcome := Success(());
    }

    /** Lines 172-174: the access file for every repository. */
    method BuildConfig(configPath: string)
      modifies this
      ensures configFiles == old(configFiles)[configPath := AccessConfig.BuildConfigText(old(db).permissions, old(db).users, old(db).repositories)]
      ensures db == old(db) && commits == old(commits) && htpasswdFiles == old(htpasswdFiles)
    {
      var outcome := BuildConfigFor(Listed(db.repositories), configPath);
    }

    // ------------------------------------------------------------ clean-up

    /** Lines 251-260: removes a repository's changesets and changes, or all of them. */
    method ClearChangesetsFor(target: Option<int>)
      modifies this
      ensures db == Queries.ClearChangesetsFor(old(db), target)
      ensures commits == old(commits) && configFiles == old(configFiles) && htpasswdFiles == old(htpasswdFiles)
    {
      db := Queries.ClearChangesetsFor(db, target);
    }

    /** Lines 247-249. */
    method ClearChangesets()
      modifies this
      ensures db == old(db).(changesets := [], changes := [])
      ensures commits == old(commits) && configFiles == old(configFiles) && htpasswdFiles == old(htpasswdFiles)
    {
      ClearChangesetsFor(None);
    }
  }

  lemma AppendAssoc5<T>(a: seq<T>, b: seq<T>, c: seq<T>, d: seq<T>, e: seq<T>, f: seq<T>)
    ensures a + b + c + d + e + f == a + (b + c + d + e + f)
  {
  }
}
