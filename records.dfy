/**
 * The rows of the warehouse's relational store and the raw data the Subversion
 * backend hands over for one revision. A Ruby nil string is modelled as "" (the
 * source only ever reads these through `to_s`, `size == 0` or string equality).
 */
module Records {
  import opened Wrappers

  /** A `repositories` row: created outside the sync engine, only read here. */
  datatype Repository = Repository(id: int, path: string, subdomain: string)

  /** A `changesets` row: one per ingested revision. */
  datatype Changeset = Changeset(
    id: int, repositoryId: int, revision: int, author: string, message: string, changedAt: int)

  /** The `name` column of a `changes` row: 'A', 'M', 'MV', 'CP' or 'D'. */
  datatype ChangeName = A | M | MV | CP | D

  /** A `changes` row; `fromPath` and `fromRevision` are set only on MV and CP rows. */
  datatype Change = Change(
    changesetId: int, name: ChangeName, path: string,
    fromPath: Option<string>, fromRevision: Option<int>)

  /** One entry of the delta editor's copied lists: `[path, copyfrom_path, copyfrom_rev]`. */
  datatype CopiedPath = CopiedPath(path: string, fromPath: string, fromRevision: int)

  /** What `dir_delta` between revision `rev - 1` and `rev` reports, list by list. */
  datatype Delta = Delta(
    addedDirs: seq<string>, addedFiles: seq<string>,
    updatedDirs: seq<string>, updatedFiles: seq<string>,
    deletedDirs: seq<string>, deletedFiles: seq<string>,
    copiedDirs: seq<CopiedPath>, copiedFiles: seq<CopiedPath>)

  /** A `users` row. */
  datatype User = User(id: int, login: string, cryptedPassword: string)

  /**
   * A `permissions` row. `userId == None` is the anonymous grant; `author`,
   * `lastChangedAt` and `changesetsCount` are the denormalised fields the sync rewrites.
   */
  datatype Permission = Permission(
    userId: Option<int>, repositoryId: int, path: string, active: int, fullAccess: int,
    author: Option<string>, lastChangedAt: Option<int>, changesetsCount: Option<int>)

  /**
   * The tables the command works on, each in table order. `nextChangesetId` is the
   * id the store assigns to the next `changesets` insert.
   */
  datatype Store = Store(
    repositories: seq<Repository>, changesets: seq<Changeset>, changes: seq<Change>,
    users: seq<User>, permissions: seq<Permission>, nextChangesetId: int)
}
