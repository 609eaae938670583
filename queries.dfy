/**
 * The store lookups and clean-up of lib/warehouse/command.rb: `find_repo` (lines
 * 241-245) and `clear_changesets_for` (lines 251-260).
 */
module Queries {
  import opened Wrappers
  import opened Records
  import SyncPlan

  // ---------------------------------------------------------------- find_repo

  predicate IsDigit(c: char) {
    '0' <= c <= '9'
  }

  /** The maximal run of decimal digits at the start of `s`. */
  function LeadingDigits(s: string): (d: string)
    ensures |d| <= |s| && d == s[..|d|]
    ensures forall i :: 0 <= i < |d| ==> IsDigit(d[i])
    ensures |d| < |s| ==> !IsDigit(s[|d|])
  {
    if s == [] || !IsDigit(s[0]) then [] else [s[0]] + LeadingDigits(s[1..])
  }

  /** The number a string of digits spells. */
  function NumberOf(digits: string): nat
    requires forall i :: 0 <= i < |digits| ==> IsDigit(digits[i])
  {
    if digits == [] then 0
    else
      assert IsDigit(digits[|digits| - 1]);
      NumberOf(digits[..|digits| - 1]) * 10 + (digits[|digits| - 1] as int - '0' as int)
  }

  /**
   * `String#to_i` on unsigned digit text: the number its leading digits spell, 0 when
   * there are none. Ruby also skips leading whitespace and reads a sign and underscores,
   * which this does not.
   */
  function ToI(s: string): nat {
    NumberOf(LeadingDigits(s))
  }

  /** The decimal spelling of `n` without leading zeros. */
  function Decimal(n: nat): (s: string)
    ensures s != [] && forall i :: 0 <= i < |s| ==> IsDigit(s[i])
  {
    if n < 10 then [('0' as int + n) as char]
    else Decimal(n / 10) + [('0' as int + n % 10) as char]
  }

  /** Reading back a decimal spelling gives the number. */
  lemma {:induction false} DecimalRoundTrip(n: nat)
    ensures LeadingDigits(Decimal(n)) == Decimal(n)
    ensures ToI(Decimal(n)) == n
  {
    AllDigitsLead(Decimal(n));
    NumberOfDecimal(n);
  }

  lemma {:induction false} AllDigitsLead(s: string)
    requires forall i :: 0 <= i < |s| ==> IsDigit(s[i])
    ensures LeadingDigits(s) == s
  {
    if s != [] {
      AllDigitsLead(s[1..]);
    }
  }

  lemma {:induction false} NumberOfDecimal(n: nat)
    ensures NumberOf(Decimal(n)) == n
  {
    if n >= 10 {
      NumberOfDecimal(n / 10);
      var d := Decimal(n);
      assert d[..|d| - 1] == Decimal(n / 10);
    }
  }

  /** The first repository, in table order, whose `key` is `k`: `repositories[key => value]`. */
  function FirstWith<K(==)>(repos: seq<Repository>, key: Repository -> K, k: K): (r: Option<Repository>)
    ensures r.None? <==> forall i :: 0 <= i < |repos| ==> key(repos[i]) != k
    ensures r.Some? ==> exists i :: (0 <= i < |repos| && repos[i] == r.value && key(r.value) == k
      && forall j :: 0 <= j < i ==> key(repos[j]) != k)
  {
    if repos == [] then None
    else if key(repos[0]) == k then Some(repos[0])
    else
      var r := FirstWith(repos[1..], key, k);
      assert forall i :: 0 < i < |repos| ==> repos[i] == repos[1..][i - 1];
      r
  }

  function IdOf(r: Repository): int { r.id }
  function SubdomainOf(r: Repository): string { r.subdomain }

  /** `find_repo(value)`: nil finds nothing; a value that reads as a positive number is an id, anything else a subdomain. */
  function FindRepo(repos: seq<Repository>, value: Option<string>): Option<Repository> {
    match value
    case None => None
    case Some(v) => if ToI(v) > 0 then FirstWith(repos, IdOf, ToI(v) as int) else FirstWith(repos, SubdomainOf, v)
  }

  predicate UniqueRepoIds(repos: seq<Repository>) {
    forall i, j :: 0 <= i < j < |repos| ==> repos[i].id != repos[j].id
  }

  predicate UniqueSubdomains(repos: seq<Repository>) {
    forall i, j :: 0 <= i < j < |repos| ==> repos[i].subdomain != repos[j].subdomain
  }

  /** A repository with a positive id is found by the decimal spelling of its id. */
  lemma FindRepoById(repos: seq<Repository>, k: nat)
    requires k < |repos| && repos[k].id > 0 && UniqueRepoIds(repos)
    ensures FindRepo(repos, Some(Decimal(repos[k].id))) == Some(repos[k])
  {
    DecimalRoundTrip(repos[k].id);
  }

  /** A repository whose subdomain does not read as a positive number is found by its subdomain. */
  lemma FindRepoBySubdomain(repos: seq<Repository>, k: nat)
    requires k < |repos| && ToI(repos[k].subdomain) == 0 && UniqueSubdomains(repos)
    ensures FindRepo(repos, Some(repos[k].subdomain)) == Some(repos[k])
  {
  }

  /** A subdomain that starts with a positive number is taken for an id. */
  lemma NumericSubdomainIsTakenForId()
    ensures FindRepo([Repository(42, "/svn/a", "a"), Repository(7, "/svn/b", "42b")], Some("42b"))
      == Some(Repository(42, "/svn/a", "a"))
  {
    assert LeadingDigits("42b") == "42" by {
      assert LeadingDigits("b") == [];
      assert "42b"[1..] == "2b" && "2b"[1..] == "b";
    }
    assert "42"[..1] == "4";
    assert NumberOf("42") == 42;
  }

  // ---------------------------------------------------------------- clear_changesets_for

  /** The changesets rows that do not belong to the repository. */
  function OtherChangesets(cs: seq<Changeset>, repoId: int): (r: seq<Changeset>)
    ensures forall c :: c in r <==> c in cs && c.repositoryId != repoId
  {
    if cs == [] then []
    else
      var c := cs[|cs| - 1];
      OtherChangesets(cs[..|cs| - 1], repoId) + (if c.repositoryId != repoId then [c] else [])
  }

  /** The ids of the repository's changesets: the subquery `changesets.select(:id)`. */
  function ChangesetIds(cs: seq<Changeset>, repoId: int): set<int> {
    set c | c in cs && c.repositoryId == repoId :: c.id
  }

  /** The changes rows whose changeset is not among `ids`. */
  function ChangesOutside(changes: seq<Change>, ids: set<int>): (r: seq<Change>)
    ensures forall c :: c in r <==> c in changes && c.changesetId !in ids
  {
    if changes == [] then []
    else
      var c := changes[|changes| - 1];
      ChangesOutside(changes[..|changes| - 1], ids) + (if c.changesetId !in ids then [c] else [])
  }

  /**
   * `clear_changesets_for(target)`: without a target every change and changeset goes;
   * with one, the repository's changesets and the changes that belong to them.
   */
  function ClearChangesetsFor(db: Store, target: Option<int>): (r: Store)
    ensures r.repositories == db.repositories && r.users == db.users && r.permissions == db.permissions
    ensures r.nextChangesetId == db.nextChangesetId
    ensures target.None? ==> r.changesets == [] && r.changes == []
    ensures target.Some? ==> forall c :: c in r.changesets <==> c in db.changesets && c.repositoryId != target.value
    ensures target.Some? ==> forall c :: c in r.changes <==>
      c in db.changes && c.changesetId !in ChangesetIds(db.changesets, target.value)
  {
    match target
    case None => db.(changesets := [], changes := [])
    case Some(id) =>
      db.(changes := ChangesOutside(db.changes, ChangesetIds(db.changesets, id)),
          changesets := OtherChangesets(db.changesets, id))
  }

  /** Other repositories keep their latest changeset, so their next sync starts where it did. */
  lemma {:induction false} LatestOfOthers(cs: seq<Changeset>, repoId: int, other: int)
    requires other != repoId
    ensures SyncPlan.Latest(OtherChangesets(cs, repoId), other) == SyncPlan.Latest(cs, other)
  {
    if cs != [] {
      var n := |cs| - 1;
      var c := cs[n];
      var kept := OtherChangesets(cs[..n], repoId);
      LatestOfOthers(cs[..n], repoId, other);
      var best := SyncPlan.Latest(cs[..n], other);
      if c.repositoryId != repoId {
        var k := kept + [c];
        assert OtherChangesets(cs, repoId) == k;
        assert k[..|k| - 1] == kept && k[|k| - 1] == c;
        assert SyncPlan.Latest(k, other) ==
          if c.repositoryId != other then best
          else if best.None? || c.changedAt > best.value.changedAt then Some(c)
          else best;
      } else {
        assert OtherChangesets(cs, repoId) == kept;
        assert SyncPlan.Latest(cs, other) == best;
      }
    }
  }

  /**
   * After clearing a repository its next sync starts again at revision 1, and every
   * other repository's starting revision is unchanged.
   */
  lemma ClearRestartsSync(db: Store, target: Option<int>, repoId: int)
    ensures target.None? || target == Some(repoId) ==>
      SyncPlan.NextRevision(ClearChangesetsFor(db, target).changesets, repoId) == 1
    ensures target.Some? && target.value != repoId ==>
      SyncPlan.NextRevision(ClearChangesetsFor(db, target).changesets, repoId) == SyncPlan.NextRevision(db.changesets, repoId)
  {
    var cs := ClearChangesetsFor(db, target).changesets;
    if target.Some? && target.value != repoId {
      LatestOfOthers(db.changesets, target.value, repoId);
    } else {
      forall i | 0 <= i < |cs| ensures cs[i].repositoryId != repoId {
        assert cs[i] in cs;
      }
    }
  }
}
