/**
 * The access file `build_config_for` writes for the Subversion server
 * (lib/warehouse/command.rb, lines 176-228): active permissions grouped by repository
 * and then by path, one `[subdomain:/path]` stanza per group with one rule line per
 * permission. The file is modelled as the text written to it.
 */
module AccessConfig {
  import opened Wrappers
  import opened Records
  import opened OrderedHash

  /** Permissions grouped by path, paths in order of first appearance. */
  type PathGroups = Hash<string, seq<Permission>>

  /** Path groups per repository id, ids in order of first appearance. */
  type RepoGroups = Hash<int, PathGroups>

  function RepoOf(p: Permission): int { p.repositoryId }
  function PathOf(p: Permission): string { p.path }

  function RepoIds(repos: seq<Repository>): (ids: seq<int>)
    ensures |ids| == |repos| && forall i :: 0 <= i < |repos| ==> ids[i] == repos[i].id
  {
    seq(|repos|, i requires 0 <= i < |repos| => repos[i].id)
  }

  // ---------------------------------------------------------------- grouping

  /** `permissions.where(:active => 1, :repository_id => ids)`, in table order. */
  function ActivePermissions(perms: seq<Permission>, ids: seq<int>): (r: seq<Permission>)
    ensures forall p :: p in r <==> p in perms && p.active == 1 && p.repositoryId in ids
  {
    if perms == [] then []
    else
      var p := perms[|perms| - 1];
      ActivePermissions(perms[..|perms| - 1], ids) + (if p.active == 1 && p.repositoryId in ids then [p] else [])
  }

  /** `grouped_permissions_for`: the active permissions of the repositories, grouped by repository id. */
  function GroupedPermissionsFor(perms: seq<Permission>, repos: seq<Repository>): Hash<int, seq<Permission>> {
    GroupBy(ActivePermissions(perms, RepoIds(repos)), RepoOf)
  }

  /** Each repository's permissions regrouped by path. */
  function ByPath(grouped: Hash<int, seq<Permission>>): (r: RepoGroups)
    ensures Keys(r) == Keys(grouped)
  {
    seq(|grouped|, i requires 0 <= i < |grouped| => (grouped[i].0, GroupBy(grouped[i].1, PathOf)))
  }

  /**
   * `grouped_permission_paths_for` (lines 216-220): every value of the hash replaced, in
   * place and in key order, by its grouping by path.
   */
  method GroupedPermissionPathsFor(grouped: Hash<int, seq<Permission>>) returns (r: RepoGroups)
    ensures Keys(r) == Keys(grouped)
    ensures forall i :: 0 <= i < |r| ==> r[i].1 == GroupBy(grouped[i].1, PathOf)
    ensures r == ByPath(grouped)
  {
    r := [];
    var i := 0;
    while i < |grouped|
      invariant 0 <= i <= |grouped|
      invariant r == ByPath(grouped[..i])
    {
      assert ByPath(grouped[..i + 1]) == ByPath(grouped[..i]) + [(grouped[i].0, GroupBy(grouped[i].1, PathOf))];
      r := r + [(grouped[i].0, GroupBy(grouped[i].1, PathOf))];
      i := i + 1;
    }
    assert grouped[..i] == grouped;
  }

  /** Reading one repository after regrouping is regrouping what that repository read before. */
  lemma {:induction false} ByPathGet(grouped: Hash<int, seq<Permission>>, id: int)
    ensures Get(ByPath(grouped), id) ==
      match Get(grouped, id)
      case None => None
      case Some(perms) => Some(GroupBy(perms, PathOf))
  {
    if grouped != [] {
      assert ByPath(grouped)[1..] == ByPath(grouped[1..]);
      ByPathGet(grouped[1..], id);
    }
  }

  /** A listed repository occurs among the active permissions exactly when it holds one. */
  lemma ActiveHasRepo(perms: seq<Permission>, repos: seq<Repository>, id: int)
    requires id in RepoIds(repos)
    ensures HasKey(ActivePermissions(perms, RepoIds(repos)), RepoOf, id) <==>
      exists i :: 0 <= i < |perms| && perms[i].active == 1 && perms[i].repositoryId == id
  {
    var active := ActivePermissions(perms, RepoIds(repos));
    if HasKey(active, RepoOf, id) {
      var j :| 0 <= j < |active| && RepoOf(active[j]) == id;
      assert active[j] in perms;
    }
    if exists i :: 0 <= i < |perms| && perms[i].active == 1 && perms[i].repositoryId == id {
      var i :| 0 <= i < |perms| && perms[i].active == 1 && perms[i].repositoryId == id;
      SelectMember(active, RepoOf, id, perms[i]);
    }
  }

  /** A repository has a group exactly when it is listed and holds an active permission. */
  lemma RepoGroupSpec(perms: seq<Permission>, repos: seq<Repository>, id: int)
    requires id in RepoIds(repos)
    ensures Get(ByPath(GroupedPermissionsFor(perms, repos)), id).Some? <==>
      exists i :: 0 <= i < |perms| && perms[i].active == 1 && perms[i].repositoryId == id
    ensures Get(ByPath(GroupedPermissionsFor(perms, repos)), id).Some? ==>
      Get(ByPath(GroupedPermissionsFor(perms, repos)), id).value
        == GroupBy(Select(ActivePermissions(perms, RepoIds(repos)), RepoOf, id), PathOf)
  {
    ByPathGet(GroupedPermissionsFor(perms, repos), id);
    GroupByGet(ActivePermissions(perms, RepoIds(repos)), RepoOf, id);
    ActiveHasRepo(perms, repos, id);
  }

  /**
   * The composite grouping: inside a repository's entry a path has a group exactly when
   * some active permission of the repository is on that path, and the group holds
   * exactly those permissions.
   */
  lemma PathGroupSpec(perms: seq<Permission>, repos: seq<Repository>, id: int, path: string, p: Permission)
    requires id in RepoIds(repos)
    requires Get(ByPath(GroupedPermissionsFor(perms, repos)), id).Some?
    ensures var pg := Get(ByPath(GroupedPermissionsFor(perms, repos)), id).value;
      Get(pg, path).Some? <==> exists i :: 0 <= i < |perms| && perms[i].active == 1 && perms[i].repositoryId == id && perms[i].path == path
    ensures var pg := Get(ByPath(GroupedPermissionsFor(perms, repos)), id).value;
      Get(pg, path).Some? ==> (p in Get(pg, path).value <==> p in perms && p.active == 1 && p.repositoryId == id && p.path == path)
  {
    var sel := Select(ActivePermissions(perms, RepoIds(repos)), RepoOf, id);
    RepoGroupSpec(perms, repos, id);
    GroupByGet(sel, PathOf, path);
    PathGroupKeys(perms, repos, id, path);
    PathGroupMembers(perms, repos, id, path, p);
  }

  /** A path occurs among a listed repository's active permissions exactly when one of them is on it. */
  lemma PathGroupKeys(perms: seq<Permission>, repos: seq<Repository>, id: int, path: string)
    requires id in RepoIds(repos)
    ensures HasKey(Select(ActivePermissions(perms, RepoIds(repos)), RepoOf, id), PathOf, path) <==>
      exists i :: 0 <= i < |perms| && perms[i].active == 1 && perms[i].repositoryId == id && perms[i].path == path
  {
    var sel := Select(ActivePermissions(perms, RepoIds(repos)), RepoOf, id);
    if HasKey(sel, PathOf, path) {
      var j :| 0 <= j < |sel| && PathOf(sel[j]) == path;
      PathGroupMembers(perms, repos, id, path, sel[j]);
      SelectMember(sel, PathOf, path, sel[j]);
      var i :| 0 <= i < |perms| && perms[i] == sel[j];
    }
    if exists i :: 0 <= i < |perms| && perms[i].active == 1 && perms[i].repositoryId == id && perms[i].path == path {
      var i :| 0 <= i < |perms| && perms[i].active == 1 && perms[i].repositoryId == id && perms[i].path == path;
      PathGroupMembers(perms, repos, id, path, perms[i]);
      SelectMember(sel, PathOf, path, perms[i]);
    }
  }

  /** The permissions of a listed repository on a path are its active permissions on that path. */
  lemma PathGroupMembers(perms: seq<Permission>, repos: seq<Repository>, id: int, path: string, p: Permission)
    requires id in RepoIds(repos)
    ensures p in Select(Select(ActivePermissions(perms, RepoIds(repos)), RepoOf, id), PathOf, path) <==>
      p in perms && p.active == 1 && p.repositoryId == id && p.path == path
  {
    var active := ActivePermissions(perms, RepoIds(repos));
    SelectMember(active, RepoOf, id, p);
    SelectMember(Select(active, RepoOf, id), PathOf, path, p);
  }

  // ---------------------------------------------------------------- users

  /** Some permission belongs to user `id`. */
  predicate Referenced(perms: seq<Permission>, id: int) {
    exists i :: 0 <= i < |perms| && perms[i].userId == Some(id)
  }

  /** The users rows whose id some permission references, keyed by id; a later row wins. */
  function IndexUsers(users: seq<User>, perms: seq<Permission>): (m: map<int, User>)
    ensures forall id :: id in m ==> m[id].id == id
  {
    if users == [] then map[]
    else
      var u := users[|users| - 1];
      var m := IndexUsers(users[..|users| - 1], perms);
      if Referenced(perms, u.id) then m[u.id := u] else m
  }

  /** `indexed_users_from`: no query at all when there are no permissions. */
  function IndexedUsersFrom(users: seq<User>, perms: seq<Permission>): map<int, User> {
    if perms == [] then map[] else IndexUsers(users, perms)
  }

  /** A user is indexed exactly when a permission references it, and the index holds its last row. */
  lemma {:induction false} IndexedUsersSpec(users: seq<User>, perms: seq<Permission>, id: int)
    ensures id in IndexedUsersFrom(users, perms) <==>
      Referenced(perms, id) && exists i :: 0 <= i < |users| && users[i].id == id
    ensures id in IndexedUsersFrom(users, perms) ==>
      exists i :: 0 <= i < |users| && users[i] == IndexedUsersFrom(users, perms)[id]
        && forall j :: i < j < |users| ==> users[j].id != id
  {
    if perms != [] {
      IndexUsersSpec(users, perms, id);
    }
  }

  lemma {:induction false} IndexUsersSpec(users: seq<User>, perms: seq<Permission>, id: int)
    ensures id in IndexUsers(users, perms) <==>
      Referenced(perms, id) && exists i :: 0 <= i < |users| && users[i].id == id
    ensures id in IndexUsers(users, perms) ==>
      exists i :: 0 <= i < |users| && users[i] == IndexUsers(users, perms)[id]
        && forall j :: i < j < |users| ==> users[j].id != id
  {
    if users != [] {
      var n := |users| - 1;
      var init := users[..n];
      IndexUsersSpec(init, perms, id);
      assert forall i :: 0 <= i < n ==> init[i] == users[i];
      if users[n].id == id && Referenced(perms, id) {
        assert IndexUsers(users, perms)[id] == users[n];
      } else if id in IndexUsers(init, perms) {
        var i :| 0 <= i < n && init[i] == IndexUsers(init, perms)[id] && forall j :: i < j < n ==> init[j].id != id;
        assert users[i] == IndexUsers(users, perms)[id];
      }
    }
  }

  /** Line 182: every permission of every group, repository by repository and path by path. */
  function FlattenPaths(g: RepoGroups): seq<Permission> {
    if g == [] then [] else FlattenPaths(g[..|g| - 1]) + FlattenGroups(g[|g| - 1].1)
  }

  function FlattenGroups(pg: PathGroups): seq<Permission> {
    if pg == [] then [] else FlattenGroups(pg[..|pg| - 1]) + pg[|pg| - 1].1
  }

  lemma {:induction false} FlattenGroupsHas(pg: PathGroups, j: nat, p: Permission)
    requires j < |pg| && p in pg[j].1
    ensures p in FlattenGroups(pg)
  {
    if j < |pg| - 1 {
      FlattenGroupsHas(pg[..|pg| - 1], j, p);
    }
  }

  /** A permission rendered from any group is among those whose users were indexed. */
  lemma {:induction false} FlattenPathsHas(g: RepoGroups, i: nat, j: nat, p: Permission)
    requires i < |g| && j < |g[i].1| && p in g[i].1[j].1
    ensures p in FlattenPaths(g)
  {
    if i < |g| - 1 {
      FlattenPathsHas(g[..|g| - 1], i, j, p);
    } else {
      FlattenGroupsHas(g[i].1, j, p);
    }
  }

  // ---------------------------------------------------------------- rule lines

  /**
   * Who a rule line names: `*` for the anonymous grant, the user's login otherwise;
   * None when the user is unknown or has an empty login (line 195 skips the line).
   */
  function Grantee(p: Permission, users: map<int, User>): Option<string> {
    if p.userId.None? then Some("*")
    else if p.userId.value in users && users[p.userId.value].login != "" then Some(users[p.userId.value].login)
    else None
  }

  /** Lines 198-200: read access, write access iff `full_access` is 1. */
  function Grant(p: Permission): string {
    " = r" + (if p.fullAccess == 1 then "w" else "") + "\n"
  }

  /** Lines 191-200: the text one permission writes. */
  function RuleLine(p: Permission, users: map<int, User>): string {
    match Grantee(p, users)
    case None => ""
    case Some(who) => who + Grant(p)
  }

  /** Reads a rule line back: who it names and whether it grants write access. */
  function ParseRule(line: string): Option<(string, bool)> {
    var rw := " = rw\n";
    var r := " = r\n";
    if |line| >= |rw| && line[|line| - |rw|..] == rw then Some((line[..|line| - |rw|], true))
    else if |line| >= |r| && line[|line| - |r|..] == r then Some((line[..|line| - |r|], false))
    else None
  }

  /**
   * A rule line is empty exactly when the permission is skipped; otherwise it reads back
   * as its grantee and whether `full_access` is 1.
   */
  lemma RuleLineRoundTrip(p: Permission, users: map<int, User>)
    ensures RuleLine(p, users) == "" <==> Grantee(p, users).None?
    ensures Grantee(p, users).Some? ==> ParseRule(RuleLine(p, users)) == Some((Grantee(p, users).value, p.fullAccess == 1))
  {
    if Grantee(p, users).Some? {
      var who := Grantee(p, users).value;
      var line := RuleLine(p, users);
      if p.fullAccess == 1 {
        assert line == who + " = rw\n";
        assert line[|line| - 6..] == " = rw\n";
        assert line[..|line| - 6] == who;
      } else {
        assert line == who + " = r\n";
        assert line[|line| - 6..][4] == 'r';
        assert line[|line| - 5..] == " = r\n";
        assert line[..|line| - 5] == who;
      }
    }
  }

  /** The rule lines of one path group, in order. */
  function Rules(perms: seq<Permission>, users: map<int, User>): string {
    if perms == [] then "" else Rules(perms[..|perms| - 1], users) + RuleLine(perms[|perms| - 1], users)
  }

  /** A group writes no rule line exactly when every permission in it is skipped. */
  lemma {:induction false} RulesEmpty(perms: seq<Permission>, users: map<int, User>)
    ensures Rules(perms, users) == "" <==> forall i :: 0 <= i < |perms| ==> Grantee(perms[i], users).None?
  {
    if perms != [] {
      var n := |perms| - 1;
      RulesEmpty(perms[..n], users);
      RuleLineRoundTrip(perms[n], users);
      assert forall i :: 0 <= i < n ==> perms[..n][i] == perms[i];
    }
  }

  // ---------------------------------------------------------------- stanzas

  /** Line 189. */
  function Header(subdomain: string, path: string): string {
    "[" + subdomain + ":/" + path + "]\n"
  }

  /** Lines 189-202: the header, the rule lines and a blank line, even when every rule is skipped. */
  function Stanza(subdomain: string, path: string, perms: seq<Permission>, users: map<int, User>): string {
    Header(subdomain, path) + Rules(perms, users) + "\n"
  }

  /** Lines 188-203: one stanza per path group, in group order. */
  function Stanzas(subdomain: string, pg: PathGroups, users: map<int, User>): string {
    if pg == [] then ""
    else
      var (path, perms) := pg[|pg| - 1];
      Stanzas(subdomain, pg[..|pg| - 1], users) + Stanza(subdomain, path, perms, users)
  }

  /** Lines 186-203: nothing for a repository without a group, its stanzas otherwise. */
  function Section(repo: Repository, g: RepoGroups, users: map<int, User>): string {
    match Get(g, repo.id)
    case None => ""
    case Some(pg) => Stanzas(repo.subdomain, pg, users)
  }

  /** Lines 185-204: the sections of the repositories, in the order given. */
  function ConfigText(repos: seq<Repository>, g: RepoGroups, users: map<int, User>): string {
    if repos == [] then "" else ConfigText(repos[..|repos| - 1], g, users) + Section(repos[|repos| - 1], g, users)
  }

  /** What `build_config_for(repos, path)` writes to the file. */
  function BuildConfigText(perms: seq<Permission>, users: seq<User>, repos: seq<Repository>): string {
    var g := ByPath(GroupedPermissionsFor(perms, repos));
    ConfigText(repos, g, IndexedUsersFrom(users, FlattenPaths(g)))
  }

  /** A stanza starts with its header and ends with a blank line, whatever its rules are. */
  lemma StanzaFrame(subdomain: string, path: string, perms: seq<Permission>, users: map<int, User>)
    ensures |Stanza(subdomain, path, perms, users)| > |Header(subdomain, path)|
    ensures Stanza(subdomain, path, perms, users)[..|Header(subdomain, path)|] == Header(subdomain, path)
    ensures Stanza(subdomain, path, perms, users)[|Stanza(subdomain, path, perms, users)| - 1] == '\n'
    ensures (forall i :: 0 <= i < |perms| ==> Grantee(perms[i], users).None?) ==>
      Stanza(subdomain, path, perms, users) == Header(subdomain, path) + "\n"
  {
    RulesEmpty(perms, users);
  }

  lemma {:induction false} StanzasNonEmpty(subdomain: string, pg: PathGroups, users: map<int, User>)
    ensures Stanzas(subdomain, pg, users) == "" <==> pg == []
  {
    if pg != [] {
      var (path, perms) := pg[|pg| - 1];
      StanzaFrame(subdomain, path, perms, users);
    }
  }

  /**
   * A listed repository contributes text exactly when it has an active permission; a
   * repository without one produces nothing.
   */
  lemma SectionEmptyIff(perms: seq<Permission>, repos: seq<Repository>, repo: Repository, users: map<int, User>)
    requires repo in repos
    ensures Section(repo, ByPath(GroupedPermissionsFor(perms, repos)), users) == "" <==>
      forall i :: 0 <= i < |perms| ==> perms[i].active != 1 || perms[i].repositoryId != repo.id
  {
    var g := ByPath(GroupedPermissionsFor(perms, repos));
    var k :| 0 <= k < |repos| && repos[k] == repo;
    assert RepoIds(repos)[k] == repo.id;
    RepoGroupSpec(perms, repos, repo.id);
    if Get(g, repo.id).Some? {
      var pg := Get(g, repo.id).value;
      var i :| 0 <= i < |perms| && perms[i].active == 1 && perms[i].repositoryId == repo.id;
      PathGroupSpec(perms, repos, repo.id, perms[i].path, perms[i]);
      assert Get(pg, perms[i].path).Some?;
      StanzasNonEmpty(repo.subdomain, pg, users);
    }
  }

  // ---------------------------------------------------------------- writing the file

  /** Lines 190-201: the rule lines of one path group, permission by permission. */
  method RenderRules(perms: seq<Permission>, users: map<int, User>) returns (text: string)
    ensures text == Rules(perms, users)
  {
    text := "";
    var k := 0;
    while k < |perms|
      invariant 0 <= k <= |perms|
      invariant text == Rules(perms[..k], users)
    {
      assert perms[..k + 1][..k] == perms[..k];
      text := text + RuleLine(perms[k], users);
      k := k + 1;
    }
    assert perms[..k] == perms;
  }

  /** One more path group adds its stanza at the end. */
  lemma StanzasStep(subdomain: string, pg: PathGroups, j: nat, users: map<int, User>)
    requires j < |pg|
    ensures Stanzas(subdomain, pg[..j + 1], users) == Stanzas(subdomain, pg[..j], users) + Stanza(subdomain, pg[j].0, pg[j].1, users)
  {
    assert pg[..j + 1][..j] == pg[..j];
  }

  /** Lines 189-202: one path group's header, rule lines and closing blank line. */
  method RenderStanza(subdomain: string, path: string, perms: seq<Permission>, users: map<int, User>) returns (text: string)
    ensures text == Stanza(subdomain, path, perms, users)
  {
    var rules := RenderRules(perms, users);
    text := Header(subdomain, path) + rules + "\n";
  }

  /** Lines 188-203: the stanzas of one repository, path group by path group. */
  method RenderStanzas(subdomain: string, pg: PathGroups, users: map<int, User>) returns (text: string)
    ensures text == Stanzas(subdomain, pg, users)
  {
    text := "";
    var j := 0;
    while j < |pg|
      invariant 0 <= j <= |pg|
      invariant text == Stanzas(subdomain, pg[..j], users)
    {
      var stanza := RenderStanza(subdomain, pg[j].0, pg[j].1, users);
      StanzasStep(subdomain, pg, j, users);
      text := text + stanza;
      j := j + 1;
    }
    assert pg[..j] == pg;
  }

  /**
   * The writing loop of `build_config_for` (lines 185-204): repository by repository;
   * a repository without a group is skipped.
   */
  method RenderConfig(repos: seq<Repository>, g: RepoGroups, users: map<int, User>) returns (text: string)
    ensures text == ConfigText(repos, g, users)
  {
    text := "";
    var i := 0;
    while i < |repos|
      invariant 0 <= i <= |repos|
      invariant text == ConfigText(repos[..i], g, users)
    {
      var repo := repos[i];
      assert repos[..i + 1][..i] == repos[..i];
      var found := Get(g, repo.id);
      if found.Some? {
        var section := RenderStanzas(repo.subdomain, found.value, users);
        text := text + section;
      }
      i := i + 1;
    }
    assert repos[..i] == repos;
  }
}
