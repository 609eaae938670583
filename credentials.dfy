/**
 * The htpasswd rebuild of lib/warehouse/command.rb (`write_users_to_htpasswd`,
 * `write_repo_users_to_htpasswd`, `users_from_repo`). An htpasswd file is the map
 * from login to crypted password that WEBrick's `Htpasswd` keeps in `@passwd`;
 * reading and flushing the file are not modelled beyond that map.
 */
module Credentials {
  import opened Wrappers
  import opened Records

  // ---------------------------------------------------------------- what a rebuild writes

  /** Line 166: a user gets an entry only when both its login and its password are non-empty. */
  predicate Listed(u: User) {
    u.login != "" && u.cryptedPassword != ""
  }

  /** The map lines 165-168 leave behind after starting from an empty one; a later user wins on a repeated login. */
  function Credentials(users: seq<User>): (m: map<string, string>)
    ensures forall login :: login in m ==> login != "" && m[login] != ""
  {
    if users == [] then map[]
    else
      var u := users[|users| - 1];
      var m := Credentials(users[..|users| - 1]);
      if Listed(u) then m[u.login := u.cryptedPassword] else m
  }

  lemma {:induction false} CredentialsKeys(users: seq<User>, login: string)
    ensures login in Credentials(users) <==> exists i :: 0 <= i < |users| && Listed(users[i]) && users[i].login == login
  {
    if users != [] {
      var n := |users| - 1;
      var init := users[..n];
      CredentialsKeys(init, login);
      if !(Listed(users[n]) && users[n].login == login) {
        assert login in Credentials(users) <==> login in Credentials(init);
        if exists i :: 0 <= i < |users| && Listed(users[i]) && users[i].login == login {
          var i :| 0 <= i < |users| && Listed(users[i]) && users[i].login == login;
          assert init[i] == users[i];
        }
        if exists i :: 0 <= i < n && Listed(init[i]) && init[i].login == login {
          var i :| 0 <= i < n && Listed(init[i]) && init[i].login == login;
          assert init[i] == users[i];
        }
      }
    }
  }

  lemma {:induction false} CredentialsValue(users: seq<User>, login: string)
    ensures login in Credentials(users) ==>
      exists i :: 0 <= i < |users| && Listed(users[i]) && users[i].login == login
        && Credentials(users)[login] == users[i].cryptedPassword
        && forall j :: i < j < |users| && Listed(users[j]) ==> users[j].login != login
  {
    if users != [] {
      var n := |users| - 1;
      var init := users[..n];
      if Listed(users[n]) && users[n].login == login {
        assert Credentials(users)[login] == users[n].cryptedPassword;
      } else if login in Credentials(init) {
        assert Credentials(users)[login] == Credentials(init)[login];
        CredentialsValue(init, login);
        var i :| 0 <= i < n && Listed(init[i]) && init[i].login == login
          && Credentials(init)[login] == init[i].cryptedPassword
          && forall j :: i < j < n && Listed(init[j]) ==> init[j].login != login;
        assert init[i] == users[i];
        forall j | i < j < |users| && Listed(users[j]) ensures users[j].login != login {
          if j < n { assert init[j] == users[j]; }
        }
      }
    }
  }

  /**
   * A login has an entry exactly when some listed user has it, and the entry is the
   * password of the last such user.
   */
  lemma CredentialsSpec(users: seq<User>, login: string)
    ensures login in Credentials(users) <==> exists i :: 0 <= i < |users| && Listed(users[i]) && users[i].login == login
    ensures login in Credentials(users) ==>
      exists i :: 0 <= i < |users| && Listed(users[i]) && users[i].login == login
        && Credentials(users)[login] == users[i].cryptedPassword
        && forall j :: i < j < |users| && Listed(users[j]) ==> users[j].login != login
  {
    CredentialsKeys(users, login);
    CredentialsValue(users, login);
  }

  /** A rebuild does not depend on the users that get no entry. */
  lemma {:induction false} CredentialsIgnoresUnlisted(users: seq<User>, u: User)
    requires !Listed(u)
    ensures Credentials(users + [u]) == Credentials(users)
  {
    assert (users + [u])[..|users|] == users;
  }

  // ---------------------------------------------------------------- the in-memory file

  /** WEBrick's `Htpasswd`: the file's entries, loaded when it is opened. */
  class Htpasswd {
    var passwd: map<string, string>

    /** `Htpasswd.new(path)`: the entries the file held, none for a new file. */
    constructor (stored: map<string, string>)
      ensures passwd == stored
    {
      passwd := stored;
    }

    /** Lines 160-162: `delete_passwd` for every user the file lists. */
    method Clear()
      modifies this
      ensures passwd == map[]
    {
      var listed := passwd.Keys;
      while listed != {}
        invariant passwd.Keys == listed
        decreases |listed|
      {
        var login :| login in listed;
        passwd := passwd - {login};
        listed := listed - {login};
      }
    }
  }

  // ---------------------------------------------------------------- per-repository files

  /** Some active permission on the repository belongs to user `id`. */
  predicate HoldsActive(perms: seq<Permission>, repoId: int, id: int) {
    exists i :: 0 <= i < |perms| && perms[i].active == 1 && perms[i].repositoryId == repoId && perms[i].userId == Some(id)
  }

  /** `users_from_repo`: the users rows, in table order, holding an active permission on the repository. */
  function UsersFromRepo(users: seq<User>, perms: seq<Permission>, repoId: int): (r: seq<User>)
    ensures forall u :: u in r <==> u in users && HoldsActive(perms, repoId, u.id)
    ensures |r| <= |users|
  {
    if users == [] then []
    else
      var u := users[|users| - 1];
      UsersFromRepo(users[..|users| - 1], perms, repoId) + (if HoldsActive(perms, repoId, u.id) then [u] else [])
  }

  /** The placeholder `write_repo_users_to_htpasswd` replaces with the subdomain. */
  const Placeholder: string := ":repo"

  /** The placeholder starts at position `i` of `s`. */
  predicate PlaceholderAt(s: string, i: int) {
    0 <= i && i + |Placeholder| <= |s| && s[i..i + |Placeholder|] == Placeholder
  }

  predicate NoPlaceholder(s: string) {
    forall i :: 0 <= i < |s| ==> !PlaceholderAt(s, i)
  }

  /** `gsub(/:repo/, sub)`: every occurrence, scanning left to right, replaced by `sub`. */
  function Substitute(s: string, sub: string): string
    decreases |s|
  {
    if |s| >= |Placeholder| && s[..|Placeholder|] == Placeholder then sub + Substitute(s[|Placeholder|..], sub)
    else if s == [] then []
    else [s[0]] + Substitute(s[1..], sub)
  }

  /** The pieces of a path template joined by `sep`. */
  function Join(pieces: seq<string>, sep: string): string
    requires pieces != []
  {
    if |pieces| == 1 then pieces[0] else pieces[0] + sep + Join(pieces[1..], sep)
  }

  /** Where no occurrence starts at the front, substitution keeps the first character. */
  lemma SubstituteStep(s: string, sub: string)
    requires s != [] && !PlaceholderAt(s, 0)
    ensures Substitute(s, sub) == [s[0]] + Substitute(s[1..], sub)
  {
  }

  /** Occurrences in `x[1..] + y` are those in `x + y`, one position later. */
  lemma NoPlaceholderShift(x: string, y: string)
    requires x != []
    requires forall i :: 0 <= i < |x| ==> !PlaceholderAt(x + y, i)
    ensures forall i :: 0 <= i < |x[1..]| ==> !PlaceholderAt(x[1..] + y, i)
  {
    forall i | 0 <= i < |x[1..]| ensures !PlaceholderAt(x[1..] + y, i) {
      assert !PlaceholderAt(x + y, i + 1);
      if i + 1 + |Placeholder| <= |x + y| {
        assert (x + y)[i + 1..i + 1 + |Placeholder|] == (x[1..] + y)[i..i + |Placeholder|];
      }
    }
  }

  /** Substitution passes over a prefix in which no occurrence starts. */
  lemma {:induction false} SubstitutePrefix(x: string, y: string, sub: string)
    requires forall i :: 0 <= i < |x| ==> !PlaceholderAt(x + y, i)
    ensures Substitute(x + y, sub) == x + Substitute(y, sub)
  {
    if x != [] {
      NoPlaceholderShift(x, y);
      calc {
        Substitute(x + y, sub);
      == { SubstituteStep(x + y, sub); assert (x + y)[1..] == x[1..] + y; }
        [x[0]] + Substitute(x[1..] + y, sub);
      == { SubstitutePrefix(x[1..], y, sub); }
        [x[0]] + (x[1..] + Substitute(y, sub));
      == { assert [x[0]] + x[1..] == x; }
        x + Substitute(y, sub);
      }
    } else {
      assert x + y == y;
    }
  }

  /** No occurrence starts inside a placeholder-free piece followed by the placeholder. */
  lemma NoMatchBeforePlaceholder(x: string, rest: string, i: int)
    requires NoPlaceholder(x) && 0 <= i < |x|
    ensures !PlaceholderAt(x + Placeholder + rest, i)
  {
    var s := x + Placeholder + rest;
    if i + |Placeholder| <= |x| {
      assert s[i..i + |Placeholder|] == x[i..i + |Placeholder|];
      assert !PlaceholderAt(x, i);
    } else if i + |Placeholder| <= |s| {
      var k := |x| - i;
      assert 0 < k < |Placeholder|;
      assert s[i..i + |Placeholder|][k] == s[|x|] == ':';
      assert Placeholder[1] == 'r' && Placeholder[2] == 'e' && Placeholder[3] == 'p' && Placeholder[4] == 'o';
      assert s[i..i + |Placeholder|][k] != Placeholder[k];
    }
  }

  /**
   * A template made of placeholder-free pieces separated by the placeholder renders to
   * the same pieces separated by the subdomain.
   */
  lemma {:induction false} SubstituteJoin(pieces: seq<string>, sub: string)
    requires pieces != []
    requires forall k :: 0 <= k < |pieces| ==> NoPlaceholder(pieces[k])
    ensures Substitute(Join(pieces, Placeholder), sub) == Join(pieces, sub)
  {
    if |pieces| == 1 {
      assert forall i :: 0 <= i < |pieces[0]| ==> !PlaceholderAt(pieces[0] + [], i) by {
        assert pieces[0] + [] == pieces[0];
      }
      SubstitutePrefix(pieces[0], [], sub);
      assert pieces[0] + [] == pieces[0];
    } else {
      var x := pieces[0];
      var rest := Join(pieces[1..], Placeholder);
      SubstituteJoin(pieces[1..], sub);
      forall i | 0 <= i < |x| ensures !PlaceholderAt(x + (Placeholder + rest), i) {
        NoMatchBeforePlaceholder(x, rest, i);
        assert x + Placeholder + rest == x + (Placeholder + rest);
      }
      SubstitutePrefix(x, Placeholder + rest, sub);
      assert (Placeholder + rest)[..|Placeholder|] == Placeholder;
      assert (Placeholder + rest)[|Placeholder|..] == rest;
      assert x + Placeholder + rest == x + (Placeholder + rest);
    }
  }

  /** The map `files` after writing `val(x)` at `key(x)` for every `x` of `xs` in order. */
  function Place<T, K, V>(files: map<K, V>, xs: seq<T>, key: T -> K, val: T -> V): map<K, V> {
    if xs == [] then files
    else Place(files, xs[..|xs| - 1], key, val)[key(xs[|xs| - 1]) := val(xs[|xs| - 1])]
  }

  /** A key no element writes is left as it was. */
  lemma {:induction false} PlaceUnwritten<T, K, V>(files: map<K, V>, xs: seq<T>, key: T -> K, val: T -> V, k: K)
    requires forall i :: 0 <= i < |xs| ==> key(xs[i]) != k
    ensures k in Place(files, xs, key, val) <==> k in files
    ensures k in files ==> Place(files, xs, key, val)[k] == files[k]
  {
    if xs != [] {
      var n := |xs| - 1;
      assert forall i :: 0 <= i < n ==> xs[..n][i] == xs[i];
      PlaceUnwritten(files, xs[..n], key, val, k);
    }
  }

  /** A key some element writes holds the value of the last such element. */
  lemma {:induction false} PlaceWritten<T, K, V>(files: map<K, V>, xs: seq<T>, key: T -> K, val: T -> V, k: K, i: int)
    requires 0 <= i < |xs| && key(xs[i]) == k
    requires forall j :: i < j < |xs| ==> key(xs[j]) != k
    ensures k in Place(files, xs, key, val) && Place(files, xs, key, val)[k] == val(xs[i])
  {
    var n := |xs| - 1;
    if i < n {
      assert forall j :: 0 <= j < n ==> xs[..n][j] == xs[j];
      PlaceWritten(files, xs[..n], key, val, k, i);
    }
  }

  /** Where repository `r`'s credential file goes: the template with `:repo` replaced by its subdomain. */
  function RepoPath(template: string, r: Repository): string {
    Substitute(template, r.subdomain)
  }

  /**
   * The credential files `write_repo_users_to_htpasswd(repos, template)` leaves: one
   * per repository, at the template with `:repo` replaced by its subdomain, holding the
   * users of that repository.
   */
  function RepoFiles(files: map<string, map<string, string>>, repos: seq<Repository>, template: string,
                     users: seq<User>, perms: seq<Permission>): map<string, map<string, string>>
  {
    Place(files, repos, (r: Repository) => RepoPath(template, r), (r: Repository) => Credentials(UsersFromRepo(users, perms, r.id)))
  }

  /** Repository `i` is the last one whose credential file is `path`. */
  predicate LastNaming(repos: seq<Repository>, template: string, path: string, i: int) {
    0 <= i < |repos| && RepoPath(template, repos[i]) == path &&
    forall j :: i < j < |repos| ==> RepoPath(template, repos[j]) != path
  }

  /** A file no repository's path names is left as it was. */
  lemma RepoFilesUnnamed(files: map<string, map<string, string>>, repos: seq<Repository>, template: string,
                         users: seq<User>, perms: seq<Permission>, path: string)
    requires forall i :: 0 <= i < |repos| ==> RepoPath(template, repos[i]) != path
    ensures path in RepoFiles(files, repos, template, users, perms) <==> path in files
    ensures path in files ==> RepoFiles(files, repos, template, users, perms)[path] == files[path]
  {
    PlaceUnwritten(files, repos, (r: Repository) => RepoPath(template, r), (r: Repository) => Credentials(UsersFromRepo(users, perms, r.id)), path);
  }

  /** A file some repository's path names holds the users of the last such repository. */
  lemma RepoFilesNamed(files: map<string, map<string, string>>, repos: seq<Repository>, template: string,
                       users: seq<User>, perms: seq<Permission>, path: string, i: int)
    requires LastNaming(repos, template, path, i)
    ensures path in RepoFiles(files, repos, template, users, perms)
    ensures RepoFiles(files, repos, template, users, perms)[path] == Credentials(UsersFromRepo(users, perms, repos[i].id))
  {
    PlaceWritten(files, repos, (r: Repository) => RepoPath(template, r), (r: Repository) => Credentials(UsersFromRepo(users, perms, r.id)), path, i);
  }
}
