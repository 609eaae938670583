/**
 * Turning the lists the delta editor reports for one revision into `changes` rows
 * (lib/warehouse/command.rb, `create_change_from_changeset` and
 * `process_change_path_and_save`).
 *
 * The source walks the copied entries in order and, for each, deletes its source path
 * from the working list of deleted paths (`Array#delete` drops every occurrence); the
 * entry is a move when that delete found something. The closed form used as the
 * specification: an entry is a move exactly when its source is in the deleted list
 * and no earlier copied entry has the same source; the deleted paths left over are
 * those that are no copied entry's source.
 */
module ChangeClassifier {
  import opened Wrappers
  import opened Records

  /** The elements of `xs` that are not in `drop`, in order. */
  function Without(xs: seq<string>, drop: set<string>): (r: seq<string>)
    ensures forall p :: p in r <==> p in xs && p !in drop
    ensures |r| <= |xs|
  {
    if xs == [] then []
    else Without(xs[..|xs| - 1], drop) + (if xs[|xs| - 1] in drop then [] else [xs[|xs| - 1]])
  }

  /** `Array#delete`: removes every occurrence of `x`. */
  function RemoveAll(xs: seq<string>, x: string): seq<string> {
    Without(xs, {x})
  }

  /** The source paths of a list of copied entries. */
  function Sources(copies: seq<CopiedPath>): set<string> {
    set i | 0 <= i < |copies| :: copies[i].fromPath
  }

  /** Whether `c`, coming after `earlier`, is recorded as a move. */
  predicate IsMove(earlier: seq<CopiedPath>, deleted: seq<string>, c: CopiedPath) {
    c.fromPath in deleted && c.fromPath !in Sources(earlier)
  }

  /** The copied entries recorded as MV, in order. */
  function Moves(copies: seq<CopiedPath>, deleted: seq<string>): seq<CopiedPath> {
    if copies == [] then []
    else
      var init := copies[..|copies| - 1];
      Moves(init, deleted) + (if IsMove(init, deleted, copies[|copies| - 1]) then [copies[|copies| - 1]] else [])
  }

  /** The copied entries recorded as CP, in order. */
  function Copies(copies: seq<CopiedPath>, deleted: seq<string>): seq<CopiedPath> {
    if copies == [] then []
    else
      var init := copies[..|copies| - 1];
      Copies(init, deleted) + (if IsMove(init, deleted, copies[|copies| - 1]) then [] else [copies[|copies| - 1]])
  }

  /** The deleted paths recorded as D: those no copied entry came from. */
  function Deletions(copies: seq<CopiedPath>, deleted: seq<string>): seq<string> {
    Without(deleted, Sources(copies))
  }

  /** `process_change_path_and_save` for a plain path ('A', 'M', 'D'). */
  function PathChange(changesetId: int, name: ChangeName, path: string): Change {
    Change(changesetId, name, path, None, None)
  }

  /** `process_change_path_and_save` for a copied entry ('MV', 'CP'). */
  function CopyChange(changesetId: int, name: ChangeName, c: CopiedPath): Change {
    Change(changesetId, name, c.path, Some(c.fromPath), Some(c.fromRevision))
  }

  /** The second argument of `process_change_path_and_save`: a path, or a copied entry for MV and CP. */
  datatype PathEntry = Plain(path: string) | Copy(copy: CopiedPath)

  /** The callers pass a copied entry exactly with the names MV and CP. */
  predicate Fits(name: ChangeName, e: PathEntry) {
    (name == MV || name == CP) <==> e.Copy?
  }

  /**
   * `process_change_path_and_save`: the row it inserts. MV and CP rows take path, source
   * and source revision from the copied entry; the others carry only the path.
   */
  function Record(changesetId: int, name: ChangeName, e: PathEntry): (r: Change)
    requires Fits(name, e)
    ensures r.changesetId == changesetId && r.name == name
    ensures r.fromPath.Some? <==> (name == MV || name == CP)
    ensures r.fromRevision.Some? <==> (name == MV || name == CP)
    ensures e.Plain? ==> r.path == e.path
    ensures e.Copy? ==> r.path == e.copy.path && r.fromPath == Some(e.copy.fromPath) && r.fromRevision == Some(e.copy.fromRevision)
  {
    match e
    case Plain(p) => PathChange(changesetId, name, p)
    case Copy(c) => CopyChange(changesetId, name, c)
  }

  function PathChanges(changesetId: int, name: ChangeName, paths: seq<string>): (r: seq<Change>)
    ensures |r| == |paths|
  {
    seq(|paths|, i requires 0 <= i < |paths| => PathChange(changesetId, name, paths[i]))
  }

  function CopyChanges(changesetId: int, name: ChangeName, copies: seq<CopiedPath>): (r: seq<Change>)
    ensures |r| == |copies|
  {
    seq(|copies|, i requires 0 <= i < |copies| => CopyChange(changesetId, name, copies[i]))
  }

  function Added(d: Delta): seq<string> { d.addedDirs + d.addedFiles }
  function Updated(d: Delta): seq<string> { d.updatedDirs + d.updatedFiles }
  function Deleted(d: Delta): seq<string> { d.deletedDirs + d.deletedFiles }
  function Copied(d: Delta): seq<CopiedPath> { d.copiedDirs + d.copiedFiles }

  /** Every `changes` row one revision produces, in the order the source inserts them. */
  function Classify(changesetId: int, d: Delta): seq<Change> {
    PathChanges(changesetId, A, Added(d))
    + PathChanges(changesetId, M, Updated(d))
    + CopyChanges(changesetId, MV, Moves(Copied(d), Deleted(d)))
    + CopyChanges(changesetId, CP, Copies(Copied(d), Deleted(d)))
    + PathChanges(changesetId, D, Deletions(Copied(d), Deleted(d)))
  }

  lemma {:induction false} SourcesSnoc(copies: seq<CopiedPath>, i: nat)
    requires i < |copies|
    ensures Sources(copies[..i + 1]) == Sources(copies[..i]) + {copies[i].fromPath}
  {
    var a := copies[..i + 1];
    var b := copies[..i];
    forall p | p in Sources(a) ensures p in Sources(b) + {copies[i].fromPath} {
      var j :| 0 <= j < |a| && a[j].fromPath == p;
      if j < i { assert b[j] == a[j]; }
    }
    forall p | p in Sources(b) + {copies[i].fromPath} ensures p in Sources(a) {
      if p == copies[i].fromPath {
        assert a[i].fromPath == p;
      } else {
        var j :| 0 <= j < |b| && b[j].fromPath == p;
        assert a[j] == b[j];
      }
    }
  }

  lemma {:induction false} WithoutWithout(xs: seq<string>, s: set<string>, t: set<string>)
    ensures Without(Without(xs, s), t) == Without(xs, s + t)
  {
    if xs != [] {
      var init := xs[..|xs| - 1];
      WithoutWithout(init, s, t);
      var w := Without(init, s);
      var x := xs[|xs| - 1];
      assert Without(xs, s + t) == Without(init, s + t) + (if x in s + t then [] else [x]);
      if x in s {
        assert Without(xs, s) == w;
      } else {
        var ws := w + [x];
        assert Without(xs, s) == ws;
        assert ws[..|ws| - 1] == w;
        assert Without(ws, t) == Without(w, t) + (if x in t then [] else [x]);
      }
    }
  }

  /**
   * The partition loop of `create_change_from_changeset`: walks the copied entries in
   * order, deleting each source from the working deleted list; an entry whose source
   * was found there is a move, the others are copies. What is left of the deleted list
   * is returned with them.
   */
  method PartitionCopies(copies: seq<CopiedPath>, deleted: seq<string>)
    returns (moved: seq<CopiedPath>, copied: seq<CopiedPath>, remaining: seq<string>)
    ensures moved == Moves(copies, deleted)
    ensures copied == Copies(copies, deleted)
    ensures remaining == Deletions(copies, deleted)
  {
    moved, copied, remaining := [], [], deleted;
    var i := 0;
    assert Sources(copies[..0]) == {};
    assert Without(deleted, {}) == deleted by { WithoutNothing(deleted); }
    while i < |copies|
      invariant 0 <= i <= |copies|
      invariant moved == Moves(copies[..i], deleted)
      invariant copied == Copies(copies[..i], deleted)
      invariant remaining == Without(deleted, Sources(copies[..i]))
    {
      var c := copies[i];
      assert copies[..i + 1][..i] == copies[..i];
      SourcesSnoc(copies, i);
      WithoutWithout(deleted, Sources(copies[..i]), {c.fromPath});
      if c.fromPath in remaining {
        remaining := RemoveAll(remaining, c.fromPath);
        moved := moved + [c];
      } else {
        assert Without(remaining, {c.fromPath}) == remaining by { WithoutAbsent(remaining, c.fromPath); }
        copied := copied + [c];
      }
      i := i + 1;
    }
    assert copies[..|copies|] == copies;
  }

  lemma {:induction false} WithoutNothing(xs: seq<string>)
    ensures Without(xs, {}) == xs
  {
    if xs != [] {
      WithoutNothing(xs[..|xs| - 1]);
      assert xs[..|xs| - 1] + [xs[|xs| - 1]] == xs;
    }
  }

  lemma {:induction false} WithoutAbsent(xs: seq<string>, x: string)
    requires x !in xs
    ensures Without(xs, {x}) == xs
  {
    if xs != [] {
      var init := xs[..|xs| - 1];
      var last := xs[|xs| - 1];
      assert last !in {x};
      assert Without(xs, {x}) == Without(init, {x}) + [last];
      WithoutAbsent(init, x);
      assert init + [last] == xs;
    }
  }

  /** The last copied entry goes to exactly one of the two lists. */
  lemma PartitionStep(copies: seq<CopiedPath>, deleted: seq<string>)
    requires copies != []
    ensures var init, c := copies[..|copies| - 1], copies[|copies| - 1];
      if IsMove(init, deleted, c)
      then Moves(copies, deleted) == Moves(init, deleted) + [c] && Copies(copies, deleted) == Copies(init, deleted)
      else Moves(copies, deleted) == Moves(init, deleted) && Copies(copies, deleted) == Copies(init, deleted) + [c]
  {
  }

  lemma {:induction false} PartitionMultiset(copies: seq<CopiedPath>, deleted: seq<string>)
    ensures multiset(Moves(copies, deleted)) + multiset(Copies(copies, deleted)) == multiset(copies)
  {
    if copies != [] {
      var init := copies[..|copies| - 1];
      var c := copies[|copies| - 1];
      PartitionMultiset(init, deleted);
      PartitionStep(copies, deleted);
      assert init + [c] == copies;
    }
  }

  /** Every copied entry is recorded exactly once, as MV or as CP. */
  lemma PartitionCount(copies: seq<CopiedPath>, deleted: seq<string>)
    ensures multiset(Moves(copies, deleted)) + multiset(Copies(copies, deleted)) == multiset(copies)
    ensures |Moves(copies, deleted)| + |Copies(copies, deleted)| == |copies|
  {
    PartitionMultiset(copies, deleted);
    assert |multiset(Moves(copies, deleted)) + multiset(Copies(copies, deleted))| == |multiset(copies)|;
  }

  /** Each move consumes a distinct deleted path: no two MV rows share a source. */
  lemma {:induction false} MovesPairDistinctDeletions(copies: seq<CopiedPath>, deleted: seq<string>)
    ensures forall m :: m in Moves(copies, deleted) ==> m.fromPath in deleted
    ensures forall i, j :: 0 <= i < j < |Moves(copies, deleted)| ==>
              Moves(copies, deleted)[i].fromPath != Moves(copies, deleted)[j].fromPath
  {
    if copies != [] {
      var init := copies[..|copies| - 1];
      var c := copies[|copies| - 1];
      MovesPairDistinctDeletions(init, deleted);
      MovesFromCopies(init, deleted);
      if IsMove(init, deleted, c) {
        var ms := Moves(init, deleted);
        forall i | 0 <= i < |ms| ensures ms[i].fromPath != c.fromPath {
          assert ms[i] in init;
          var k :| 0 <= k < |init| && init[k] == ms[i];
          assert init[k].fromPath in Sources(init);
        }
      }
    }
  }

  lemma {:induction false} MovesFromCopies(copies: seq<CopiedPath>, deleted: seq<string>)
    ensures forall m :: m in Moves(copies, deleted) ==> m in copies
  {
    if copies != [] {
      var init := copies[..|copies| - 1];
      MovesFromCopies(init, deleted);
      assert forall m :: m in init ==> m in copies;
    }
  }

  /**
   * A deleted path that some copied entry came from is always paired: the first such
   * entry is a move, so that path is not reported as a deletion.
   */
  lemma {:induction false} DeletedSourceIsMoved(copies: seq<CopiedPath>, deleted: seq<string>, i: nat)
    requires i < |copies| && copies[i].fromPath in deleted
    ensures exists m :: m in Moves(copies, deleted) && m.fromPath == copies[i].fromPath
    ensures copies[i].fromPath !in Deletions(copies, deleted)
  {
    var init := copies[..|copies| - 1];
    var c := copies[|copies| - 1];
    assert copies[i].fromPath in Sources(copies);
    if i < |copies| - 1 {
      assert init[i] == copies[i];
      DeletedSourceIsMoved(init, deleted, i);
      var m :| m in Moves(init, deleted) && m.fromPath == copies[i].fromPath;
      assert m in Moves(copies, deleted);
    } else if !IsMove(init, deleted, c) {
      var k :| 0 <= k < |init| && init[k].fromPath == c.fromPath;
      DeletedSourceIsMoved(init, deleted, k);
      var m :| m in Moves(init, deleted) && m.fromPath == copies[i].fromPath;
      assert m in Moves(copies, deleted);
    } else {
      assert c in Moves(copies, deleted);
    }
  }

  /**
   * The number of rows: one per added path, per updated path and per copied entry,
   * plus one per deleted path left after move pairing.
   */
  lemma ClassifyCount(changesetId: int, d: Delta)
    ensures |Classify(changesetId, d)| ==
      |Added(d)| + |Updated(d)| + |Copied(d)| + |Deletions(Copied(d), Deleted(d))|
  {
    PartitionCount(Copied(d), Deleted(d));
  }

  /** MV and CP rows carry source path and revision; A, M and D rows carry neither. */
  lemma ClassifyShape(changesetId: int, d: Delta)
    ensures forall c :: c in Classify(changesetId, d) ==>
      && c.changesetId == changesetId
      && ((c.name == MV || c.name == CP) <==> c.fromPath.Some?)
      && (c.fromPath.Some? <==> c.fromRevision.Some?)
  {
  }

  /** The position of each kind in the insertion order. */
  function Rank(n: ChangeName): nat {
    match n
    case A => 0
    case M => 1
    case MV => 2
    case CP => 3
    case D => 4
  }

  /** Rows come grouped by kind: all A, then M, then MV, then CP, then D. */
  lemma ClassifyOrder(changesetId: int, d: Delta)
    ensures forall i, j :: 0 <= i < j < |Classify(changesetId, d)| ==>
      Rank(Classify(changesetId, d)[i].name) <= Rank(Classify(changesetId, d)[j].name)
  {
    var r := Classify(changesetId, d);
    var a := |Added(d)|;
    var m := a + |Updated(d)|;
    var mv := m + |Moves(Copied(d), Deleted(d))|;
    var cp := mv + |Copies(Copied(d), Deleted(d))|;
    forall i | 0 <= i < |r|
      ensures Rank(r[i].name) == if i < a then 0 else if i < m then 1 else if i < mv then 2 else if i < cp then 3 else 4
    {
    }
  }

  /** The paths of the rows of one kind, in row order. */
  function PathsOf(rows: seq<Change>, n: ChangeName): seq<string> {
    if rows == [] then []
    else PathsOf(rows[..|rows| - 1], n) + (if rows[|rows| - 1].name == n then [rows[|rows| - 1].path] else [])
  }

  lemma {:induction false} PathsOfAppend(xs: seq<Change>, ys: seq<Change>, n: ChangeName)
    ensures PathsOf(xs + ys, n) == PathsOf(xs, n) + PathsOf(ys, n)
  {
    if ys != [] {
      var zs := xs + ys;
      assert zs[..|zs| - 1] == xs + ys[..|ys| - 1];
      PathsOfAppend(xs, ys[..|ys| - 1], n);
    } else {
      assert xs + ys == xs;
    }
  }

  lemma {:induction false} PathsOfPathChanges(id: int, name: ChangeName, paths: seq<string>, n: ChangeName)
    ensures PathsOf(PathChanges(id, name, paths), n) == if n == name then paths else []
  {
    if paths != [] {
      var init := paths[..|paths| - 1];
      PathsOfPathChanges(id, name, init, n);
      assert PathChanges(id, name, paths)[..|paths| - 1] == PathChanges(id, name, init);
      assert init + [paths[|paths| - 1]] == paths;
    }
  }

  lemma {:induction false} PathsOfCopyChanges(id: int, name: ChangeName, copies: seq<CopiedPath>, n: ChangeName)
    ensures PathsOf(CopyChanges(id, name, copies), n) == if n == name then Destinations(copies) else []
  {
    if copies != [] {
      var init := copies[..|copies| - 1];
      PathsOfCopyChanges(id, name, init, n);
      assert CopyChanges(id, name, copies)[..|copies| - 1] == CopyChanges(id, name, init);
      assert Destinations(copies)[..|copies| - 1] == Destinations(init);
    }
  }

  /** The destination paths of copied entries. */
  function Destinations(copies: seq<CopiedPath>): (r: seq<string>)
    ensures |r| == |copies|
  {
    seq(|copies|, i requires 0 <= i < |copies| => copies[i].path)
  }

  lemma ClassifyPaths(changesetId: int, d: Delta, n: ChangeName)
    ensures PathsOf(Classify(changesetId, d), n) ==
      (if n == A then Added(d) else [])
      + (if n == M then Updated(d) else [])
      + (if n == MV then Destinations(Moves(Copied(d), Deleted(d))) else [])
      + (if n == CP then Destinations(Copies(Copied(d), Deleted(d))) else [])
      + (if n == D then Deletions(Copied(d), Deleted(d)) else [])
  {
    var pa := PathChanges(changesetId, A, Added(d));
    var pm := PathChanges(changesetId, M, Updated(d));
    var pmv := CopyChanges(changesetId, MV, Moves(Copied(d), Deleted(d)));
    var pcp := CopyChanges(changesetId, CP, Copies(Copied(d), Deleted(d)));
    var pd := PathChanges(changesetId, D, Deletions(Copied(d), Deleted(d)));
    PathsOfAppend(pa + pm + pmv + pcp, pd, n);
    PathsOfAppend(pa + pm + pmv, pcp, n);
    PathsOfAppend(pa + pm, pmv, n);
    PathsOfAppend(pa, pm, n);
    PathsOfPathChanges(changesetId, A, Added(d), n);
    PathsOfPathChanges(changesetId, M, Updated(d), n);
    PathsOfCopyChanges(changesetId, MV, Moves(Copied(d), Deleted(d)), n);
    PathsOfCopyChanges(changesetId, CP, Copies(Copied(d), Deleted(d)), n);
    PathsOfPathChanges(changesetId, D, Deletions(Copied(d), Deleted(d)), n);
  }

  /**
   * Read back by kind, the rows give exactly: the added paths (A), the updated paths
   * (M), the destinations of the moves (MV) and of the copies (CP), and the deleted
   * paths left after move pairing (D), each in the source's order.
   */
  lemma ClassifyByKind(changesetId: int, d: Delta)
    ensures PathsOf(Classify(changesetId, d), A) == Added(d)
    ensures PathsOf(Classify(changesetId, d), M) == Updated(d)
    ensures PathsOf(Classify(changesetId, d), MV) == Destinations(Moves(Copied(d), Deleted(d)))
    ensures PathsOf(Classify(changesetId, d), CP) == Destinations(Copies(Copied(d), Deleted(d)))
    ensures PathsOf(Classify(changesetId, d), D) == Deletions(Copied(d), Deleted(d))
  {
    ClassifyPaths(changesetId, d, A);
    ClassifyPaths(changesetId, d, M);
    ClassifyPaths(changesetId, d, MV);
    ClassifyPaths(changesetId, d, CP);
    ClassifyPaths(changesetId, d, D);
  }

  /** A file renamed within one revision: one MV row and no D row for the old path. */
  lemma RenameIsOneMove()
    ensures var d := Delta([], [], [], [], [], ["a/old.txt"], [], [CopiedPath("a/new.txt", "a/old.txt", 5)]);
            Classify(7, d) == [Change(7, MV, "a/new.txt", Some("a/old.txt"), Some(5))]
  {
    var d := Delta([], [], [], [], [], ["a/old.txt"], [], [CopiedPath("a/new.txt", "a/old.txt", 5)]);
    assert Copied(d)[..0] == [];
    assert Sources(Copied(d)) == {"a/old.txt"} by { SourcesSnoc(Copied(d), 0); assert Copied(d)[..1] == Copied(d); }
  }

  /** The same copied entry with the original kept: one CP row and nothing else. */
  lemma CopyWithoutDeleteIsCopy()
    ensures var d := Delta([], [], [], [], [], [], [], [CopiedPath("a/new.txt", "a/old.txt", 5)]);
            Classify(7, d) == [Change(7, CP, "a/new.txt", Some("a/old.txt"), Some(5))]
  {
    var d := Delta([], [], [], [], [], [], [], [CopiedPath("a/new.txt", "a/old.txt", 5)]);
    assert Copied(d)[..0] == [];
  }

  /** Two entries copied from one deleted path: the first is the move, the second a copy. */
  lemma SecondCopyOfMovedSourceIsCopy()
    ensures var d := Delta([], [], [], [], [], ["x"], [],
                           [CopiedPath("y", "x", 3), CopiedPath("z", "x", 3)]);
            Classify(1, d) == [Change(1, MV, "y", Some("x"), Some(3)), Change(1, CP, "z", Some("x"), Some(3))]
  {
    var d := Delta([], [], [], [], [], ["x"], [], [CopiedPath("y", "x", 3), CopiedPath("z", "x", 3)]);
    var cs := Copied(d);
    assert cs[..1][..0] == [];
    SourcesSnoc(cs, 0);
    assert cs[..0] == [];
    assert Sources(cs[..1]) == {"x"};
    assert cs[..2] == cs;
    SourcesSnoc(cs, 1);
    assert Moves(cs[..1], ["x"]) == [cs[0]];
    assert Copies(cs[..1], ["x"]) == [];
    assert !IsMove(cs[..1], ["x"], cs[1]);
    assert Moves(cs, ["x"]) == [cs[0]];
    assert Copies(cs, ["x"]) == [cs[1]];
    assert Deletions(cs, ["x"]) == [] by {
      assert Without(["x"], {"x"}) == Without([], {"x"}) + [];
    }
  }
}
