/** What the walk of get_cwd guarantees: how one parent listing is scanned, that
    the result leads back to the start, that it climbs exactly to the root, and
    how failures surface. */
module CwdProperties {
  import opened Filesystem
  import opened Cwd
  import opened PathList

  // ---------------------------------------------------------------------------
  // Scanning one parent listing

  /** The first entry that is neither passed over nor a failed stat decides the
      scan; when it names the target, its name is the one taken. */
  lemma {:induction false} ScanTakesFirstMatch(listing: seq<Entry>, readError: bool, target: Ident, k: nat)
    requires k < |listing|
    requires forall j :: 0 <= j < k ==> Skippable(listing[j], target)
    requires Matches(listing[k], target)
    ensures Scan(listing, readError, target) == Found(listing[k].name)
    decreases k
  {
    if k > 0 {
      assert Skippable(listing[0], target);
      ScanTakesFirstMatch(listing[1..], readError, target, k - 1);
    }
  }

  /** A stat failure other than ENOENT before any match ends the scan with a
      primitive failure, whatever follows it. */
  lemma {:induction false} ScanStopsOnStatFailure(listing: seq<Entry>, readError: bool, target: Ident, k: nat)
    requires k < |listing|
    requires forall j :: 0 <= j < k ==> Skippable(listing[j], target)
    requires listing[k].stat.Failed?
    ensures Scan(listing, readError, target) == StatFailed
    decreases k
  {
    if k > 0 {
      assert Skippable(listing[0], target);
      ScanStopsOnStatFailure(listing[1..], readError, target, k - 1);
    }
  }

  /** A listing that is used up without a decision ends in a readdir failure if
      readdir reports one, and otherwise in no match. */
  lemma {:induction false} ScanRunsOut(listing: seq<Entry>, readError: bool, target: Ident)
    requires forall e :: e in listing ==> Skippable(e, target)
    ensures Scan(listing, readError, target) == if readError then ReadFailed else Exhausted
    decreases |listing|
  {
    if listing != [] {
      assert listing[0] in listing;
      ScanRunsOut(listing[1..], readError, target);
    }
  }

  /** The scan finds no match exactly when readdir ends cleanly and every entry is
      passed over. */
  lemma {:induction false} ScanExhausted(listing: seq<Entry>, readError: bool, target: Ident)
    ensures Scan(listing, readError, target) == Exhausted <==>
      !readError && forall e :: e in listing ==> Skippable(e, target)
    decreases |listing|
  {
    if listing != [] {
      ScanExhausted(listing[1..], readError, target);
      if Skippable(listing[0], target) {
        assert forall e :: e in listing ==> e == listing[0] || e in listing[1..];
      }
    }
  }

  /** An entry that vanished between readdir and fstatat changes nothing: the
      scan ends as if it had never been listed. */
  lemma {:induction false} ScanIgnoresVanished(listing: seq<Entry>, readError: bool, target: Ident, k: nat, name: string)
    requires k <= |listing|
    ensures Scan(listing[..k] + [Entry(name, Vanished)] + listing[k..], readError, target)
         == Scan(listing, readError, target)
    decreases k
  {
    var longer := listing[..k] + [Entry(name, Vanished)] + listing[k..];
    if k == 0 {
      assert longer[1..] == listing;
    } else {
      assert longer[0] == listing[0];
      assert longer[1..] == listing[1..][..k - 1] + [Entry(name, Vanished)] + listing[1..][k - 1..];
      ScanIgnoresVanished(listing[1..], readError, target, k - 1, name);
    }
  }

  // ---------------------------------------------------------------------------
  // The walk climbs one level per segment and stops at the root

  /** The walk stops at `d`: its parent's listing names it "." or "..". */
  ghost predicate StopsAt(fs: FileSystem, d: Ident) {
    ParentOpens(fs, d) &&
    var p := fs[fs[d].parent];
    var s := Scan(p.listing, p.readError, d);
    s.Found? && IsPseudo(s.name)
  }

  /** A resolved walk of n segments climbs through exactly n directories, none of
      them a root, and stops at the n-th ancestor; the segment recorded at level i
      is the name under which the parent of that level lists it, and the segments
      run from the top level down to the start. */
  lemma {:induction false} WalkClimbs(fs: FileSystem, rank: map<Ident, nat>, cur: Ident)
    requires WellFormed(fs, rank)
    requires Walk(fs, rank, cur).Resolved?
    ensures var n := |Walk(fs, rank, cur).segments|;
      (forall i :: 0 <= i < n ==> Climbs(fs, Up(fs, cur, i)) && !IsRoot(fs, Up(fs, cur, i))) &&
      (forall i :: 0 <= i < n ==> Walk(fs, rank, cur).segments[n - 1 - i] == FoundName(fs, Up(fs, cur, i))) &&
      StopsAt(fs, Up(fs, cur, n))
    decreases if cur in rank then rank[cur] else 0
  {
    if !Climbs(fs, cur) {
      assert Walk(fs, rank, cur) == Resolved([]);
    } else {
      var parent := fs[cur].parent;
      WalkAscends(fs, rank, cur);
      WalkClimbs(fs, rank, parent);
      var n := |Walk(fs, rank, cur).segments|;
      assert n == |Walk(fs, rank, parent).segments| + 1;
      var above := Walk(fs, rank, parent).segments;
      assert Walk(fs, rank, cur).segments == above + [FoundName(fs, cur)];
      forall i | 0 <= i < n
        ensures Climbs(fs, Up(fs, cur, i)) && !IsRoot(fs, Up(fs, cur, i))
        ensures Walk(fs, rank, cur).segments[n - 1 - i] == FoundName(fs, Up(fs, cur, i))
      {
        if i > 0 {
          assert Up(fs, cur, i) == Up(fs, parent, i - 1);
          assert (above + [FoundName(fs, cur)])[n - 1 - i] == above[(n - 1) - 1 - (i - 1)];
        }
      }
      assert Up(fs, cur, n) == Up(fs, parent, n - 1);
    }
  }

  /** When "." and ".." are what they claim to be, a resolved walk stops at a
      root: the segments reach from the first ancestor whose ".." is itself down
      to the start, and never above it. */
  lemma WalkEndsAtRoot(fs: FileSystem, rank: map<Ident, nat>, cur: Ident)
    requires WellFormed(fs, rank) && DotsHonest(fs)
    requires Walk(fs, rank, cur).Resolved?
    ensures IsRoot(fs, Up(fs, cur, |Walk(fs, rank, cur).segments|))
  {
    WalkClimbs(fs, rank, cur);
    var top := Up(fs, cur, |Walk(fs, rank, cur).segments|);
    var p := fs[top].parent;
    var s := Scan(fs[p].listing, fs[p].readError, top);
    var e :| e in fs[p].listing && e.name == s.name && Matches(e, top);
    assert Ident(e.stat.dev, e.stat.ino) == top;
  }

  /** At the root, the walk yields no segments and the path "/". */
  lemma WalkAtRoot(fs: FileSystem, rank: map<Ident, nat>, root: Ident)
    requires WellFormed(fs, rank)
    requires IsRoot(fs, root) && fs[root].readable
    requires Scan(fs[root].listing, fs[root].readError, root).Found?
    ensures Walk(fs, rank, root) == Resolved([])
    ensures Render(Walk(fs, rank, root).segments) == "/"
  {
    FirstSelfScan(fs[root].listing, fs[root].readError, root);
  }

  // ---------------------------------------------------------------------------
  // The segments lead back to the start

  lemma {:induction false} DescendSnoc(fs: FileSystem, from: Ident, path: seq<string>, name: string)
    ensures Descend(fs, from, path + [name])
         == if Descend(fs, from, path).Some? then Child(fs, Descend(fs, from, path).value, name) else None
    decreases |path|
  {
    if path == [] {
      assert path + [name] == [name];
    } else {
      assert (path + [name])[0] == path[0];
      assert (path + [name])[1..] == path[1..] + [name];
      match Child(fs, from, path[0])
      case Some(c) => DescendSnoc(fs, c, path[1..], name);
      case None =>
    }
  }

  /** The name the walk found for `d` leads from its parent back to `d`. */
  lemma ChildFound(fs: FileSystem, d: Ident)
    requires UniqueNames(fs) && ParentOpens(fs, d)
    requires Scan(fs[fs[d].parent].listing, fs[fs[d].parent].readError, d).Found?
    ensures Child(fs, fs[d].parent, Scan(fs[fs[d].parent].listing, fs[fs[d].parent].readError, d).name) == Some(d)
  {
  }

  /** Round trip: following the returned segments downwards, by name, from the
      directory where the walk stopped arrives at the starting directory. */
  lemma {:induction false} WalkRetraces(fs: FileSystem, rank: map<Ident, nat>, cur: Ident)
    requires WellFormed(fs, rank) && UniqueNames(fs)
    requires Walk(fs, rank, cur).Resolved?
    ensures var segments := Walk(fs, rank, cur).segments;
      Descend(fs, Up(fs, cur, |segments|), segments) == Some(cur)
    decreases if cur in rank then rank[cur] else 0
  {
    if Climbs(fs, cur) {
      var parent := fs[cur].parent;
      WalkAscends(fs, rank, cur);
      WalkRetraces(fs, rank, parent);
      var above := Walk(fs, rank, parent).segments;
      var name := FoundName(fs, cur);
      assert Walk(fs, rank, cur).segments == above + [name];
      var top := Up(fs, parent, |above|);
      assert Up(fs, cur, |above| + 1) == top;
      DescendSnoc(fs, top, above, name);
      ChildFound(fs, cur);
    } else {
      assert Walk(fs, rank, cur).segments == [];
    }
  }

  // ---------------------------------------------------------------------------
  // Failures

  /** Failures at one level: an unreadable parent is a primitive failure of
      openat, a failed scan is the failure of its call, and a parent that no
      longer lists the directory means a component was removed. */
  lemma AscentFailures(fs: FileSystem, rank: map<Ident, nat>, d: Ident)
    requires WellFormed(fs, rank)
    ensures d in fs && fs[d].parent in fs && !fs[fs[d].parent].readable ==>
      Walk(fs, rank, d) == PrimitiveFailure(OpenAt)
    ensures ParentOpens(fs, d) ==>
      var p := fs[fs[d].parent];
      (Scan(p.listing, p.readError, d).StatFailed? ==> Walk(fs, rank, d) == PrimitiveFailure(FStatAt)) &&
      (Scan(p.listing, p.readError, d).ReadFailed? ==> Walk(fs, rank, d) == PrimitiveFailure(ReadDir)) &&
      (!p.readError && (forall e :: e in p.listing ==> Skippable(e, d)) ==>
         Walk(fs, rank, d) == ComponentRemoved)
  {
  }

  /** No partial results: when the walk climbs through the first m levels and
      fails above them, the whole walk fails in the same way. */
  lemma {:induction false} WalkFailsAbove(fs: FileSystem, rank: map<Ident, nat>, cur: Ident, m: nat)
    requires WellFormed(fs, rank)
    requires forall i :: 0 <= i < m ==> Climbs(fs, Up(fs, cur, i))
    ensures !Walk(fs, rank, Up(fs, cur, m)).Resolved? ==> Walk(fs, rank, cur) == Walk(fs, rank, Up(fs, cur, m))
    decreases m
  {
    if m > 0 {
      assert Climbs(fs, Up(fs, cur, 0));
      var parent := fs[cur].parent;
      WalkAscends(fs, rank, cur);
      forall i | 0 <= i < m - 1
        ensures Climbs(fs, Up(fs, parent, i))
      {
        assert Up(fs, cur, i + 1) == Up(fs, parent, i);
      }
      assert Up(fs, cur, m) == Up(fs, parent, m - 1);
      WalkFailsAbove(fs, rank, parent, m - 1);
    }
  }

  /** The parent of `d` opens, reads without error, stats every entry and lists
      `d`: nothing on this level was removed and no call fails. */
  ghost predicate LevelIntact(fs: FileSystem, d: Ident) {
    ParentOpens(fs, d) &&
    var p := fs[fs[d].parent];
    !p.readError &&
    (forall e :: e in p.listing ==> !e.stat.Failed?) &&
    (exists e :: e in p.listing && Matches(e, d))
  }

  /** Every level of the snapshot is intact. */
  ghost predicate Intact(fs: FileSystem) {
    forall d {:trigger LevelIntact(fs, d)} :: d in fs ==> LevelIntact(fs, d)
  }

  /** On an intact snapshot the walk from any directory resolves. */
  lemma {:induction false} WalkResolvesIntact(fs: FileSystem, rank: map<Ident, nat>, cur: Ident)
    requires WellFormed(fs, rank) && Intact(fs) && cur in fs
    ensures Walk(fs, rank, cur).Resolved?
    decreases rank[cur]
  {
    assert LevelIntact(fs, cur);
    var parent := fs[cur].parent;
    var p := fs[parent];
    var s := Scan(p.listing, p.readError, cur);
    assert s != Exhausted by {
      var m :| m in p.listing && Matches(m, cur);
      assert !Skippable(m, cur);
      ScanExhausted(p.listing, p.readError, cur);
    }
    assert !s.StatFailed? && !s.ReadFailed?;
    if !IsPseudo(s.name) {
      WalkAscends(fs, rank, cur);
      WalkResolvesIntact(fs, rank, parent);
    }
  }

  // ---------------------------------------------------------------------------
  // The printed path

  /** When every listed name is a proper file name, the printed path reads back
      as exactly the segments the walk found. */
  lemma {:induction false} WalkPrintsSegments(fs: FileSystem, rank: map<Ident, nat>, cur: Ident)
    requires WellFormed(fs, rank)
    requires forall d, e :: d in fs && e in fs[d].listing ==> ValidName(e.name)
    requires Walk(fs, rank, cur).Resolved?
    ensures AllValid(Walk(fs, rank, cur).segments)
    ensures ParsePath(Render(Walk(fs, rank, cur).segments)) == Walk(fs, rank, cur).segments
    decreases if cur in rank then rank[cur] else 0
  {
    if Climbs(fs, cur) {
      var parent := fs[cur].parent;
      WalkAscends(fs, rank, cur);
      WalkPrintsSegments(fs, rank, parent);
      var p := fs[parent];
      var e :| e in p.listing && e.name == FoundName(fs, cur) && Matches(e, cur);
      assert ValidName(e.name);
    }
    RenderRoundTrip(Walk(fs, rank, cur).segments);
  }
}

/** A concrete snapshot: directories a/b/c below a root whose ".." is itself. */
module CwdExample {
  import opened Filesystem
  import opened Cwd
  import opened PathList
  import CwdProperties

  const Root := Ident(1, 2)
  const A := Ident(1, 10)
  const B := Ident(1, 11)
  const C := Ident(1, 12)

  function DirEntry(name: string, d: Ident): Entry {
    Entry(name, Ok(true, d.dev, d.ino))
  }

  function Tree(): FileSystem {
    map[
      Root := Dir(Root, true, [DirEntry(".", Root), DirEntry("..", Root), DirEntry("a", A)], false),
      A := Dir(Root, true, [DirEntry(".", A), DirEntry("..", Root), DirEntry("b", B)], false),
      B := Dir(A, true, [DirEntry(".", B), DirEntry("..", A), Entry("gone", Vanished), DirEntry("c", C)], false),
      C := Dir(B, true, [DirEntry(".", C), DirEntry("..", B)], false)
    ]
  }

  function Depths(): map<Ident, nat> {
    map[Root := 0, A := 1, B := 2, C := 3]
  }

  lemma TreeWellFormed()
    ensures WellFormed(Tree(), Depths())
  {
  }

  /** Walking up from `d`, whose parent's listing names it `name`, adds that name
      to the path of the parent. */
  lemma StepUp(d: Ident, name: string)
    requires ParentOpens(Tree(), d)
    requires Scan(Tree()[Tree()[d].parent].listing, Tree()[Tree()[d].parent].readError, d) == Found(name)
    ensures WellFormed(Tree(), Depths())
    ensures Walk(Tree(), Depths(), d) ==
      if IsPseudo(name) then Resolved([]) else Extend(Walk(Tree(), Depths(), Tree()[d].parent), [name])
  {
    TreeWellFormed();
  }

  /** Scanning the listing of `dir` for `d` takes entry `k`. */
  lemma ScanFinds(dir: Ident, d: Ident, k: nat)
    requires dir in Tree() && k < |Tree()[dir].listing|
    requires forall j :: 0 <= j < k ==> Skippable(Tree()[dir].listing[j], d)
    requires Matches(Tree()[dir].listing[k], d)
    ensures Scan(Tree()[dir].listing, Tree()[dir].readError, d) == Found(Tree()[dir].listing[k].name)
  {
    CwdProperties.ScanTakesFirstMatch(Tree()[dir].listing, Tree()[dir].readError, d, k);
  }

  lemma RootPath()
    ensures WellFormed(Tree(), Depths()) && Walk(Tree(), Depths(), Root) == Resolved([])
  {
  }

  lemma APath()
    ensures WellFormed(Tree(), Depths()) && Walk(Tree(), Depths(), A) == Resolved(["a"])
  {
    ScanFinds(Root, A, 2);
    StepUp(A, "a");
    RootPath();
    assert [] + ["a"] == ["a"];
  }

  lemma BPath()
    ensures WellFormed(Tree(), Depths()) && Walk(Tree(), Depths(), B) == Resolved(["a", "b"])
  {
    ScanFinds(A, B, 2);
    StepUp(B, "b");
    APath();
    assert ["a"] + ["b"] == ["a", "b"];
  }

  /** The entry that vanished from b's listing before c is passed over. */
  lemma ScanOfB()
    ensures Scan(Tree()[B].listing, false, C) == Found("c")
  {
    var listing := Tree()[B].listing;
    assert !Matches(listing[0], C) && !Matches(listing[1], C) && listing[2].stat.Vanished?;
    ScanFinds(B, C, 3);
  }

  /** Resolving from a/b/c gives the segments a, b, c. */
  lemma CPath()
    ensures WellFormed(Tree(), Depths()) && Walk(Tree(), Depths(), C) == Resolved(["a", "b", "c"])
  {
    ScanOfB();
    StepUp(C, "c");
    BPath();
    assert ["a", "b"] + ["c"] == ["a", "b", "c"];
  }

  /** Resolving from a/b/c prints "/a/b/c"; resolving from the root prints "/". */
  lemma ThreeLevels()
    ensures WellFormed(Tree(), Depths())
    ensures Walk(Tree(), Depths(), C).Resolved? && Render(Walk(Tree(), Depths(), C).segments) == "/a/b/c"
    ensures Walk(Tree(), Depths(), Root).Resolved? && Render(Walk(Tree(), Depths(), Root).segments) == "/"
  {
    RootPath();
    CPath();
    assert Walk(Tree(), Depths(), C).segments == ["a", "b", "c"];
    RenderThreeLevels();
  }

  /** A snapshot in which a sits below the root and lists itself as "loop", as a
      bind mount of a directory below itself leaves it, seen from the working
      directory /a: the snapshot gives a one "..", so the mounted copy /a/loop,
      whose ".." is a itself, is not represented. */
  function LoopTree(): FileSystem {
    map[
      Root := Dir(Root, true, [DirEntry(".", Root), DirEntry("..", Root), DirEntry("a", A)], false),
      A := Dir(Root, true, [DirEntry(".", A), DirEntry("..", Root), DirEntry("loop", A)], false)
    ]
  }

  /** A directory other than a root that lists itself under an ordinary name does
      not stop the walk: from a it resolves to the segment a, since only the
      root's listing is scanned for the directory that lists it. */
  lemma BindMountLoop()
    ensures LoopTree()[A].listing[2].name == "loop" && Matches(LoopTree()[A].listing[2], A)
    ensures WellFormed(LoopTree(), Depths())
    ensures Walk(LoopTree(), Depths(), A) == Resolved(["a"])
  {
    var fs := LoopTree();
    assert Ranked(fs, Depths());
    forall d | IsRoot(fs, d)
      ensures FirstSelfIsPseudo(fs[d].listing, d)
    {
      assert d == Root;
    }
    CwdProperties.ScanTakesFirstMatch(fs[Root].listing, false, Root, 0);
    assert Walk(fs, Depths(), Root) == Resolved([]);
    CwdProperties.ScanTakesFirstMatch(fs[Root].listing, false, A, 2);
    assert [] + ["a"] == ["a"];
  }

  /** A snapshot in which the root lists itself as "x" after "." and "..", as a
      bind mount of the root below itself leaves it, and a sits below the root. */
  function RootLoopTree(): FileSystem {
    map[
      Root := Dir(Root, true, [DirEntry(".", Root), DirEntry("..", Root), DirEntry("x", Root), DirEntry("a", A)], false),
      A := Dir(Root, true, [DirEntry(".", A), DirEntry("..", Root)], false)
    ]
  }

  /** A root that lists itself under an ordinary name after "." is still found
      as "." and the walk stops there: from the root it yields no segments, and
      from a the segment a. */
  lemma RootBindMount()
    ensures RootLoopTree()[Root].listing[2].name == "x" && Matches(RootLoopTree()[Root].listing[2], Root)
    ensures WellFormed(RootLoopTree(), Depths())
    ensures Walk(RootLoopTree(), Depths(), Root) == Resolved([])
    ensures Walk(RootLoopTree(), Depths(), A) == Resolved(["a"])
  {
    var fs := RootLoopTree();
    assert Ranked(fs, Depths());
    forall d | IsRoot(fs, d)
      ensures FirstSelfIsPseudo(fs[d].listing, d)
    {
      assert d == Root;
    }
    CwdProperties.ScanTakesFirstMatch(fs[Root].listing, false, Root, 0);
    assert Walk(fs, Depths(), Root) == Resolved([]);
    CwdProperties.ScanTakesFirstMatch(fs[Root].listing, false, A, 3);
    assert [] + ["a"] == ["a"];
  }
}
