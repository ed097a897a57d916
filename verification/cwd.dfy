/** get_cwd: recover the path of the current directory by climbing through ".."
    and finding, in each parent's listing, the entry whose identity is that of
    the directory just left. */
module Cwd {
  import opened Filesystem

  /** The system call a primitive failure is reported against. */
  datatype Primitive = OpenAt | ReadDir | FStatAt

  /** How the scan of one parent listing ends. */
  datatype ScanOutcome =
    | Found(name: string)   // the first entry that names the directory left
    | Exhausted             // readdir reached the end without a match
    | StatFailed            // fstatat failed on an entry with an error other than ENOENT
    | ReadFailed            // readdir reported an error

  /** What the whole walk produces. */
  datatype Outcome =
    | Resolved(segments: seq<string>)  // root-first path components
    | PrimitiveFailure(op: Primitive)
    | ComponentRemoved                 // "some component in CWD was removed"

  predicate NoPseudo(segments: seq<string>) {
    forall i :: 0 <= i < |segments| ==> !IsPseudo(segments[i])
  }

  /** The scan of a parent's listing for the entry that names `target`: entries
      that vanished or are something else are passed over, any other stat
      failure stops the scan, and the first match wins. */
  function Scan(listing: seq<Entry>, readError: bool, target: Ident): (r: ScanOutcome)
    ensures r.Found? ==> exists e :: e in listing && e.name == r.name && Matches(e, target)
    ensures r.StatFailed? ==> exists e :: e in listing && e.stat.Failed?
    ensures r.ReadFailed? ==> readError
    decreases |listing|
  {
    if listing == [] then
      if readError then ReadFailed else Exhausted
    else if listing[0].stat.Failed? then StatFailed
    else if Matches(listing[0], target) then Found(listing[0].name)
    else Scan(listing[1..], readError, target)
  }

  /** Add `tail` after the segments of a resolved outcome; failures stay as they are. */
  function Extend(o: Outcome, tail: seq<string>): Outcome {
    if o.Resolved? then Resolved(o.segments + tail) else o
  }

  lemma ExtendTwice(o: Outcome, first: seq<string>, second: seq<string>)
    ensures Extend(Extend(o, first), second) == Extend(o, first + second)
  {
  }

  /** The walk from `cur` up to the root, as a specification. The path of `cur` is
      the path of its parent followed by the name under which the parent lists it. */
  ghost function Walk(fs: FileSystem, rank: map<Ident, nat>, cur: Ident): (r: Outcome)
    requires WellFormed(fs, rank)
    ensures r.Resolved? ==> NoPseudo(r.segments)
    decreases if cur in rank then rank[cur] else 0
  {
    if !ParentOpens(fs, cur) then PrimitiveFailure(OpenAt)
    else
      var parent := fs[cur].parent;
      match Scan(fs[parent].listing, fs[parent].readError, cur)
      case StatFailed => PrimitiveFailure(FStatAt)
      case ReadFailed => PrimitiveFailure(ReadDir)
      case Exhausted => ComponentRemoved
      case Found(name) =>
        if IsPseudo(name) then Resolved([])
        else
          RootStops(fs, rank, cur);
          Extend(Walk(fs, rank, parent), [name])
  }

  /** A scan for `d` that stops at the first entry naming `d` takes "." or ".."
      when that entry is one. */
  lemma {:induction false} FirstSelfScan(listing: seq<Entry>, readError: bool, d: Ident)
    ensures FirstSelfIsPseudo(listing, d) && Scan(listing, readError, d).Found? ==>
      IsPseudo(Scan(listing, readError, d).name)
    decreases |listing|
  {
    if listing != [] && !listing[0].stat.Failed? && !Matches(listing[0], d) {
      FirstSelfScan(listing[1..], readError, d);
    }
  }

  /** Finding `d` under an ordinary name in its parent's listing means the parent
      is another directory: a root is always found as "." or "..". */
  lemma RootStops(fs: FileSystem, rank: map<Ident, nat>, d: Ident)
    requires WellFormed(fs, rank) && ParentOpens(fs, d)
    requires var p := fs[fs[d].parent];
      Scan(p.listing, p.readError, d).Found? && !IsPseudo(Scan(p.listing, p.readError, d).name)
    ensures fs[d].parent != d
  {
    var p := fs[fs[d].parent];
    FirstSelfScan(p.listing, p.readError, d);
  }

  /** The walk passes through `d`: the parent opens and lists `d` under an
      ordinary name, so the walk records that name and moves up. */
  ghost predicate Climbs(fs: FileSystem, d: Ident) {
    ParentOpens(fs, d) &&
    var p := fs[fs[d].parent];
    var s := Scan(p.listing, p.readError, d);
    s.Found? && !IsPseudo(s.name)
  }

  /** The name under which the parent of `d` lists it, when the walk climbs through `d`. */
  ghost function FoundName(fs: FileSystem, d: Ident): string
    requires Climbs(fs, d)
  {
    var p := fs[fs[d].parent];
    Scan(p.listing, p.readError, d).name
  }

  /** One step of the walk: climbing through `d` lands on a different directory,
      and the path of `d` is the path of its parent followed by the name found. */
  lemma WalkAscends(fs: FileSystem, rank: map<Ident, nat>, d: Ident)
    requires WellFormed(fs, rank) && Climbs(fs, d)
    ensures fs[d].parent != d
    ensures Walk(fs, rank, d) == Extend(Walk(fs, rank, fs[d].parent), [FoundName(fs, d)])
  {
    RootStops(fs, rank, d);
  }

  /** The readdir loop of get_cwd over the opened parent `dir`. */
  method ScanDirectory(dir: Dir, target: Ident) returns (r: ScanOutcome)
    ensures r == Scan(dir.listing, dir.readError, target)
  {
    var i := 0;
    while i < |dir.listing|
      invariant 0 <= i <= |dir.listing|
      invariant Scan(dir.listing[i..], dir.readError, target) == Scan(dir.listing, dir.readError, target)
    {
      var ent := dir.listing[i];
      match ent.stat {
        case Vanished =>
        case Failed =>
          return StatFailed;
        case Ok(isDir, dev, ino) =>
          if isDir && dev == target.dev && ino == target.ino {
            return Found(ent.name);
          }
      }
      assert dir.listing[i..][1..] == dir.listing[i + 1..];
      i := i + 1;
    }
    if dir.readError {
      return ReadFailed;
    }
    return Exhausted;
  }

  /** get_cwd: climb from `start` until the matching entry is "." or "..",
      putting each name found at the front of the list. */
  method GetCwd(fs: FileSystem, start: Ident, ghost rank: map<Ident, nat>) returns (r: Outcome)
    requires WellFormed(fs, rank)
    ensures r == Walk(fs, rank, start)
  {
    var list: seq<string> := [];
    var cur := start;
    var foundAll := false;
    while !foundAll
      invariant !foundAll ==> Walk(fs, rank, start) == Extend(Walk(fs, rank, cur), list)
      invariant foundAll ==> Walk(fs, rank, start) == Resolved(list)
      decreases if foundAll then 0 else 1, if cur in rank then rank[cur] else 0
    {
      if !ParentOpens(fs, cur) {
        assert Walk(fs, rank, cur) == PrimitiveFailure(OpenAt);
        return PrimitiveFailure(OpenAt);
      }
      var parent := fs[cur].parent;
      var s := ScanDirectory(fs[parent], cur);
      match s {
        case StatFailed =>
          assert Walk(fs, rank, cur) == PrimitiveFailure(FStatAt);
          return PrimitiveFailure(FStatAt);
        case ReadFailed =>
          assert Walk(fs, rank, cur) == PrimitiveFailure(ReadDir);
          return PrimitiveFailure(ReadDir);
        case Exhausted =>
          assert Walk(fs, rank, cur) == ComponentRemoved;
          return ComponentRemoved;
        case Found(name) =>
          list := [name] + list;
          if IsPseudo(name) {
            assert Walk(fs, rank, cur) == Resolved([]);
            foundAll := true;
            list := list[1..];
          } else {
            WalkAscends(fs, rank, cur);
            ExtendTwice(Walk(fs, rank, parent), [name], list[1..]);
            assert [name] + list[1..] == list;
            cur := parent;
          }
      }
    }
    return Resolved(list);
  }
}
