/** A snapshot of the directory tree as the walk in get_cwd observes it through
    openat, fdopendir, readdir and fstatat. Nothing here changes during a walk:
    concurrent removal shows up only as an entry that vanished or an entry that
    is missing from its parent's listing. */
module Filesystem {

  /** The (st_dev, st_ino) pair that identifies a directory. */
  datatype Ident = Ident(dev: int, ino: int)

  /** What fstatat(parent, name, AT_SYMLINK_NOFOLLOW) reports for one listed entry. */
  datatype Stat =
    | Ok(isDir: bool, dev: int, ino: int)  // the call succeeded; isDir is S_ISDIR(st_mode)
    | Vanished                             // the call failed with ENOENT
    | Failed                               // the call failed with any other error

  /** One entry as readdir yields it, with the outcome of stat-ing its name. */
  datatype Entry = Entry(name: string, stat: Stat)

  /** One directory: the identity its ".." leads to, whether it can be opened for
      reading, the entries readdir yields in order, and whether readdir reports an
      error (instead of the end of the stream) once those entries are used up. */
  datatype Dir = Dir(parent: Ident, readable: bool, listing: seq<Entry>, readError: bool)

  type FileSystem = map<Ident, Dir>

  /** The self and parent pseudo-entries. */
  predicate IsPseudo(name: string) {
    name == "." || name == ".."
  }

  /** An entry names the directory `target`: it is a directory (symbolic links are
      not followed) and its device and inode are those of `target`. */
  predicate Matches(e: Entry, target: Ident) {
    e.stat.Ok? && e.stat.isDir && e.stat.dev == target.dev && e.stat.ino == target.ino
  }

  /** An entry the scan passes over: it vanished before it could be stat-ed, or it
      was stat-ed and is not `target`. */
  predicate Skippable(e: Entry, target: Ident) {
    e.stat.Vanished? || (e.stat.Ok? && !Matches(e, target))
  }

  /** openat(cur, "..", O_RDONLY) succeeds. */
  predicate ParentOpens(fs: FileSystem, cur: Ident) {
    cur in fs && fs[cur].parent in fs && fs[fs[cur].parent].readable
  }

  /** A directory that is its own parent: the root, or the root a chroot confines to. */
  predicate IsRoot(fs: FileSystem, d: Ident) {
    d in fs && fs[d].parent == d
  }

  /** `rank` is a depth measure: every directory has one, and going up to a parent
      that is not the directory itself lowers it. This rules out cycles in the
      parent relation other than a root's ".." leading back to the root. */
  ghost predicate Ranked(fs: FileSystem, rank: map<Ident, nat>) {
    (forall d :: d in fs ==> d in rank) &&
    (forall d :: d in fs && fs[d].parent in fs && fs[d].parent != d ==> rank[fs[d].parent] < rank[d])
  }

  /** Scanning `listing` for `d` in readdir order, the first entry that names `d`,
      unless a failed stat ends the scan before it, is "." or "..". */
  predicate FirstSelfIsPseudo(listing: seq<Entry>, d: Ident)
    decreases |listing|
  {
    if listing == [] || listing[0].stat.Failed? then true
    else if Matches(listing[0], d) then IsPseudo(listing[0].name)
    else FirstSelfIsPseudo(listing[1..], d)
  }

  /** No root is found under an ordinary name when its own listing is scanned for
      it: a root may list itself as "x" (a bind mount of the root below itself),
      but only after "." or "..". Only a root's own listing is scanned for the
      root itself, so in this snapshot, where every directory has one "..", a link
      of any other directory into itself does not disturb the walk. */
  ghost predicate NoSelfLinks(fs: FileSystem) {
    forall d :: IsRoot(fs, d) ==> FirstSelfIsPseudo(fs[d].listing, d)
  }

  /** The two conditions under which the walk is guaranteed to end. */
  ghost predicate WellFormed(fs: FileSystem, rank: map<Ident, nat>) {
    Ranked(fs, rank) && NoSelfLinks(fs)
  }

  /** "." names the directory itself and ".." names its parent. */
  ghost predicate DotsHonest(fs: FileSystem) {
    forall d, e :: d in fs && e in fs[d].listing && e.stat.Ok? ==>
      (e.name == "." ==> Ident(e.stat.dev, e.stat.ino) == d) &&
      (e.name == ".." ==> Ident(e.stat.dev, e.stat.ino) == fs[d].parent)
  }

  /** No two entries of one listing share a name. */
  ghost predicate UniqueNames(fs: FileSystem) {
    forall d, i, j :: d in fs && 0 <= i < j < |fs[d].listing| ==>
      fs[d].listing[i].name != fs[d].listing[j].name
  }

  /** The directory `n` levels above `cur`, following ".." links. */
  function Up(fs: FileSystem, cur: Ident, n: nat): Ident
    decreases n
  {
    if n == 0 || cur !in fs then cur else Up(fs, fs[cur].parent, n - 1)
  }

  /** The stat outcome of the first entry called `name`, if any. */
  function Lookup(listing: seq<Entry>, name: string): (r: Option<Stat>)
    ensures r.Some? ==> exists e :: e in listing && e.name == name && e.stat == r.value
    ensures r.None? ==> forall e :: e in listing ==> e.name != name
  {
    if listing == [] then None
    else if listing[0].name == name then Some(listing[0].stat)
    else Lookup(listing[1..], name)
  }

  datatype Option<T> = None | Some(value: T)

  /** The subdirectory called `name` of `dir`, as a path lookup would find it. */
  function Child(fs: FileSystem, dir: Ident, name: string): Option<Ident> {
    if dir !in fs then None
    else match Lookup(fs[dir].listing, name)
      case Some(Ok(true, dev, ino)) => Some(Ident(dev, ino))
      case _ => None
  }

  /** Follow `path` downwards from `from`, one name at a time. */
  function Descend(fs: FileSystem, from: Ident, path: seq<string>): Option<Ident>
    decreases |path|
  {
    if path == [] then Some(from)
    else match Child(fs, from, path[0])
      case Some(c) => Descend(fs, c, path[1..])
      case None => None
  }
}
