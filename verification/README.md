# get_cwd: recovering the current directory by climbing ".."

This project models the core of a small C++ tool that prints the absolute path of
its working directory without asking the kernel for it (no `getcwd`). The function
`get_cwd` starts at the current directory and, level by level:

1. opens `..` of the current directory;
2. takes the (st_dev, st_ino) identity of the directory being left;
3. reads the parent's entries with `readdir`, stat-ing each name without following
   symbolic links; an entry that has vanished (ENOENT) is skipped, any other stat
   failure or a `readdir` error is fatal;
4. takes the first entry that is a directory with that identity and puts its name
   at the front of the path list;
5. stops when that entry is `.` or `..` (which, on a tree whose `..` links form no
   loop, happens only at a root: the real one, or the one a chroot confines to,
   whose `..` is itself) and drops that pseudo-name
   again; if no entry matches, some component of the path was removed and the walk
   fails.

The `operator<<` for the path list prints `/` for an empty list and otherwise `/`
before each segment in order (`/a/b/c`).

The kernel is replaced by a snapshot of the directory tree (`Filesystem`): a map
from identity to a directory record holding the identity of its `..`, whether it
can be opened, the entries `readdir` yields in order (each with the outcome of
stat-ing it: `Ok(isDir, dev, ino)`, `Vanished` or `Failed`), and whether `readdir`
reports an error after them. The fatal exits become a tagged result: `Resolved`
with the segments, `PrimitiveFailure` naming the call (`openat`, `readdir`,
`fstatat`), or `ComponentRemoved`.

Files:

- `filesystem.dfy` (module `Filesystem`): the snapshot, identity matching, the
  conditions under which the walk terminates (`Ranked`, `NoSelfLinks`), and a
  reference lookup that follows names downwards (`Lookup`, `Child`, `Descend`).
- `cwd.dfy` (module `Cwd`): the scan of one listing as a function (`Scan`) and as
  the `readdir` loop (`ScanDirectory`), the walk as a specification (`Walk`) and
  as the imperative outer loop (`GetCwd`) that prepends to a list and pops the
  pseudo-name again.
- `path_list.dfy` (module `PathList`): the renderer as a function (`Render`) and as
  the printing loop (`WritePath`), and its inverse `ParsePath`.
- `cwd_properties.dfy` (modules `CwdProperties`, `CwdExample`): what the walk
  guarantees, and the nested directories a/b/c worked through on a concrete tree.

Termination. The source has no depth counter: on a tree whose `..` links loop it
may climb forever (for example when the loop is closed through ordinary names; a
loop whose parent lists the directory as ".." stops there). The walk therefore
requires `WellFormed(fs, rank)`: a depth `rank` that strictly drops from a
directory to a parent other than itself (`Ranked`), and, for every root, that
scanning its own listing for itself in readdir order meets "." or ".." before any
ordinary name that names it (`NoSelfLinks`, via `FirstSelfIsPseudo`; a root is
the only directory whose own listing is scanned for itself). Under these two
conditions every step that records a name moves strictly closer to a root
(`Cwd.RootStops`). A root that lists itself after its dot entries, as a bind mount
of the root below itself does, is allowed (`CwdExample.RootBindMount`), and so is
a directory below the root that lists itself (`CwdExample.BindMountLoop`).
Both conditions range over the whole snapshot, though the walk only visits the
ancestors of the start; a snapshot may be cut down to those ancestors (and their
listings), and the walk from the start is the same.

## Model

| member | source | states |
|---|---|---|
| `Cwd.Scan` | main.cpp:58-81 | a found name belongs to a listed entry that is a directory with the target's device and inode; a stat failure means some entry's stat failed; a readdir failure means readdir reported an error |
| `Cwd.ScanDirectory` | main.cpp:58-81 | the readdir loop (skip on ENOENT, stop on any other stat error, stop at the first match, check errno at the end of the stream) returns exactly the outcome `Scan` defines |
| `Cwd.Walk` | main.cpp:47-99 | a resolved walk never contains the pseudo-names "." or ".." (the matched pseudo-entry is popped, never kept) |
| `Cwd.WalkAscends` | main.cpp:71-95 | unfolds one step of `Walk`, and proves that a step which records an ordinary name makes progress: the parent moved to is a different directory, so the climb cannot stall on a root |
| `Cwd.GetCwd` | main.cpp:29-101 | the outer loop, prepending each found name, popping the pseudo-name and returning on the first failure, produces exactly the outcome `Walk` specifies |
| `PathList.WritePath` | main.cpp:17-27 | the printing loop writes exactly `Render(list)`: "/" for the empty list, else "/" before each element |
| `PathList.SlashedSnoc` | main.cpp:23-24 | printing one more element appends "/" and that element after what was already printed |
| `PathList.RenderRoundTrip` | main.cpp:20-24 | with proper names (non-empty, no '/'), the segments are read back from the printed path unchanged and in order |
| `PathList.RenderRoot` | main.cpp:20-21 | with proper names, the output is "/" exactly when the list is empty |
| `PathList.RenderEnds` | main.cpp:20-24 | every output starts with '/', and a non-empty list never ends with a trailing '/' |
| `PathList.RenderThreeLevels` | main.cpp:22-24 | the list a, b, c is printed as "/a/b/c" |
| `CwdProperties.ScanTakesFirstMatch` | main.cpp:66-79 | when the first entry that is not passed over is a directory with the target identity, its name is the one taken, whatever follows |
| `CwdProperties.ScanStopsOnStatFailure` | main.cpp:66-69 | a stat failure other than ENOENT before any match ends the scan as an fstatat failure |
| `CwdProperties.ScanRunsOut` | main.cpp:59-64 | when every entry is passed over, the scan ends as a readdir failure if readdir reports one and otherwise without a match |
| `CwdProperties.ScanExhausted` | main.cpp:58-65 | the scan ends without a match if and only if readdir ends cleanly and every entry vanished or is something other than the target |
| `CwdProperties.ScanIgnoresVanished` | main.cpp:66-68 | inserting an entry that vanished anywhere in a listing does not change the outcome of the scan |
| `CwdProperties.WalkClimbs` | main.cpp:86-95 | a walk resolved with n segments climbs through exactly n ancestors, none of them a root, each listed under an ordinary name, and stops at the n-th one, whose parent lists it as "." or ".."; segment n-1-i is the name under which level i is listed by its parent, so the segments run root-first down to the start |
| `CwdProperties.WalkEndsAtRoot` | main.cpp:87-91 | when "." and ".." name what they claim, the directory where a resolved walk stops is its own parent: the path starts at the (confined) root and never goes above it |
| `CwdProperties.WalkAtRoot` | main.cpp:87-91 | starting at a root whose listing names it, the walk yields no segments and the path "/" |
| `CwdProperties.WalkRetraces` | main.cpp:71-95 | with unique names per directory, following the returned segments downwards by name from the directory where the walk stopped leads back to the starting directory |
| `CwdProperties.AscentFailures` | main.cpp:48-85 | a parent that opens, reads to the end without error and passes over every entry (vanished or not the directory) gives "component removed"; its other clauses unfold `Walk`'s branches for an unopenable parent (openat) and a failed stat or readdir |
| `CwdProperties.WalkFailsAbove` | main.cpp:47-99 | a failure at any level above levels that climbed is the failure of the whole walk: no partial path is returned |
| `CwdProperties.WalkResolvesIntact` | main.cpp:47-99 | when every parent opens, reads cleanly, stats every entry and lists its child, the walk from any directory resolves |
| `CwdProperties.WalkPrintsSegments` | main.cpp:75-91 | when all listed names are proper file names, the segments are proper names and the printed path reads back as exactly those segments |
| `CwdExample.CPath` | main.cpp:29-101 | on that tree, the walk from a/b/c yields the segments a, b, c, passing over an entry that vanished |
| `CwdExample.BindMountLoop` | main.cpp:47-99 | a directory below the root that lists itself under an ordinary name ("loop") is still resolved: the walk from it yields its one segment, as the source prints `/a` |
| `Cwd.RootStops` | main.cpp:71-91 | when a parent's listing names the directory under an ordinary name, the parent is another directory: a root scanned for itself is always found as "." or ".." |
| `CwdExample.RootBindMount` | main.cpp:47-99 | a root that lists itself as "x" after "." and ".." is still found as "." and the walk stops: "/" from the root, a from a |
| `CwdExample.ThreeLevels` | main.cpp:17-27 | on that tree, the walk from a/b/c prints "/a/b/c" and the walk from the root prints "/" |

## Left out

- Option parsing, `chdir` and `chroot` in `main` (main.cpp:103-125): the start directory is a parameter, and the root is whichever directory is its own parent in the snapshot.
- Printing to standard output and the trailing newline (main.cpp:127): only the rendered text is modelled.
- `exit_err` and `exit_errx` in utils.hpp: the diagnostics, the `strerror` text and the exit status are not modelled; each fatal exit becomes an `Outcome` variant. `exit_err_strerror` is not part of this model.
- Failures of `fdopendir`, of `fstatat(cfd, ".")`, of `closedir` and `close` (main.cpp:51-55, 82-83, 97-98), and of the second `openat` of `..` (main.cpp:93-95): in a snapshot that second open reaches the directory the first one already opened. File descriptors, `AT_FDCWD` and closing are not modelled; the cursor is the identity of the directory being left.
- Allocation failures of `new` and `push_front` (main.cpp:41-45, 74-78).
- Concurrent changes to the tree as interleaving: a change shows up only as an entry that is `Vanished`, or as a parent that no longer lists the directory.
- A `readdir` failure in the middle of a directory is modelled as a listing that ends early with `readError` set.
- The pseudo-name test (main.cpp:87-88) compares characters of a NUL-terminated name; the model compares the name with "." and "..", which is the same for names without NUL. The source reads `ent->d_name` there after `closedir` (main.cpp:82) has released the stream the entry belongs to; the model uses the name the scan found.
- A directory mounted at two places, whose `..` depends on the path taken to it: the snapshot gives each directory identity exactly one `..`. From inside a bind mount of a directory below itself (working directory /a/loop after `mount --bind /a /a/loop`) the source opens `..`, reaches /a, matches its "." entry and prints "/"; `CwdExample.BindMountLoop` stands for the working directory /a only.
- Termination on trees whose `..` links loop, or whose root lists itself under an ordinary name that `readdir` yields before both "." and "..": the source may not stop there; the model requires `WellFormed` and says nothing about such trees. Loops of `..` links that the source would leave through a ".." entry are excluded as well, since `Ranked` asks for a depth that drops at every step.
- Running the walk twice on the same snapshot gives the same result because `Walk` is a function; no separate statement is made.
