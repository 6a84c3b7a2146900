/**
 The directories that a file transfer makes: those above the destination, of which the innermost gets the
 mode that is sent along.
 */
module CopyFileDirs {
  import opened Wrappers
  import opened CopyFile

  /** Directories below the root; the mode is None while it is the one the directory was created with. */
  type Dirs = map<Path, Option<int>>

  function Parent(path: Path): Path
    requires path != []
  {
    path[..|path| - 1]
  }

  /** The first `n` directories on the way down to `dir`. */
  function Levels(dir: Path, n: nat): (r: set<Path>)
    requires n <= |dir|
    ensures forall p :: p in r <==> 0 < |p| <= n && p <= dir
  {
    if n == 0 then {}
    else
      assert forall p :: |p| == n && p <= dir <==> p == dir[..n];
      Levels(dir, n - 1) + {dir[..n]}
  }

  /** The directories once the first `n` on the way down to `dir` are there. */
  function Made(dirs: Dirs, dir: Path, n: nat): Dirs
    requires n <= |dir|
  {
    map p | p in dirs.Keys + Levels(dir, n) :: if p in dirs then dirs[p] else None
  }

  lemma MadeMore(dirs: Dirs, dir: Path, n: nat)
    requires n < |dir|
    ensures Made(dirs, dir, n + 1) ==
            if dir[..n + 1] in Made(dirs, dir, n) then Made(dirs, dir, n) else Made(dirs, dir, n)[dir[..n + 1] := None]
  {
    assert forall p :: p in Levels(dir, n + 1) <==> p in Levels(dir, n) || p == dir[..n + 1];
  }

  /** The directories once `dir` is there with its mode. */
  function Prepared(dirs: Dirs, dir: Path, mode: int): Dirs {
    Made(dirs, dir, |dir|)[dir := Some(mode)]
  }

  /** Preparing a directory again changes nothing. */
  lemma PreparedTwice(dirs: Dirs, dir: Path, mode: int)
    ensures Prepared(Prepared(dirs, dir, mode), dir, mode) == Prepared(dirs, dir, mode)
  {
  }

  /** What a request makes of the directories, as far as its fault lets it. */
  function DirsAfter(dirs: Dirs, path: Path, a: Attributes, fault: Fault): Dirs {
    if fault.NotDelivered? || !Accepts(path) then dirs
    else if fault.NoDirectory? then
      Made(dirs, Parent(path), if fault.made < |Parent(path)| then fault.made else |Parent(path)|)
    else Prepared(dirs, Parent(path), a.dirMode)
  }

  /** The directories once the first `k` parts of a file are handled. */
  function DirsBefore(dirs: Dirs, path: Path, a: Attributes, k: nat): Dirs {
    if k == 0 || !Accepts(path) then dirs else Prepared(dirs, Parent(path), a.dirMode)
  }

  lemma DirsNext(dirs: Dirs, path: Path, a: Attributes, k: nat, fault: Fault)
    requires Accepts(path) && !fault.NotDelivered? && !fault.NoDirectory?
    ensures DirsAfter(DirsBefore(dirs, path, a, k), path, a, fault) == DirsBefore(dirs, path, a, k + 1)
  {
    PreparedTwice(dirs, Parent(path), a.dirMode);
  }

  /** Whatever fails, a request removes no directory and changes the mode of none but the parent of the
      destination; once its data can be written, all directories above the destination are there. */
  lemma DirsKept(dirs: Dirs, path: Path, a: Attributes, fault: Fault)
    requires Accepts(path)
    ensures var now := DirsAfter(dirs, path, a, fault);
            && (forall p :: p in dirs ==> p in now && (p != Parent(path) ==> now[p] == dirs[p]))
            && (forall p :: p in now && p !in dirs ==> p != [] && p <= Parent(path))
            && (!fault.NotDelivered? && !fault.NoDirectory? ==>
                  (forall p :: p != [] && p <= Parent(path) ==> p in now) && now[Parent(path)] == Some(a.dirMode))
  {
  }
}
