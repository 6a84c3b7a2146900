/**
 The watchable-mount mirror on values: the source tree as a scan sees it, the record of
 watched paths, the copied target, and the effect of one scan on the record and the target.
 */
module WatcherModel {

  /** Paths are relative to the mount point, one component per element. */
  type Path = seq<string>

  /** One file system object of the source. `modified` is its modification time. A link also says
      whether following it finds anything, and which paths exist below what it finds. */
  datatype Node =
    | File(size: nat, modified: int, content: string)
    | Link(size: nat, modified: int, to: string, resolves: bool, below: set<Path>)
    | Dir(modified: int, entries: seq<Entry>)

  datatype Entry = Entry(name: string, node: Node)

  /** What the target holds at a path. */
  datatype Copy = FileCopy(content: string) | LinkCopy(to: string) | DirCopy

  /** One stop of the recursive scan. */
  datatype Visit = Visit(path: Path, node: Node)

  datatype ScanError = TooManyFiles | TooLarge

  const MAX_ENTRIES := 16
  const MAX_SIZE := 1024 * 1024

  type Record = map<Path, int>
  type Target = map<Path, Copy>
  type Listing = map<Path, Node>

  datatype State = State(record: Record, target: Target)

  predicate Dangling(n: Node) {
    n.Link? && !n.resolves
  }

  function Image(n: Node): Copy {
    match n
    case File(_, _, content) => FileCopy(content)
    case Link(_, _, to, _, _) => LinkCopy(to)
    case Dir(_, _) => DirCopy
  }

  /** Names in a directory are distinct. */
  ghost predicate WellFormed(n: Node) {
    match n
    case Dir(_, entries) =>
      && (forall i, j :: 0 <= i < j < |entries| ==> entries[i].name != entries[j].name)
      && (forall i :: 0 <= i < |entries| ==> WellFormed(entries[i].node))
    case _ => true
  }

  // ---------------------------------------------------------------- the walk

  /** The visits of a scan, in order: an object, then what is below it. */
  function Walk(path: Path, n: Node): seq<Visit>
    decreases n, 0
  {
    match n
    case Dir(_, entries) => [Visit(path, n)] + WalkEntries(path, entries)
    case _ => [Visit(path, n)]
  }

  function WalkEntries(path: Path, entries: seq<Entry>): seq<Visit>
    decreases entries, 0
  {
    if entries == [] then []
    else
      var last := entries[|entries| - 1];
      WalkEntries(path, entries[..|entries| - 1]) + Walk(path + [last.name], last.node)
  }

  /** Every entry of the tree by its path. */
  function ListingOf(vs: seq<Visit>): Listing {
    if vs == [] then map[]
    else ListingOf(vs[..|vs| - 1])[vs[|vs| - 1].path := vs[|vs| - 1].node]
  }

  // ---------------------------------------------------------------- recording

  function Recorded(record: Record, vs: seq<Visit>): Record {
    if vs == [] then record
    else Recorded(record, vs[..|vs| - 1])[vs[|vs| - 1].path := vs[|vs| - 1].node.modified]
  }

  /** A directory is copied when it is new; anything else also when it is newer than recorded. */
  predicate NeedsUpdate(record: Record, v: Visit) {
    v.path !in record || (!v.node.Dir? && v.node.modified > record[v.path])
  }

  function Changed(record: Record, vs: seq<Visit>): seq<Visit> {
    if vs == [] then []
    else
      var rest := vs[..|vs| - 1];
      var last := vs[|vs| - 1];
      Changed(record, rest) + (if NeedsUpdate(Recorded(record, rest), last) then [last] else [])
  }

  function TotalSize(vs: seq<Visit>): nat {
    if vs == [] then 0
    else
      var last := vs[|vs| - 1].node;
      TotalSize(vs[..|vs| - 1]) + (if last.Dir? then 0 else last.size)
  }

  /** The record is checked against the limit at files and links only. */
  predicate FitsCount(record: Record, vs: seq<Visit>) {
    vs == [] ||
    (FitsCount(record, vs[..|vs| - 1]) && (vs[|vs| - 1].node.Dir? || |Recorded(record, vs)| <= MAX_ENTRIES))
  }

  predicate Fits(record: Record, vs: seq<Visit>) {
    FitsCount(record, vs) && TotalSize(vs) <= MAX_SIZE
  }

  // ---------------------------------------------------------------- pruning

  /** Following the link `n`, the path `rest` leads to something. */
  predicate Reaches(n: Node, rest: Path) {
    n.Link? && n.resolves && (rest == [] || exists q :: q in n.below && rest <= q)
  }

  /** `Path::exists`, which follows links. */
  predicate Exists(l: Listing, p: Path) {
    || (p in l && !l[p].Link?)
    || exists k :: 0 <= k <= |p| && p[..k] in l && Reaches(l[p[..k]], p[k..])
  }

  function PrunedRecord(record: Record, l: Listing): Record {
    map p | p in record && Exists(l, p) :: record[p]
  }

  function Gone(record: Record, l: Listing): set<Path> {
    set p | p in record && !Exists(l, p)
  }

  /** Removing `q` from the target also removes `p`. */
  predicate Covers(t: Target, q: Path, p: Path) {
    q == p || (q in t && t[q] == DirCopy && q <= p)
  }

  function PrunedTarget(t: Target, gone: set<Path>): Target {
    map p | p in t && !(exists q :: q in gone && Covers(t, q, p)) :: t[p]
  }

  // ---------------------------------------------------------------- copying

  /** `create_dir_all`: fails on a prefix that is not a directory. */
  predicate CanMkdir(t: Target, p: Path) {
    forall k :: 0 <= k <= |p| && p[..k] in t ==> t[p[..k]] == DirCopy
  }

  function Mkdirs(t: Target, p: Path): Target {
    t + map k | 0 <= k <= |p| && p[..k] !in t :: p[..k] := DirCopy
  }

  /** `copy`: a link replaces anything but a directory, a file overwrites only a file. */
  predicate CanCopy(t: Target, v: Visit) {
    v.path in t ==> t[v.path].FileCopy? || (t[v.path].LinkCopy? && v.node.Link?)
  }

  function Parent(p: Path): Path {
    if p == [] then [] else p[..|p| - 1]
  }

  /** The copy of one entry succeeds. */
  predicate CanUpdate(t: Target, v: Visit) {
    if v.node.Dir? then CanMkdir(t, v.path)
    else CanMkdir(t, Parent(v.path)) && CanCopy(Mkdirs(t, Parent(v.path)), v)
  }

  function UpdatedTarget(t: Target, v: Visit): Target {
    if v.node.Dir? then
      if CanMkdir(t, v.path) then Mkdirs(t, v.path) else t
    else
      var parent := Parent(v.path);
      if !CanMkdir(t, parent) then t
      else if !CanCopy(Mkdirs(t, parent), v) then Mkdirs(t, parent)
      else Mkdirs(t, parent)[v.path := Image(v.node)]
  }

  function UpdatedAll(t: Target, vs: seq<Visit>): Target {
    if vs == [] then t
    else UpdatedTarget(UpdatedAll(t, vs[..|vs| - 1]), vs[|vs| - 1])
  }

  // ---------------------------------------------------------------- one scan

  /** The state after a scan that finds `vs` and stays within the limits. */
  function Scanned(s: State, vs: seq<Visit>): State {
    var l := ListingOf(vs);
    var pruned := PrunedRecord(s.record, l);
    State(Recorded(pruned, vs),
          UpdatedAll(PrunedTarget(s.target, Gone(s.record, l)), Changed(pruned, vs)))
  }

  /** The state after a scan that breaks a limit once `k` visits are recorded: nothing is copied. */
  function Failed(s: State, vs: seq<Visit>, k: nat): State
    requires k <= |vs|
  {
    var l := ListingOf(vs);
    State(Recorded(PrunedRecord(s.record, l), vs[..k]), PrunedTarget(s.target, Gone(s.record, l)))
  }

  /** A scan may fail so: a limit is broken, and if it is the entry limit, visit `k` is the first to. */
  predicate FailsAfter(s: State, vs: seq<Visit>, k: nat, error: ScanError)
    requires 0 < k <= |vs|
  {
    var pruned := PrunedRecord(s.record, ListingOf(vs));
    match error
    case TooManyFiles => FitsCount(pruned, vs[..k - 1]) && !FitsCount(pruned, vs[..k])
    case TooLarge => TotalSize(vs) > MAX_SIZE
  }

  /** How many entries that scan reports as updated. */
  function UpdateCount(s: State, vs: seq<Visit>): nat {
    |Changed(PrunedRecord(s.record, ListingOf(vs)), vs)|
  }

  predicate ScanSucceeds(s: State, vs: seq<Visit>) {
    Fits(PrunedRecord(s.record, ListingOf(vs)), vs)
  }
}
