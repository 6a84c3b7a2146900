/**
 A file sent from the host to the guest in parts. The guest writes each part into a temporary file
 beside the destination and renames it once it has the announced size.
 */
module CopyFile {
  import opened Wrappers

  type Byte = bv8

  /** An absolute path by its components. */
  type Path = seq<string>

  /** Mode and owner of a file, and the mode of the directory it is put in. */
  datatype Attributes = Attributes(mode: int, uid: int, gid: int, dirMode: int)

  /** A regular file; mode and owner are None while they are those it was created with. */
  datatype File = File(content: seq<Byte>, mode: Option<int>, owner: Option<(int, int)>)

  type Files = map<Path, File>

  datatype Request = Request(path: Path, fileSize: int, attributes: Attributes, offset: int, data: seq<Byte>)

  /** Where the handling of a request breaks off: on its way, at one of the agent's file operations, or
      when the reply is lost. Directories may be `made` down to some depth only or not get their mode, a write
      may stop after `n` bytes. */
  datatype Fault =
    | NoFault
    | NotDelivered
    | NoDirectory(made: nat)
    | NotOpened
    | WriteStops(n: nat)
    | NoStat
    | NoMode
    | NoOwner
    | NoRename
    | ReplyLost

  /** What a request leads to: whether it succeeded, whether it renamed the temporary file into
      place, and the files afterwards. */
  datatype Outcome = Outcome(ok: bool, moved: bool, files: Files)

  const CONTAINER_BASE: Path := ["run", "kata-containers"]

  // ---------------------------------------------------------------- the temporary file

  /** The position of the last dot, or -1. */
  function LastDot(name: string): (i: int)
    ensures -1 <= i < |name|
    ensures i >= 0 ==> name[i] == '.'
    ensures forall j :: 0 <= j < |name| && i < j ==> name[j] != '.'
  {
    if name == "" then -1
    else if name[|name| - 1] == '.' then |name| - 1
    else LastDot(name[..|name| - 1])
  }

  /** The name with its extension, if any, replaced by `tmp`; a leading dot starts no extension. */
  function TmpName(name: string): string {
    var dot := LastDot(name);
    (if dot > 0 then name[..dot] else name) + ".tmp"
  }

  function TmpPath(path: Path): Path
    requires path != []
  {
    path[..|path| - 1] + [TmpName(path[|path| - 1])]
  }

  /** The temporary file is the destination itself exactly when the destination's extension is `tmp`. */
  lemma TmpCollides(name: string)
    ensures TmpName(name) == name <==> |name| > 4 && name[|name| - 4..] == ".tmp"
  {
    var dot := LastDot(name);
    if |name| > 4 && name[|name| - 4..] == ".tmp" {
      forall j | |name| - 4 < j < |name| ensures name[j] != '.' {
        assert name[j] == name[|name| - 4..][j - (|name| - 4)];
      }
      assert name[|name| - 4] == name[|name| - 4..][0];
      assert dot == |name| - 4;
      assert name == name[..dot] + name[dot..];
    }
    if TmpName(name) == name {
      assert TmpName(name)[|TmpName(name)| - 4..] == ".tmp";
    }
  }

  // ---------------------------------------------------------------- one request

  function Zeros(n: nat): (z: seq<Byte>)
    ensures |z| == n && forall i :: 0 <= i < n ==> z[i] == 0
  {
    seq(n, _ => 0)
  }

  /** Writing at an offset keeps what lies around and fills a gap with zeros; writing nothing does
      not make the file longer. */
  function WriteAt(content: seq<Byte>, data: seq<Byte>, offset: nat): seq<Byte> {
    if data == [] then content
    else if |content| <= offset then content + Zeros(offset - |content|) + data
    else if |content| <= offset + |data| then content[..offset] + data
    else content[..offset] + data + content[offset + |data|..]
  }

  /** The agent writes only below its base directory. */
  predicate Accepts(path: Path) {
    CONTAINER_BASE <= path && path[|path| - 1] != ".."
  }

  /** The temporary file as a request finds or creates it. */
  function Leftover(files: Files, path: Path): File
    requires path != []
  {
    if TmpPath(path) in files then files[TmpPath(path)] else File([], None, None)
  }

  /** The temporary file once the first `n` bytes are written. */
  function Written(files: Files, req: Request, n: nat): File
    requires Accepts(req.path) && n <= |req.data|
  {
    var file := Leftover(files, req.path);
    if n == 0 || req.offset < 0 then file
    else file.(content := WriteAt(file.content, req.data[..n], req.offset))
  }

  /** A file with the attributes of its original. */
  function Whole(content: seq<Byte>, a: Attributes): File {
    File(content, Some(a.mode), Some((a.uid, a.gid)))
  }

  /** One request that meets no fault. */
  function Copied(files: Files, req: Request): Outcome {
    if !Accepts(req.path) then Outcome(false, false, files)
    else
      var tmp := TmpPath(req.path);
      var written := Written(files, req, |req.data|);
      if req.offset < 0 && req.data != [] then Outcome(false, false, files[tmp := written])
      else if |written.content| != req.fileSize then Outcome(true, false, files[tmp := written])
      else Outcome(true, true, (files - {tmp})[req.path := Whole(written.content, req.attributes)])
  }

  /** One request and the fault it meets, if it gets that far. */
  function CopiedWith(files: Files, req: Request, fault: Fault): Outcome {
    if fault.NotDelivered? || !Accepts(req.path) || fault.NoDirectory? || fault.NotOpened? then
      Outcome(false, false, files)
    else
      var tmp := TmpPath(req.path);
      var written := Written(files, req, |req.data|);
      if fault.WriteStops? && fault.n < |req.data| then
        Outcome(false, false, files[tmp := Written(files, req, fault.n)])
      else if fault.NoStat? then
        Outcome(false, false, files[tmp := written])
      else if (fault.NoMode? || fault.NoOwner? || fault.NoRename?) && Copied(files, req).moved then
        var mode := if fault.NoMode? then written.mode else Some(req.attributes.mode);
        var owner := if fault.NoRename? then Some((req.attributes.uid, req.attributes.gid)) else written.owner;
        Outcome(false, false, files[tmp := File(written.content, mode, owner)])
      else if fault.ReplyLost? then
        Copied(files, req).(ok := false)
      else
        Copied(files, req)
  }

  /** A fault either leaves everything but the temporary file alone and shows as a failure, or is a lost
      reply, or does not matter. */
  lemma FaultKeepsDestination(files: Files, req: Request, fault: Fault)
    ensures var r := CopiedWith(files, req, fault);
            && (r.ok ==> r == Copied(files, req))
            && (fault.ReplyLost? ==> r.files == Copied(files, req).files)
            && (!r.ok && !fault.ReplyLost? && req.path != [] ==>
                  !r.moved && r.files - {TmpPath(req.path)} == files - {TmpPath(req.path)})
  {
    if Accepts(req.path) {
      var r := CopiedWith(files, req, fault);
      if !r.ok && !fault.ReplyLost? {
        assert r.files - {TmpPath(req.path)} == files - {TmpPath(req.path)};
      }
    }
  }

  /** A request touches nothing but its destination and the temporary file, and nothing at all unless the
      destination lies below the base directory or is that directory. */
  lemma TouchesOnly(files: Files, req: Request, fault: Fault, p: Path)
    requires (p in files) != (p in CopiedWith(files, req, fault).files) ||
             (p in files && CopiedWith(files, req, fault).files[p] != files[p])
    ensures ["run", "kata-containers"] <= req.path && (p == req.path || p == TmpPath(req.path))
  {
  }

  // ---------------------------------------------------------------- a whole transfer

  function Joined(chunks: seq<seq<Byte>>): seq<Byte> {
    if chunks == [] then [] else Joined(chunks[..|chunks| - 1]) + chunks[|chunks| - 1]
  }

  /** Parts in order, none of them empty unless it is the only one. */
  predicate IsSplit(chunks: seq<seq<Byte>>) {
    chunks != [] && (|chunks| > 1 ==> forall i :: 0 <= i < |chunks| ==> chunks[i] != [])
  }

  /** The request that carries part `k`. */
  function Part(path: Path, attributes: Attributes, chunks: seq<seq<Byte>>, k: nat): Request
    requires k < |chunks|
  {
    Request(path, |Joined(chunks)|, attributes, |Joined(chunks[..k])|, chunks[k])
  }

  /** The files once the first `n` parts are handled. */
  function After(files: Files, path: Path, attributes: Attributes, chunks: seq<seq<Byte>>, n: nat): Files
    requires n <= |chunks|
  {
    if n == 0 then files
    else Copied(After(files, path, attributes, chunks, n - 1), Part(path, attributes, chunks, n - 1)).files
  }

  /** Part `k` renames the temporary file into place. */
  predicate Moves(files: Files, path: Path, attributes: Attributes, chunks: seq<seq<Byte>>, k: nat)
    requires k < |chunks|
  {
    Copied(After(files, path, attributes, chunks, k), Part(path, attributes, chunks, k)).moved
  }

  /** What the first parts make of the leftover content. */
  function Overlay(leftover: seq<Byte>, prefix: seq<Byte>): seq<Byte> {
    if |prefix| < |leftover| then prefix + leftover[|prefix|..] else prefix
  }

  lemma OverlayMore(leftover: seq<Byte>, prefix: seq<Byte>, data: seq<Byte>)
    ensures WriteAt(Overlay(leftover, prefix), data, |prefix|) == Overlay(leftover, prefix + data)
  {
  }

  lemma JoinedMore(chunks: seq<seq<Byte>>, k: nat)
    requires k < |chunks|
    ensures Joined(chunks[..k + 1]) == Joined(chunks[..k]) + chunks[k]
  {
    assert chunks[..k + 1][..k] == chunks[..k];
  }

  lemma {:induction false} JoinedCons(first: seq<Byte>, rest: seq<seq<Byte>>)
    ensures Joined([first] + rest) == first + Joined(rest)
  {
    var all := [first] + rest;
    if rest == [] {
      assert all[..0] == [];
    } else {
      JoinedCons(first, rest[..|rest| - 1]);
      assert all[..|all| - 1] == [first] + rest[..|rest| - 1];
    }
  }

  lemma {:induction false} JoinedShorter(chunks: seq<seq<Byte>>, k: nat)
    requires IsSplit(chunks) && 0 < k < |chunks|
    ensures |Joined(chunks[..k])| < |Joined(chunks)|
    decreases |chunks| - k
  {
    JoinedMore(chunks, k);
    if k + 1 < |chunks| {
      JoinedShorter(chunks, k + 1);
    } else {
      assert chunks[..k + 1] == chunks;
    }
  }

  /** A leftover temporary file does no harm if it is shorter than the file that is sent, or if it
      has the same size and one part overwrites it. */
  predicate Harmless(leftover: seq<Byte>, chunks: seq<seq<Byte>>) {
    |leftover| < |Joined(chunks)| || (|leftover| == |Joined(chunks)| && |chunks| == 1)
  }

  /** `now` differs from `files` only in the temporary file, which holds `content`. */
  predicate Holds(now: Files, files: Files, path: Path, content: seq<Byte>)
    requires path != []
  {
    Leftover(now, path) == Leftover(files, path).(content := content) && now - {TmpPath(path)} == files - {TmpPath(path)}
  }

  /** One write into the temporary file, and the rename if that gives it the announced size. */
  lemma OneWrite(now: Files, files: Files, path: Path, a: Attributes, size: int, offset: nat, data: seq<Byte>,
                 was: seq<Byte>, content: seq<Byte>)
    requires Accepts(path) && Holds(now, files, path, was) && WriteAt(was, data, offset) == content
    ensures var r := Copied(now, Request(path, size, a, offset, data));
            && (r.moved <==> |content| == size)
            && (!r.moved ==> Holds(r.files, files, path, content))
            && (r.moved ==> r.files == (files - {TmpPath(path)})[path := Whole(content, a)])
  {
    assert data[..|data|] == data;
    var r := Copied(now, Request(path, size, a, offset, data));
    if !r.moved {
      assert r.files - {TmpPath(path)} == now - {TmpPath(path)};
    }
  }

  /** One part, once the parts before it lie over the leftover. */
  lemma OnePart(now: Files, files: Files, path: Path, a: Attributes, size: int, prefix: seq<Byte>, data: seq<Byte>)
    requires Accepts(path) && Holds(now, files, path, Overlay(Leftover(files, path).content, prefix))
    ensures var r := Copied(now, Request(path, size, a, |prefix|, data));
            var content := Overlay(Leftover(files, path).content, prefix + data);
            && (r.moved <==> |content| == size)
            && (!r.moved ==> Holds(r.files, files, path, content))
            && (r.moved ==> r.files == (files - {TmpPath(path)})[path := Whole(content, a)])
  {
    var left := Leftover(files, path).content;
    OverlayMore(left, prefix, data);
    OneWrite(now, files, path, a, size, |prefix|, data, Overlay(left, prefix), Overlay(left, prefix + data));
  }

  /** A part that is not the last is not renamed if the leftover does not have the announced size. */
  lemma PendingPart(now: Files, files: Files, path: Path, a: Attributes, chunks: seq<seq<Byte>>, k: nat)
    requires Accepts(path) && IsSplit(chunks) && k + 1 < |chunks|
    requires |Leftover(files, path).content| != |Joined(chunks)|
    requires Holds(now, files, path, Overlay(Leftover(files, path).content, Joined(chunks[..k])))
    ensures var r := Copied(now, Part(path, a, chunks, k));
            !r.moved && Holds(r.files, files, path, Overlay(Leftover(files, path).content, Joined(chunks[..k + 1])))
  {
    JoinedMore(chunks, k);
    JoinedShorter(chunks, k + 1);
    OnePart(now, files, path, a, |Joined(chunks)|, Joined(chunks[..k]), chunks[k]);
  }

  /** As long as nothing is renamed, only the temporary file changes and holds the parts so far over
      the leftover. */
  lemma {:induction false} Pending(files: Files, path: Path, a: Attributes, chunks: seq<seq<Byte>>, n: nat)
    requires Accepts(path) && IsSplit(chunks) && n < |chunks|
    requires |Leftover(files, path).content| != |Joined(chunks)| || n == 0
    ensures Holds(After(files, path, a, chunks, n), files, path,
                  Overlay(Leftover(files, path).content, Joined(chunks[..n])))
    ensures n > 0 ==> !Moves(files, path, a, chunks, n - 1)
  {
    if n == 0 {
      assert Overlay(Leftover(files, path).content, []) == Leftover(files, path).content;
    } else {
      Pending(files, path, a, chunks, n - 1);
      PendingPart(After(files, path, a, chunks, n - 1), files, path, a, chunks, n - 1);
    }
  }

  /** What the last part does. */
  lemma LastPart(files: Files, path: Path, a: Attributes, chunks: seq<seq<Byte>>)
    requires Accepts(path) && IsSplit(chunks)
    requires |Leftover(files, path).content| != |Joined(chunks)| || |chunks| == 1
    ensures Moves(files, path, a, chunks, |chunks| - 1) <==> Harmless(Leftover(files, path).content, chunks)
    ensures Harmless(Leftover(files, path).content, chunks) ==>
              After(files, path, a, chunks, |chunks|) ==
              (files - {TmpPath(path)})[path := Whole(Joined(chunks), a)]
  {
    var k := |chunks| - 1;
    Pending(files, path, a, chunks, k);
    JoinedMore(chunks, k);
    assert chunks[..k + 1] == chunks;
    OnePart(After(files, path, a, chunks, k), files, path, a, |Joined(chunks)|, Joined(chunks[..k]), chunks[k]);
  }

  /** The file appears at its destination with the last part and not before, whole and with its
      attributes, and the temporary file is gone. */
  predicate Assembled(files: Files, path: Path, a: Attributes, chunks: seq<seq<Byte>>)
    requires Accepts(path)
  {
    && (forall k :: 0 <= k < |chunks| ==> (Moves(files, path, a, chunks, k) <==> k == |chunks| - 1))
    && After(files, path, a, chunks, |chunks|) == (files - {TmpPath(path)})[path := Whole(Joined(chunks), a)]
  }

  /** The files after the first part renamed a leftover of the announced size. */
  function EarlyMoved(files: Files, path: Path, a: Attributes, chunks: seq<seq<Byte>>): Files
    requires Accepts(path) && chunks != []
  {
    (files - {TmpPath(path)})[path := Whole(Overlay(Leftover(files, path).content, chunks[0]), a)]
  }

  /** A leftover of exactly the announced size is taken for the finished file at the first part. */
  lemma MovedEarly(files: Files, path: Path, a: Attributes, chunks: seq<seq<Byte>>)
    requires Accepts(path) && IsSplit(chunks) && |chunks| > 1
    requires |Leftover(files, path).content| == |Joined(chunks)|
    ensures Moves(files, path, a, chunks, 0)
    ensures After(files, path, a, chunks, 1) == EarlyMoved(files, path, a, chunks)
  {
    Pending(files, path, a, chunks, 0);
    JoinedMore(chunks, 0);
    JoinedShorter(chunks, 1);
    OnePart(files, files, path, a, |Joined(chunks)|, [], chunks[0]);
    assert [] + chunks[0] == chunks[0];
    assert After(files, path, a, chunks, 0) == files;
  }

  lemma HarmlessAssembles(files: Files, path: Path, a: Attributes, chunks: seq<seq<Byte>>)
    requires Accepts(path) && IsSplit(chunks) && Harmless(Leftover(files, path).content, chunks)
    ensures Assembled(files, path, a, chunks)
  {
    LastPart(files, path, a, chunks);
    forall k | 0 <= k < |chunks| - 1 ensures !Moves(files, path, a, chunks, k) {
      Pending(files, path, a, chunks, k + 1);
    }
  }

  lemma HarmfulSpoils(files: Files, path: Path, a: Attributes, chunks: seq<seq<Byte>>)
    requires Accepts(path) && IsSplit(chunks) && !Harmless(Leftover(files, path).content, chunks)
    ensures !Assembled(files, path, a, chunks)
  {
    if |Leftover(files, path).content| == |Joined(chunks)| {
      MovedEarly(files, path, a, chunks);
      assert Moves(files, path, a, chunks, 0);
    } else {
      LastPart(files, path, a, chunks);
      assert !Moves(files, path, a, chunks, |chunks| - 1);
    }
  }

  /** A file sent in parts, in order, is assembled exactly when the leftover of an earlier transfer is
      harmless. */
  lemma AssembledExactly(files: Files, path: Path, a: Attributes, chunks: seq<seq<Byte>>)
    requires Accepts(path) && IsSplit(chunks)
    ensures Assembled(files, path, a, chunks) <==> Harmless(Leftover(files, path).content, chunks)
  {
    if Harmless(Leftover(files, path).content, chunks) {
      HarmlessAssembles(files, path, a, chunks);
    } else {
      HarmfulSpoils(files, path, a, chunks);
    }
  }

  /** Before the last part, nothing but the temporary file changes. */
  lemma UntouchedBefore(files: Files, path: Path, a: Attributes, chunks: seq<seq<Byte>>, k: nat)
    requires Accepts(path) && IsSplit(chunks) && k < |chunks|
    requires Harmless(Leftover(files, path).content, chunks)
    ensures After(files, path, a, chunks, k) - {TmpPath(path)} == files - {TmpPath(path)}
  {
    Pending(files, path, a, chunks, k);
  }

  // ---------------------------------------------------------------- a leftover that does harm

  /** What the parts from the second on have written when the first was renamed on its own. */
  function Shifted(chunks: seq<seq<Byte>>, n: nat): seq<Byte>
    requires 0 < n <= |chunks|
  {
    if n == 1 then [] else Zeros(|chunks[0]|) + Joined(chunks[1..n])
  }

  lemma Append(x: seq<Byte>, data: seq<Byte>)
    requires data != []
    ensures WriteAt(x, data, |x|) == x + data
  {
    assert x + Zeros(0) == x;
  }

  lemma AfterGap(k: nat, data: seq<Byte>)
    requires data != []
    ensures WriteAt([], data, k) == Zeros(k) + data
  {
    assert [] + Zeros(k) == Zeros(k);
  }

  lemma JoinedTail(chunks: seq<seq<Byte>>, n: nat)
    requires 0 < n < |chunks|
    ensures Joined(chunks[1..n + 1]) == Joined(chunks[1..n]) + chunks[n]
    ensures |Joined(chunks[..n])| == |chunks[0]| + |Joined(chunks[1..n])|
  {
    JoinedCons(chunks[0], chunks[1..n]);
    assert chunks[..n] == [chunks[0]] + chunks[1..n];
    var rest := chunks[1..n + 1];
    assert rest[..|rest| - 1] == chunks[1..n];
  }

  lemma ShiftedMore(chunks: seq<seq<Byte>>, n: nat)
    requires 0 < n < |chunks| && chunks[n] != []
    ensures WriteAt(Shifted(chunks, n), chunks[n], |Joined(chunks[..n])|) == Shifted(chunks, n + 1)
    ensures |Shifted(chunks, n + 1)| == |Joined(chunks[..n + 1])|
  {
    JoinedTail(chunks, n);
    JoinedMore(chunks, n);
    var zeros, tail, data := Zeros(|chunks[0]|), Joined(chunks[1..n]), chunks[n];
    if n == 1 {
      assert chunks[1..1] == [];
      assert tail + data == data;
      AfterGap(|chunks[0]|, data);
    } else {
      Append(zeros + tail, data);
      assert zeros + tail + data == zeros + (tail + data);
    }
  }

  /** The parts from the second on have the size of the file only once all are written. */
  lemma ShiftedLength(chunks: seq<seq<Byte>>, n: nat)
    requires IsSplit(chunks) && 0 < n < |chunks|
    ensures |Joined(chunks[..n + 1])| == |Joined(chunks)| <==> n + 1 == |chunks|
  {
    if n + 1 < |chunks| {
      JoinedShorter(chunks, n + 1);
    } else {
      assert chunks[..n + 1] == chunks;
    }
  }

  /** One part after the early rename: it is written over zeros, and renamed if it is the last. */
  lemma ShiftedPart(now: Files, files: Files, path: Path, a: Attributes, chunks: seq<seq<Byte>>, n: nat)
    requires Accepts(path) && IsSplit(chunks) && 0 < n < |chunks|
    requires Holds(now, files, path, Shifted(chunks, n))
    ensures var r := Copied(now, Part(path, a, chunks, n));
            if n + 1 < |chunks| then Holds(r.files, files, path, Shifted(chunks, n + 1))
            else r.files == (files - {TmpPath(path)})[path := Whole(Shifted(chunks, |chunks|), a)]
  {
    ShiftedMore(chunks, n);
    ShiftedLength(chunks, n);
    OneWrite(now, files, path, a, |Joined(chunks)|, |Joined(chunks[..n])|, chunks[n], Shifted(chunks, n), Shifted(chunks, n + 1));
  }

  /** After the early rename there is no temporary file. */
  lemma EarlyIsClean(files: Files, path: Path, a: Attributes, chunks: seq<seq<Byte>>)
    requires Accepts(path) && TmpPath(path) != path && chunks != []
    ensures Leftover(EarlyMoved(files, path, a, chunks), path) == File([], None, None)
  {
    assert TmpPath(path) !in EarlyMoved(files, path, a, chunks);
  }

  lemma {:induction false} ShiftedPending(files: Files, path: Path, a: Attributes, chunks: seq<seq<Byte>>, n: nat)
    requires Accepts(path) && TmpPath(path) != path && IsSplit(chunks) && 0 < n < |chunks|
    requires |Leftover(files, path).content| == |Joined(chunks)|
    ensures Holds(After(files, path, a, chunks, n), EarlyMoved(files, path, a, chunks), path, Shifted(chunks, n))
  {
    if n == 1 {
      EarlyIsClean(files, path, a, chunks);
      MovedEarly(files, path, a, chunks);
    } else {
      ShiftedPending(files, path, a, chunks, n - 1);
      ShiftedPart(After(files, path, a, chunks, n - 1), EarlyMoved(files, path, a, chunks), path, a, chunks, n - 1);
    }
  }

  /** Renaming twice leaves what the second rename puts there. */
  lemma RenamedTwice(files: Files, tmp: Path, path: Path, first: File, second: File)
    requires tmp != path
    ensures ((files - {tmp})[path := first] - {tmp})[path := second] == (files - {tmp})[path := second]
  {
  }

  /** The last part renames what the parts from the second on have written. */
  lemma ShiftedArrives(files: Files, path: Path, a: Attributes, chunks: seq<seq<Byte>>)
    requires Accepts(path) && TmpPath(path) != path && IsSplit(chunks) && |chunks| > 1
    requires |Leftover(files, path).content| == |Joined(chunks)|
    ensures After(files, path, a, chunks, |chunks|) ==
            (EarlyMoved(files, path, a, chunks) - {TmpPath(path)})[path := Whole(Shifted(chunks, |chunks|), a)]
  {
    var k := |chunks| - 1;
    ShiftedPending(files, path, a, chunks, k);
    ShiftedPart(After(files, path, a, chunks, k), EarlyMoved(files, path, a, chunks), path, a, chunks, k);
  }

  /** A leftover of exactly the announced size spoils a transfer in several parts: the file that ends up
      at the destination has zeros in place of its first part. */
  lemma SpoiledExactly(files: Files, path: Path, a: Attributes, chunks: seq<seq<Byte>>)
    requires Accepts(path) && TmpPath(path) != path && IsSplit(chunks) && |chunks| > 1
    requires |Leftover(files, path).content| == |Joined(chunks)|
    ensures After(files, path, a, chunks, |chunks|) ==
            (files - {TmpPath(path)})[path := Whole(Zeros(|chunks[0]|) + Joined(chunks[1..]), a)]
    ensures Zeros(|chunks[0]|) + Joined(chunks[1..]) == Joined(chunks) <==> chunks[0] == Zeros(|chunks[0]|)
  {
    ShiftedArrives(files, path, a, chunks);
    assert chunks[1..|chunks|] == chunks[1..];
    RenamedTwice(files, TmpPath(path), path, Whole(Overlay(Leftover(files, path).content, chunks[0]), a),
                 Whole(Shifted(chunks, |chunks|), a));
    WholeOnlyIfZeros(chunks);
  }

  lemma WholeOnlyIfZeros(chunks: seq<seq<Byte>>)
    requires chunks != []
    ensures Zeros(|chunks[0]|) + Joined(chunks[1..]) == Joined(chunks) <==> chunks[0] == Zeros(|chunks[0]|)
  {
    JoinedCons(chunks[0], chunks[1..]);
    assert chunks == [chunks[0]] + chunks[1..];
    SameStart(Zeros(|chunks[0]|), chunks[0], Joined(chunks[1..]));
  }

  lemma SameStart(x: seq<Byte>, y: seq<Byte>, tail: seq<Byte>)
    requires |x| == |y|
    ensures x + tail == y + tail <==> x == y
  {
    assert (x + tail)[..|x|] == x && (y + tail)[..|y|] == y;
  }

  /** A longer leftover keeps the file from ever being renamed: the destination stays as it was. */
  lemma LongerLeftoverBlocks(files: Files, path: Path, a: Attributes, chunks: seq<seq<Byte>>)
    requires Accepts(path) && IsSplit(chunks) && |Leftover(files, path).content| > |Joined(chunks)|
    ensures Holds(After(files, path, a, chunks, |chunks|), files, path, Overlay(Leftover(files, path).content, Joined(chunks)))
    ensures TmpPath(path) in After(files, path, a, chunks, |chunks|)
  {
    var k := |chunks| - 1;
    Pending(files, path, a, chunks, k);
    JoinedMore(chunks, k);
    assert chunks[..k + 1] == chunks;
    OnePart(After(files, path, a, chunks, k), files, path, a, |Joined(chunks)|, Joined(chunks[..k]), chunks[k]);
  }

  /** What a transfer leaves at a destination with a temporary file of its own, whatever was left over. */
  lemma ArrivesExactly(files: Files, path: Path, a: Attributes, chunks: seq<seq<Byte>>)
    requires Accepts(path) && TmpPath(path) != path && IsSplit(chunks)
    ensures var left := |Leftover(files, path).content|;
            var after := After(files, path, a, chunks, |chunks|);
            var size := |Joined(chunks)|;
            && (Harmless(Leftover(files, path).content, chunks) ==>
                  path in after && after[path] == Whole(Joined(chunks), a))
            && (left == size && |chunks| > 1 ==>
                  path in after && after[path] == Whole(Zeros(|chunks[0]|) + Joined(chunks[1..]), a))
            && (left > size ==>
                  (path in after <==> path in files) && (path in files ==> after[path] == files[path]))
  {
    var left := |Leftover(files, path).content|;
    if left > |Joined(chunks)| {
      LongerLeftoverBlocks(files, path, a, chunks);
      SameElsewhere(After(files, path, a, chunks, |chunks|), files, TmpPath(path), path);
    } else if left == |Joined(chunks)| && |chunks| > 1 {
      SpoiledExactly(files, path, a, chunks);
    } else {
      AssembledExactly(files, path, a, chunks);
    }
  }

  lemma SameElsewhere(now: Files, files: Files, tmp: Path, path: Path)
    requires now - {tmp} == files - {tmp} && path != tmp
    ensures (path in now <==> path in files) && (path in files ==> now[path] == files[path])
  {
    assert path in now <==> path in now - {tmp};
    if path in files {
      assert (now - {tmp})[path] == (files - {tmp})[path];
    }
  }

  // ---------------------------------------------------------------- a destination that is its own temporary file

  /** With several parts, a destination whose extension is `tmp` changes before the last of them exactly
      unless the parts so far are a prefix of what it held. */
  lemma TmpDestinationExactly(files: Files, path: Path, a: Attributes, chunks: seq<seq<Byte>>, k: nat)
    requires Accepts(path) && TmpPath(path) == path && path in files && IsSplit(chunks) && k < |chunks|
    requires Harmless(files[path].content, chunks)
    ensures path in After(files, path, a, chunks, k)
    ensures After(files, path, a, chunks, k)[path] == files[path] <==> Joined(chunks[..k]) <= files[path].content
  {
    Pending(files, path, a, chunks, k);
    var left, prefix := files[path].content, Joined(chunks[..k]);
    if Overlay(left, prefix) == left && |prefix| < |left| {
      assert left[..|prefix|] == Overlay(left, prefix)[..|prefix|] == prefix;
    }
    if prefix <= left {
      assert left == prefix + left[|prefix|..];
    }
    TmpContent(files, path, a, chunks, k);
  }

  /** The parts so far lie over what the destination held, renamed or not. */
  lemma {:induction false} TmpContent(files: Files, path: Path, a: Attributes, chunks: seq<seq<Byte>>, n: nat)
    requires Accepts(path) && TmpPath(path) == path && n <= |chunks|
    ensures var now := After(files, path, a, chunks, n);
            Leftover(now, path).content == Overlay(Leftover(files, path).content, Joined(chunks[..n])) &&
            (path in files || n > 0 ==> path in now)
  {
    var left := Leftover(files, path).content;
    if n == 0 {
      assert Overlay(left, []) == left;
    } else {
      TmpContent(files, path, a, chunks, n - 1);
      JoinedMore(chunks, n - 1);
      OverlayMore(left, Joined(chunks[..n - 1]), chunks[n - 1]);
      assert chunks[n - 1][..|chunks[n - 1]|] == chunks[n - 1];
    }
  }

  /** In the end such a destination holds the file followed by what a longer old file had beyond it. So it
      holds the file exactly when the old one was not longer. */
  lemma TmpDestinationArrives(files: Files, path: Path, a: Attributes, chunks: seq<seq<Byte>>)
    requires Accepts(path) && TmpPath(path) == path && IsSplit(chunks)
    ensures var after := After(files, path, a, chunks, |chunks|);
            var left := Leftover(files, path).content;
            path in after && after[path].content == Overlay(left, Joined(chunks)) &&
            (after[path].content == Joined(chunks) <==> |left| <= |Joined(chunks)|)
  {
    TmpContent(files, path, a, chunks, |chunks|);
    assert chunks[..|chunks|] == chunks;
  }
}
