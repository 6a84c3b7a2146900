/**
 The two ends of a file transfer: the guest that handles one request at a time and the host that
 cuts the file into requests of bounded size.
 */
module CopyFileTransfer {
  import opened Wrappers
  import opened CopyFile
  import opened CopyFileDirs

  class Guest {
    var files: Files
    var dirs: Dirs

    constructor (files: Files, dirs: Dirs)
      ensures this.files == files && this.dirs == dirs
    {
      this.files, this.dirs := files, dirs;
    }

    /** Handles one part: make the directories, write it into the temporary file and rename that file once
        it has the announced size. Any of the file operations may fail. */
    method DoCopyFile(req: Request, fault: Fault) returns (ok: bool)
      modifies this
      ensures ok == CopiedWith(old(files), req, fault).ok && files == CopiedWith(old(files), req, fault).files
      ensures dirs == DirsAfter(old(dirs), req.path, req.attributes, fault)
    {
      if fault.NotDelivered? || !Accepts(req.path) {
        return false;
      }
      ok := Prepare(req, fault);
      if ok {
        ok := Receive(req, fault);
      }
    }

    /** The part of it that is about directories. */
    method Prepare(req: Request, fault: Fault) returns (ok: bool)
      requires Accepts(req.path) && !fault.NotDelivered?
      modifies this`dirs
      ensures ok <==> !fault.NoDirectory?
      ensures dirs == DirsAfter(old(dirs), req.path, req.attributes, fault)
    {
      var dir := Parent(req.path);
      MakeDirs(dir, if fault.NoDirectory? && fault.made < |dir| then fault.made else |dir|);
      if fault.NoDirectory? {
        return false;
      }
      dirs := dirs[dir := Some(req.attributes.dirMode)];
      ok := true;
    }

    /** The part of it that is about the file. */
    method Receive(req: Request, fault: Fault) returns (ok: bool)
      requires Accepts(req.path) && !fault.NotDelivered? && !fault.NoDirectory?
      modifies this`files
      ensures ok == CopiedWith(old(files), req, fault).ok && files == CopiedWith(old(files), req, fault).files
    {
      if fault.NotOpened? {
        return false;
      }
      var written := WriteTmp(req, fault);
      if !written || fault.NoStat? {
        return false;
      }
      var tmp := TmpPath(req.path);
      if |files[tmp].content| != req.fileSize {
        return !fault.ReplyLost?;
      }
      ok := Finish(req, fault);
    }

    /** Makes the first `n` directories on the way down to `dir`, where they are missing. */
    method MakeDirs(dir: Path, n: nat)
      requires n <= |dir|
      modifies this`dirs
      ensures dirs == Made(old(dirs), dir, n)
    {
      assert Made(dirs, dir, 0) == dirs;
      for k := 0 to n
        invariant dirs == Made(old(dirs), dir, k)
      {
        MadeMore(old(dirs), dir, k);
        if dir[..k + 1] !in dirs {
          dirs := dirs[dir[..k + 1] := None];
        }
      }
    }

    /** Opens the temporary file and writes the data at its offset. */
    method WriteTmp(req: Request, fault: Fault) returns (ok: bool)
      requires Accepts(req.path)
      modifies this`files
      ensures ok <==> !(req.offset < 0 && req.data != []) && !(fault.WriteStops? && fault.n < |req.data|)
      ensures files == old(files)[TmpPath(req.path) :=
                         Written(old(files), req, if fault.WriteStops? && fault.n < |req.data| then fault.n else |req.data|)]
    {
      var tmp := TmpPath(req.path);
      if tmp !in files {
        files := files[tmp := File([], None, None)];
      }
      if req.data == [] {
        return true;
      }
      if req.offset < 0 {
        return false;
      }
      var n := if fault.WriteStops? && fault.n < |req.data| then fault.n else |req.data|;
      files := files[tmp := files[tmp].(content := WriteAt(files[tmp].content, req.data[..n], req.offset))];
      ok := n == |req.data|;
    }

    /** Sets mode and owner of the finished file and renames it into place. */
    method Finish(req: Request, fault: Fault) returns (ok: bool)
      requires Accepts(req.path) && TmpPath(req.path) in files
      modifies this`files
      ensures var tmp := TmpPath(req.path);
              var file := old(files)[tmp];
              var a := req.attributes;
              && (ok <==> !fault.NoMode? && !fault.NoOwner? && !fault.NoRename? && !fault.ReplyLost?)
              && files == match fault
                          case NoMode => old(files)
                          case NoOwner => old(files)[tmp := file.(mode := Some(a.mode))]
                          case NoRename => old(files)[tmp := Whole(file.content, a)]
                          case _ => (old(files) - {tmp})[req.path := Whole(file.content, a)]
    {
      var tmp := TmpPath(req.path);
      if fault.NoMode? {
        return false;
      }
      files := files[tmp := files[tmp].(mode := Some(req.attributes.mode))];
      if fault.NoOwner? {
        return false;
      }
      files := files[tmp := files[tmp].(owner := Some((req.attributes.uid, req.attributes.gid)))];
      if fault.NoRename? {
        return false;
      }
      files := (files - {tmp})[req.path := files[tmp]];
      ok := !fault.ReplyLost?;
    }
  }

  /** The parts the host cuts a file into. */
  function Chunks(b: seq<Byte>, max: nat): (r: seq<seq<Byte>>)
    requires max > 0
    ensures r != []
  {
    if |b| <= max then [b] else [b[..max]] + Chunks(b[max..], max)
  }

  /** Joining the parts gives the file back. */
  lemma {:induction false} ChunksJoin(b: seq<Byte>, max: nat)
    requires max > 0
    ensures Joined(Chunks(b, max)) == b
    decreases |b|
  {
    if |b| <= max {
      assert [b][..0] == [];
    } else {
      ChunksJoin(b[max..], max);
      JoinedCons(b[..max], Chunks(b[max..], max));
    }
  }

  /** No part exceeds the maximum, and none is empty unless the file is. */
  lemma {:induction false} ChunksSplit(b: seq<Byte>, max: nat)
    requires max > 0
    ensures forall i :: 0 <= i < |Chunks(b, max)| ==> |Chunks(b, max)[i]| <= max
    ensures b != [] ==> forall i :: 0 <= i < |Chunks(b, max)| ==> Chunks(b, max)[i] != []
    ensures |Chunks(b, max)| == 1 <==> |b| <= max
    ensures IsSplit(Chunks(b, max))
    decreases |b|
  {
    if |b| <= max {
    } else {
      ChunksSplit(b[max..], max);
    }
  }

  /** What is left to send is the parts from `k` on, and begins at the offset. */
  ghost predicate Remains(chunks: seq<seq<Byte>>, k: nat, b: seq<Byte>, offset: nat, max: nat)
    requires max > 0
  {
    if b == [] then k == |chunks|
    else k < |chunks| && chunks[k..] == Chunks(b, max) && offset == |Joined(chunks[..k])|
  }

  lemma RemainsNext(chunks: seq<seq<Byte>>, k: nat, b: seq<Byte>, offset: nat, max: nat, n: nat)
    requires max > 0 && b != [] && Remains(chunks, k, b, offset, max)
    requires n == if |b| > max then max else |b|
    ensures chunks[k] == b[..n] && Remains(chunks, k + 1, b[n..], offset + max, max)
  {
    JoinedMore(chunks, k);
    assert chunks[k] == chunks[k..][0];
    assert chunks[k + 1..] == chunks[k..][1..];
  }

  /** Part `k` fails: the host sees an error and the guest is left as the fault leaves it. */
  ghost predicate FailsAt(before: Files, after: Files, path: Path, a: Attributes, chunks: seq<seq<Byte>>, k: nat, fault: Fault)
    requires k < |chunks|
  {
    var r := CopiedWith(After(before, path, a, chunks, k), Part(path, a, chunks, k), fault);
    !r.ok && after == r.files
  }

  /** A part either has its effect without faults or fails; without a fault the agent accepts it exactly
      when it accepts the path. */
  lemma PartSent(before: Files, path: Path, a: Attributes, chunks: seq<seq<Byte>>, k: nat, fault: Fault)
    requires k < |chunks|
    ensures var r := CopiedWith(After(before, path, a, chunks, k), Part(path, a, chunks, k), fault);
            && (r.ok ==> r.files == After(before, path, a, chunks, k + 1) && Accepts(path) &&
                         !fault.NotDelivered? && !fault.NoDirectory?)
            && (!r.ok ==> FailsAt(before, r.files, path, a, chunks, k, fault))
            && (fault.NoFault? ==> (r.ok <==> Accepts(path)))
  {
    FaultKeepsDestination(After(before, path, a, chunks, k), Part(path, a, chunks, k), fault);
  }

  ghost predicate Faultless(fault: nat -> Fault) {
    forall k :: fault(k) == NoFault
  }

  /** Copies a whole file to the guest, a part at a time; part `k` meets `fault(k)`. On success the guest
      has handled the parts in order as without faults, and made the directories above the destination. The
      first part that fails ends the transfer. Without faults it succeeds exactly when the agent accepts the
      path. */
  method CopyToGuest(guest: Guest, path: Path, content: seq<Byte>, a: Attributes, max: nat, fault: nat -> Fault)
    returns (ok: bool)
    requires max > 0
    modifies guest
    ensures ok ==> guest.files == After(old(guest.files), path, a, Chunks(content, max), |Chunks(content, max)|)
    ensures ok ==> Accepts(path) && guest.dirs == Prepared(old(guest.dirs), Parent(path), a.dirMode)
    ensures !ok ==> exists k :: 0 <= k < |Chunks(content, max)| &&
                      FailsAt(old(guest.files), guest.files, path, a, Chunks(content, max), k, fault(k)) &&
                      guest.dirs == DirsAfter(DirsBefore(old(guest.dirs), path, a, k), path, a, fault(k))
    ensures Faultless(fault) ==> (ok <==> Accepts(path))
  {
    ghost var chunks := Chunks(content, max);
    ghost var before, dirs := guest.files, guest.dirs;
    ChunksJoin(content, max);
    if |content| == 0 {
      assert Part(path, a, chunks, 0) == Request(path, 0, a, 0, []);
      PartSent(before, path, a, chunks, 0, fault(0));
      ok := guest.DoCopyFile(Request(path, 0, a, 0, []), fault(0));
      return;
    }
    var b, offset, remaining, k := content, 0, |content|, 0;
    while remaining > 0
      invariant 0 <= remaining == |b| && 0 <= offset && 0 <= k <= |chunks|
      invariant Remains(chunks, k, b, offset, max)
      invariant k > 0 ==> Accepts(path)
      invariant guest.files == After(before, path, a, chunks, k) && guest.dirs == DirsBefore(dirs, path, a, k)
    {
      var n := if |b| > max then max else |b|;
      RemainsNext(chunks, k, b, offset, max, n);
      assert Part(path, a, chunks, k) == Request(path, |content|, a, offset, b[..n]);
      PartSent(before, path, a, chunks, k, fault(k));
      var sent := guest.DoCopyFile(Request(path, |content|, a, offset, b[..n]), fault(k));
      if !sent {
        return false;
      }
      DirsNext(dirs, path, a, k, fault(k));
      b, remaining, offset, k := b[n..], remaining - n, offset + max, k + 1;
    }
    ok := true;
  }

  /** Sending a file puts exactly it at the destination, once, exactly when the leftover of an earlier
      transfer is shorter, or of the same size and the file fits in one part. */
  lemma SentExactly(files: Files, path: Path, a: Attributes, content: seq<Byte>, max: nat)
    requires max > 0 && ["run", "kata-containers"] <= path && path[|path| - 1] != ".."
    ensures Assembled(files, path, a, Chunks(content, max)) <==>
            |Leftover(files, path).content| < |content| ||
            (|Leftover(files, path).content| == |content| && |content| <= max)
    ensures Assembled(files, path, a, Chunks(content, max)) ==>
              var after := After(files, path, a, Chunks(content, max), |Chunks(content, max)|);
              && path in after && after[path].content == content && after[path].mode == Some(a.mode)
              && after[path].owner == Some((a.uid, a.gid))
              && (TmpPath(path) != path ==> TmpPath(path) !in after)
              && (forall p :: p != path && p != TmpPath(path) ==>
                    (p in after <==> p in files) && (p in files ==> after[p] == files[p]))
  {
    ChunksJoin(content, max);
    ChunksSplit(content, max);
    AssembledExactly(files, path, a, Chunks(content, max));
  }

  /** The last part is written, but the size of the file cannot be read, or its mode, its owner or its new
      name cannot be set. */
  predicate FinishFails(fault: Fault) {
    fault.NoStat? || fault.NoMode? || fault.NoOwner? || fault.NoRename?
  }

  /** Then the temporary file stays, with the content that would have been renamed. */
  lemma FinishFaultLeaves(now: Files, req: Request, fault: Fault)
    requires FinishFails(fault) && Copied(now, req).moved
    ensures Leftover(CopiedWith(now, req, fault).files, req.path).content == Copied(now, req).files[req.path].content
  {
  }

  lemma FailedFinishLeaves(files: Files, path: Path, a: Attributes, chunks: seq<seq<Byte>>, after: Files, fault: Fault)
    requires Accepts(path) && IsSplit(chunks) && TmpPath(path) !in files && Joined(chunks) != [] && FinishFails(fault)
    requires FailsAt(files, after, path, a, chunks, |chunks| - 1, fault)
    ensures Leftover(after, path).content == Joined(chunks)
  {
    var k := |chunks| - 1;
    LastPart(files, path, a, chunks);
    FinishFaultLeaves(After(files, path, a, chunks, k), Part(path, a, chunks, k), fault);
  }

  /** Sending a file of several parts again after the last step of the first attempt failed puts a file at
      the destination whose first part is zeros. */
  lemma ResendSpoils(files: Files, path: Path, a: Attributes, content: seq<Byte>, max: nat, fault: Fault, after: Files)
    requires Accepts(path) && TmpPath(path) != path && TmpPath(path) !in files && 0 < max < |content| && FinishFails(fault)
    requires FailsAt(files, after, path, a, Chunks(content, max), |Chunks(content, max)| - 1, fault)
    ensures var again := After(after, path, a, Chunks(content, max), |Chunks(content, max)|);
            path in again && again[path] == Whole(Zeros(max) + content[max..], a)
  {
    var chunks := Chunks(content, max);
    ChunksJoin(content, max);
    ChunksSplit(content, max);
    FailedFinishLeaves(files, path, a, chunks, after, fault);
    SpoiledExactly(after, path, a, chunks);
    assert chunks[1..] == Chunks(content[max..], max);
    ChunksJoin(content[max..], max);
  }

  /** The whole file stays where the next transfer looks for a temporary file. */
  predicate StaysWhole(path: Path, fault: Fault)
    requires path != []
  {
    FinishFails(fault) || (fault.ReplyLost? && TmpPath(path) == path)
  }

  /** The parts so far are not longer than the file, and as long only once all are there. */
  lemma PrefixLength(chunks: seq<seq<Byte>>, k: nat)
    requires IsSplit(chunks) && |chunks| > 1 && k < |chunks|
    ensures |Joined(chunks[..k])| + |chunks[k]| <= |Joined(chunks)|
    ensures |Joined(chunks[..k])| + |chunks[k]| == |Joined(chunks)| <==> k == |chunks| - 1
  {
    JoinedMore(chunks, k);
    if k + 1 < |chunks| {
      JoinedShorter(chunks, k + 1);
    } else {
      assert chunks[..k + 1] == chunks;
    }
  }

  /** A part that is written over a prefix of the file, in whole or as far as a fault lets it. */
  lemma WrittenLength(now: Files, path: Path, a: Attributes, chunks: seq<seq<Byte>>, k: nat, n: nat)
    requires Accepts(path) && k < |chunks| && n <= |chunks[k]| && Leftover(now, path).content == Joined(chunks[..k])
    ensures |Written(now, Part(path, a, chunks, k), n).content| == |Joined(chunks[..k])| + n
  {
    if n == 0 {
    } else {
      Append(Joined(chunks[..k]), chunks[k][..n]);
    }
  }

  /** The content that a failed request leaves in the temporary file. */
  function LeftBehind(now: Files, req: Request, fault: Fault): seq<Byte>
    requires Accepts(req.path)
  {
    if fault.NotDelivered? || fault.NoDirectory? || fault.NotOpened? then Leftover(now, req.path).content
    else if fault.WriteStops? && fault.n < |req.data| then Written(now, req, fault.n).content
    else if fault.ReplyLost? && Copied(now, req).moved && TmpPath(req.path) != req.path then []
    else Written(now, req, |req.data|).content
  }

  lemma FailureLeaves(now: Files, req: Request, fault: Fault)
    requires Accepts(req.path) && req.offset >= 0 && !CopiedWith(now, req, fault).ok
    ensures Leftover(CopiedWith(now, req, fault).files, req.path).content == LeftBehind(now, req, fault)
    ensures fault.NoMode? || fault.NoOwner? || fault.NoRename? ==> Copied(now, req).moved
    ensures !fault.NoFault? && (fault.WriteStops? ==> fault.n < |req.data|)
  {
  }

  /** A part is renamed, without faults, exactly when it is the last. */
  lemma LastIsMoved(now: Files, path: Path, a: Attributes, chunks: seq<seq<Byte>>, k: nat)
    requires Accepts(path) && IsSplit(chunks) && |chunks| > 1 && k < |chunks|
    requires Leftover(now, path).content == Joined(chunks[..k])
    ensures Copied(now, Part(path, a, chunks, k)).moved <==> k == |chunks| - 1
  {
    PrefixLength(chunks, k);
    WrittenLength(now, path, a, chunks, k, |chunks[k]|);
  }

  /** What part `k` leaves behind when it fails has the size of the file exactly when it was the last part
      and the whole file stays. */
  lemma LeftLength(now: Files, path: Path, a: Attributes, chunks: seq<seq<Byte>>, k: nat, fault: Fault)
    requires Accepts(path) && IsSplit(chunks) && |chunks| > 1 && k < |chunks|
    requires Leftover(now, path).content == Joined(chunks[..k])
    requires !CopiedWith(now, Part(path, a, chunks, k), fault).ok
    ensures var left := LeftBehind(now, Part(path, a, chunks, k), fault);
            && |left| <= |Joined(chunks)|
            && (|left| == |Joined(chunks)| <==> k == |chunks| - 1 && StaysWhole(path, fault))
  {
    PrefixLength(chunks, k);
    LastIsMoved(now, path, a, chunks, k);
    FailureLeaves(now, Part(path, a, chunks, k), fault);
    WrittenLength(now, path, a, chunks, k, |chunks[k]|);
    if fault.WriteStops? {
      WrittenLength(now, path, a, chunks, k, fault.n);
    }
  }

  /** Where there was no temporary file, sending a file of several parts again after a failure puts it at
      the destination unless the failure left the whole of it in the temporary file. */
  lemma ResendExactly(files: Files, path: Path, a: Attributes, content: seq<Byte>, max: nat, k: nat, fault: Fault, after: Files)
    requires Accepts(path) && TmpPath(path) !in files && 0 < max < |content| && k < |Chunks(content, max)|
    requires FailsAt(files, after, path, a, Chunks(content, max), k, fault)
    ensures Assembled(after, path, a, Chunks(content, max)) <==>
            !(k == |Chunks(content, max)| - 1 && StaysWhole(path, fault))
  {
    var chunks := Chunks(content, max);
    ChunksJoin(content, max);
    ChunksSplit(content, max);
    Pending(files, path, a, chunks, k);
    FailureLeaves(After(files, path, a, chunks, k), Part(path, a, chunks, k), fault);
    LeftLength(After(files, path, a, chunks, k), path, a, chunks, k, fault);
    AssembledExactly(after, path, a, chunks);
  }
}
