/** Whole runs on one open file: whatever sequence of reads, writes and seeks a caller makes, the
    driver answers what a plain byte sequence with a position would. */
module FatRun {
  import opened FatTable
  import opened FatFile
  import opened FatSystem
  import opened FatDriver

  // ---------------------------------------------------------------- the plain sequence

  datatype FileOp = ReadOp(count: nat) | WriteOp(data: seq<Byte>) | SeekOp(ptr: int, dir: Whence)

  datatype Reply = Data(bytes: seq<Byte>) | Answer(r: int)

  /** A byte sequence, a position in it, and what the file was opened for. */
  datatype SeqFile = SeqFile(content: seq<Byte>, pos: nat, read: bool, write: bool, append: bool) {
    predicate Valid() { pos <= |content| }
  }

  function SeqTarget(f: SeqFile, ptr: int, dir: Whence): nat {
    Unsigned32(match dir case SeekSet => ptr case SeekCur => f.pos + ptr case SeekEnd => |f.content| + ptr)
  }

  /** Where a write begins: at the position, or, for appending, where a seek to the end leads, which for
      contents of less than 2^32 bytes is their end. */
  function WritesAt(f: SeqFile): (at: nat)
    requires f.Valid()
    ensures at <= |f.content| && (f.append && |f.content| < 0x1_0000_0000 ==> at == |f.content|)
  {
    if f.append then SeqTarget(f, 0, SeekEnd) else f.pos
  }

  function Apply(f: SeqFile, op: FileOp): (r: (SeqFile, Reply))
    requires f.Valid()
    ensures r.0.Valid()
  {
    match op
    case ReadOp(n) =>
      if !f.read then (f, Answer(-1))
      else
        var end := if f.pos + n <= |f.content| then f.pos + n else |f.content|;
        (f.(pos := end), Data(f.content[f.pos..end]))
    case WriteOp(data) =>
      if !f.write then (f, Answer(-1))
      else (f.(content := Overwrite(f.content, WritesAt(f), data), pos := WritesAt(f) + |data|), Answer(|data|))
    case SeekOp(ptr, dir) =>
      var p := SeqTarget(f, ptr, dir);
      if p <= |f.content| then (f.(pos := p), Answer(p)) else (f, Answer(ptr - 1))
  }

  /** The sequence after all operations, and the replies in order. */
  function Replay(f: SeqFile, ops: seq<FileOp>): (r: (SeqFile, seq<Reply>))
    requires f.Valid()
    ensures r.0.Valid() && |r.1| == |ops|
    decreases |ops|
  {
    if ops == [] then (f, [])
    else
      var (g, replies) := Replay(f, ops[..|ops| - 1]);
      var (h, reply) := Apply(g, ops[|ops| - 1]);
      (h, replies + [reply])
  }

  /** A seek the driver cannot serve though it lies in the file: the file is not open for writing and
      its n clusters end right there. */
  predicate Beyond(v: Volume, n: nat, f: SeqFile, op: FileOp) {
    op.SeekOp? && !f.write && SeqTarget(f, op.ptr, op.dir) <= |f.content| && !Within(v, n, SeqTarget(f, op.ptr, op.dir))
  }

  // ---------------------------------------------------------------- the driver follows it

  /** The open file fd as a plain sequence. */
  ghost function AsSeq(g: Gristle, fd: nat): SeqFile
    requires fd < |g.files| && fd < |g.chains|
    reads g
  {
    SeqFile(g.Bytes(fd), Pos(g.files[fd]), g.files[fd].read, g.files[fd].write, g.files[fd].append)
  }

  /** File fd of the driver is an open regular file, in whatever mode, that may be saved if it may be
      written. */
  ghost predicate Ready(g: Gristle, fd: nat)
    reads g
  {
    && g.Valid() && !g.astray && |g.files| == 4 && |g.chains| >= 4 && HasFat(g.v, g.disk) && fd < 4
    && Active(g.files[fd]) && HasPlace(g.v, g.disk, g.chains, g.files[fd], fd)
  }

  method StepRead(g: Gristle, fd: nat, n: nat) returns (reply: Reply)
    requires Ready(g, fd)
    modifies g
    ensures |g.files| == 4 && |g.chains| == old(|g.chains|) && HasFat(g.v, g.disk)
    ensures OthersSame(g.v, fd, old(g.disk), old(g.files), old(g.chains), g.disk, g.files, g.chains)
    ensures AllButOK(g.v, g.disk, g.files, g.chains, fd)
    ensures !g.astray && Ready(g, fd) && old(AsSeq(g, fd)).Valid() && (AsSeq(g, fd), reply) == Apply(old(AsSeq(g, fd)), ReadOp(n))
    ensures old(HasHome(g.files[fd], g.chains[fd])) ==> HasHome(g.files[fd], g.chains[fd])
    ensures SameFlags(old(g.files[fd]), g.files[fd])
  {
    hide SystemOK, FileOK, FdOK, AllOK, AllButOK, OthersSame, NoFree, HasPlace, IsDir, Within, Content, Overwrite,
         HasFat, Unsigned32;
    PosInFile(g.v, g.disk, g.files, g.chains, fd);
    SelfSame(g.v, fd, g.disk, g.files, g.chains);
    var data, r := g.Read(fd, n);
    FdParts(g.v, g.disk, g.files, g.chains, fd);
    SystemParts(g.v, g.disk, g.chains);
    OpenGap(g.v, g.disk, g.files, g.chains, fd);
    return if r == -1 then Answer(-1) else Data(data);
  }

  method StepWrite(g: Gristle, fd: nat, data: seq<Byte>) returns (reply: Reply, ok: bool)
    requires Ready(g, fd)
    modifies g
    ensures |g.files| == 4 && |g.chains| == old(|g.chains|) && HasFat(g.v, g.disk)
    ensures !g.astray ==>
              && OthersSame(g.v, fd, old(g.disk), old(g.files), old(g.chains), g.disk, g.files, g.chains)
              && AllButOK(g.v, g.disk, g.files, g.chains, fd)
    ensures old(AsSeq(g, fd)).Valid()
    ensures ok ==> !g.astray && Ready(g, fd) && (AsSeq(g, fd), reply) == Apply(old(AsSeq(g, fd)), WriteOp(data))
    ensures !ok ==> NoFree(g.v, g.disk)
    ensures ok ==> old(HasHome(g.files[fd], g.chains[fd])) ==> HasHome(g.files[fd], g.chains[fd])
    ensures ok ==> SameFlags(old(g.files[fd]), g.files[fd])
  {
    hide SystemOK, FileOK, FdOK, AllOK, AllButOK, OthersSame, NoFree, HasPlace, IsDir, Within, Content, Overwrite,
         HasFat, Unsigned32;
    PosInFile(g.v, g.disk, g.files, g.chains, fd);
    SelfSame(g.v, fd, g.disk, g.files, g.chains);
    OpenGap(g.v, g.disk, g.files, g.chains, fd);
    var r := g.Write(fd, data);
    return Answer(r), !g.astray && (r == |data| || !g.files[fd].write);
  }

  /** A record with content c as a sequence. */
  function SeqOf(f: FileS, c: seq<Byte>): SeqFile { SeqFile(c, Pos(f), f.read, f.write, f.append) }

  /** A seek that answers and moves the record as it should. */
  lemma SeekApplies(f: FileS, g: FileS, c: seq<Byte>, ptr: int, dir: Whence, r: int)
    requires Pos(f) <= |c| == f.size && SameMode(f, g)
    requires var p := Target(f, ptr, dir);
             if p > f.size then r == ptr - 1 && Pos(g) == Pos(f) else r == p && Pos(g) == p
    ensures (SeqOf(g, c), Answer(r)) == Apply(SeqOf(f, c), SeekOp(ptr, dir))
  {
    hide Unsigned32;
  }

  lemma SeekBeyond(v: Volume, n: nat, f: FileS, c: seq<Byte>, ptr: int, dir: Whence)
    requires |c| == f.size && !f.write && Target(f, ptr, dir) <= f.size && !Within(v, n, Target(f, ptr, dir))
    ensures Beyond(v, n, SeqOf(f, c), SeekOp(ptr, dir))
  {
    hide Unsigned32, Within;
  }

  method StepSeek(g: Gristle, fd: nat, ptr: int, dir: Whence) returns (reply: Reply, ok: bool)
    requires Ready(g, fd)
    modifies g
    ensures |g.files| == 4 && |g.chains| == old(|g.chains|) && HasFat(g.v, g.disk)
    ensures !g.astray ==>
              && OthersSame(g.v, fd, old(g.disk), old(g.files), old(g.chains), g.disk, g.files, g.chains)
              && AllButOK(g.v, g.disk, g.files, g.chains, fd)
    ensures old(AsSeq(g, fd)).Valid()
    ensures ok ==> !g.astray && Ready(g, fd) && (AsSeq(g, fd), reply) == Apply(old(AsSeq(g, fd)), SeekOp(ptr, dir))
    ensures !ok ==> NoFree(g.v, g.disk) || Beyond(g.v, |g.chains[fd]|, old(AsSeq(g, fd)), SeekOp(ptr, dir))
    ensures ok ==> old(HasHome(g.files[fd], g.chains[fd])) ==> HasHome(g.files[fd], g.chains[fd])
    ensures ok ==> SameFlags(old(g.files[fd]), g.files[fd])
  {
    hide SystemOK, FileOK, FdOK, AllOK, AllButOK, OthersSame, NoFree, IsDir, Within, Content, Overwrite, HasFat,
         Unsigned32, HasPlace, CanStart, Missed, ParentHasSlot, Spoilt, GoesAstray, Flushed, Full, HasHome, Arrives,
         Apply, Target, Beyond;
    PosInFile(g.v, g.disk, g.files, g.chains, fd);
    PlaceToStart(g.v, g.disk, g.chains, g.files[fd], fd);
    var f := g.files[fd];
    ghost var c := g.Bytes(fd);
    assert AsSeq(g, fd) == SeqOf(f, c);
    var r := g.Lseek(fd, ptr, dir);
    var p := Target(f, ptr, dir);
    ok := !g.astray && (p > f.size || Arrives(f, g.files[fd], p));
    if !g.astray {
      PlaceKept(g.v, old(g.disk), old(g.chains), f, g.disk, g.chains, g.files[fd], fd);
    }
    if ok {
      SeekApplies(f, g.files[fd], c, ptr, dir, r);
    } else if !g.astray && !f.write && !Within(g.v, |g.chains[fd]|, p) {
      SeekBeyond(g.v, |g.chains[fd]|, f, c, ptr, dir);
    }
    return Answer(r), ok;
  }

  /** One operation on the driver. */
  method Step(g: Gristle, fd: nat, op: FileOp) returns (reply: Reply, ok: bool)
    requires Ready(g, fd)
    modifies g
    ensures |g.files| == 4 && |g.chains| == old(|g.chains|) && HasFat(g.v, g.disk)
    ensures !g.astray ==>
              && OthersSame(g.v, fd, old(g.disk), old(g.files), old(g.chains), g.disk, g.files, g.chains)
              && AllButOK(g.v, g.disk, g.files, g.chains, fd)
    ensures old(AsSeq(g, fd)).Valid()
    ensures ok ==> !g.astray && Ready(g, fd) && (AsSeq(g, fd), reply) == Apply(old(AsSeq(g, fd)), op)
    ensures !ok ==> NoFree(g.v, g.disk) || Beyond(g.v, |g.chains[fd]|, old(AsSeq(g, fd)), op)
    ensures ok ==> old(HasHome(g.files[fd], g.chains[fd])) ==> HasHome(g.files[fd], g.chains[fd])
    ensures ok ==> SameFlags(old(g.files[fd]), g.files[fd])
  {
    hide *;
    PosInFileReady(g, fd);
    ok := true;
    match op
    case ReadOp(n) => reply := StepRead(g, fd, n);
    case WriteOp(data) => reply, ok := StepWrite(g, fd, data);
    case SeekOp(ptr, dir) => reply, ok := StepSeek(g, fd, ptr, dir);
  }

  /** A file of the driver, whatever it was opened for, refines its byte sequence over every run.  The
      run is cut short only where the driver fails: no cluster of the volume is free, or a file that
      is not open for writing seeks to its end and fills its clusters.  No other open file is affected,
      unless the driver went astray. */
  method Run(g: Gristle, fd: nat, ops: seq<FileOp>) returns (replies: seq<Reply>)
    requires Ready(g, fd)
    modifies g
    ensures |g.files| == 4 && |g.chains| == old(|g.chains|) && HasFat(g.v, g.disk)
    ensures !g.astray ==>
              && OthersSame(g.v, fd, old(g.disk), old(g.files), old(g.chains), g.disk, g.files, g.chains)
              && AllButOK(g.v, g.disk, g.files, g.chains, fd)
    ensures |replies| <= |ops| && old(AsSeq(g, fd)).Valid()
    ensures replies == Replay(old(AsSeq(g, fd)), ops[..|replies|]).1
    ensures |replies| < |ops| ==>
              || NoFree(g.v, g.disk)
              || Beyond(g.v, |g.chains[fd]|, Replay(old(AsSeq(g, fd)), ops[..|replies|]).0, ops[|replies|])
    ensures |replies| == |ops| ==>
              && Ready(g, fd) && AsSeq(g, fd) == Replay(old(AsSeq(g, fd)), ops).0
              && SameFlags(old(g.files[fd]), g.files[fd])
  {
    hide SystemOK, FileOK, FdOK, AllOK, AllButOK, OthersSame, NoFree, HasPlace, IsDir, Content, Overwrite, HasFat,
         Apply, Ready, Beyond;
    replies := [];
    assert ops[..0] == [];
    PosInFileReady(g, fd);
    SelfSame(g.v, fd, g.disk, g.files, g.chains);
    while |replies| < |ops|
      invariant |replies| <= |ops| && |g.files| == 4 && |g.chains| == old(|g.chains|)
      invariant fd < 4 <= |g.chains|
      invariant HasFat(g.v, g.disk) && Ready(g, fd) && AsSeq(g, fd).Valid()
      invariant OthersSame(g.v, fd, old(g.disk), old(g.files), old(g.chains), g.disk, g.files, g.chains)
      invariant AllButOK(g.v, g.disk, g.files, g.chains, fd)
      invariant (AsSeq(g, fd), replies) == Replay(old(AsSeq(g, fd)), ops[..|replies|])
      invariant SameFlags(old(g.files[fd]), g.files[fd])
    {
      ghost var n := |replies|;
      ghost var d, fs, cs := g.disk, g.files, g.chains;
      var reply, ok := Step(g, fd, ops[|replies|]);
      if !g.astray {
        OthersSameTrans(g.v, fd, old(g.disk), old(g.files), old(g.chains), d, fs, cs, g.disk, g.files, g.chains);
      }
      if !ok {
        return;
      }
      assert ops[..n + 1][..n] == ops[..n];
      replies := replies + [reply];
      PosInFileReady(g, fd);
    }
    assert ops[..|ops|] == ops;
  }

  lemma PosInFileReady(g: Gristle, fd: nat)
    requires Ready(g, fd)
    ensures |g.files| == 4 && fd < 4 <= |g.chains| && AsSeq(g, fd).Valid() && HasFat(g.v, g.disk) && !g.astray
    ensures AllButOK(g.v, g.disk, g.files, g.chains, fd)
  {
    PosInFile(g.v, g.disk, g.files, g.chains, fd);
    OpenGap(g.v, g.disk, g.files, g.chains, fd);
  }

  // ---------------------------------------------------------------- what the directory says in the end

  /** The directory knows file fd as it is, or the file was never saved. */
  ghost predicate Known(g: Gristle, fd: nat)
    requires fd < |g.files| && fd < |g.chains|
    reads g
  {
    g.chains[fd] == [] || EntryOnDisk(g.disk, g.files[fd])
  }

  lemma KnownRecorded(g: Gristle, fd: nat)
    requires Ready(g, fd) && Known(g, fd)
    ensures Recorded(g.v, g.disk, g.files[fd])
  {
    hide FileOK, FdOK, SystemOK, EntryOnDisk, HasFat;
    FdParts(g.v, g.disk, g.files, g.chains, fd);
  }

  /** A file opened for writing, used in any way and closed: its directory entry has its name, its first
      cluster and the length of what the plain sequence then holds, and on the disk its chain holds the
      bytes. */
  method RunThenClose(g: Gristle, fd: nat, ops: seq<FileOp>) returns (replies: seq<Reply>, r: int)
    requires Ready(g, fd) && Known(g, fd) && g.files[fd].write
    modifies g
    ensures |g.files| == 4 && |g.chains| == old(|g.chains|) && HasFat(g.v, g.disk) && |replies| <= |ops|
    ensures r == 0 && !g.astray ==>
              && |replies| == |ops| && old(AsSeq(g, fd)).Valid()
              && var c, f := Replay(old(AsSeq(g, fd)), ops).0.content, g.files[fd];
                 && OnDisk(g.v, g.disk, g.chains[fd], f.size) == c
                 && (g.chains[fd] != [] && g.chains[fd][0] != g.v.rootCluster ==>
                       Lists(g.disk, f.entrySector, f.entryNumber, old(g.files[fd].name), old(g.files[fd].attributes),
                             g.chains[fd][0], |c|))
    ensures r != 0 || g.astray ==>
              NoFree(g.v, g.disk) || (|replies| < |ops| && old(AsSeq(g, fd)).Valid()
                && Beyond(g.v, |g.chains[fd]|, Replay(old(AsSeq(g, fd)), ops[..|replies|]).0, ops[|replies|]))
  {
    hide SystemOK, FileOK, FdOK, AllOK, AllButOK, OthersSame, NoFree, HasPlace, IsDir, Content, Overwrite, HasFat,
         Apply, Ready, Beyond, Known, OnDisk, Lists, Recorded, FirstSlotOf;
    PosInFileReady(g, fd);
    KnownRecorded(g, fd);
    r := -1;
    replies := Run(g, fd, ops);
    if |replies| == |ops| {
      PosInFileReady(g, fd);
      RecordedStays(g.v, fd, old(g.disk), old(g.files), old(g.chains), g.disk, g.files, g.chains);
      ReadyParts(g, fd);
      r := g.Close(fd);
    }
  }

  lemma ReadyParts(g: Gristle, fd: nat)
    requires Ready(g, fd)
    ensures g.Valid() && Active(g.files[fd]) && HasPlace(g.v, g.disk, g.chains, g.files[fd], fd)
  {
  }

  // ---------------------------------------------------------------- several files at once

  /** An operation on one of the open files. */
  datatype Call = Call(fd: nat, op: FileOp)

  /** Up to four sequences side by side: an operation moves its own and no other. */
  function ReplayAll(fs: seq<SeqFile>, calls: seq<Call>): (r: (seq<SeqFile>, seq<Reply>))
    requires |fs| == 4 && forall k | 0 <= k < |calls| :: calls[k].fd < 4 && fs[calls[k].fd].Valid()
    ensures |r.0| == 4 && |r.1| == |calls| && forall i | 0 <= i < 4 && fs[i].Valid() :: r.0[i].Valid()
    decreases |calls|
  {
    if calls == [] then (fs, [])
    else
      var (gs, replies) := ReplayAll(fs, calls[..|calls| - 1]);
      var c := calls[|calls| - 1];
      var (h, reply) := Apply(gs[c.fd], c.op);
      (gs[c.fd := h], replies + [reply])
  }

  /** The four records of the driver as sequences; what is not an open file stands for nothing. */
  ghost function AsSeqs(g: Gristle): (fs: seq<SeqFile>)
    requires |g.files| == 4 && |g.chains| >= 4
    reads g
    ensures |fs| == 4 && forall i: nat | i < 4 :: fs[i] == AsSeq(g, i)
  {
    [AsSeq(g, 0), AsSeq(g, 1), AsSeq(g, 2), AsSeq(g, 3)]
  }

  /** Every open file is in order, and none waits for a directory slot that another could take. */
  ghost predicate AllReady(g: Gristle)
    reads g
  {
    && g.Valid() && !g.astray && |g.files| == 4 && |g.chains| >= 4 && HasFat(g.v, g.disk)
    && forall i: nat | i < 4 && Active(g.files[i]) :: HasHome(g.files[i], g.chains[i])
  }

  lemma OneReady(g: Gristle, fd: nat)
    requires AllReady(g) && fd < 4 && Active(g.files[fd])
    ensures Ready(g, fd) && AsSeqs(g)[fd].Valid() && HasHome(g.files[fd], g.chains[fd])
  {
    hide AllOK, FdOK, HasFat, IsDir, Content;
    PosInFile(g.v, g.disk, g.files, g.chains, fd);
  }

  /** One operation among several files: the others stay open, as they were, and none starts to wait. */
  method StepAmong(g: Gristle, c: Call) returns (reply: Reply, ok: bool)
    requires AllReady(g) && c.fd < 4 && Active(g.files[c.fd])
    modifies g
    ensures |g.files| == 4 && |g.chains| >= 4 && HasFat(g.v, g.disk)
    ensures old(AsSeqs(g)[c.fd]).Valid()
    ensures ok ==>
              && AllReady(g)
              && (forall i: nat | i < 4 && Active(old(g.files[i])) :: Active(g.files[i]))
              && (forall i: nat | i < 4 && Active(old(g.files[i])) :: SameFlags(old(g.files[i]), g.files[i]))
              && (old(Booked(g.v, g.disk, g.files)) ==> Booked(g.v, g.disk, g.files))
              && (AsSeqs(g)[c.fd], reply) == Apply(old(AsSeqs(g)[c.fd]), c.op)
              && forall i: nat | i < 4 && i != c.fd && Active(old(g.files[i])) :: AsSeqs(g)[i] == old(AsSeqs(g)[i])
    ensures !ok ==> NoFree(g.v, g.disk) || Beyond(g.v, |g.chains[c.fd]|, old(AsSeqs(g)[c.fd]), c.op)
  {
    hide AllOK, AllButOK, HasFat, IsDir, Content, NoFree, Beyond, Apply, HasPlace, HasHome, Booked, EntriesKept;
    OneReady(g, c.fd);
    reply, ok := Step(g, c.fd, c.op);
    if ok && old(Booked(g.v, g.disk, g.files)) {
      BookedKept(g.v, c.fd, old(g.disk), old(g.files), old(g.chains), g.disk, g.files, g.chains);
    }
  }

  /** Every interleaving of reads, writes and seeks on up to four open files: each file answers as its
      own plain sequence, whatever the others do in between. */
  method RunAmong(g: Gristle, calls: seq<Call>) returns (replies: seq<Reply>)
    requires AllReady(g) && forall k | 0 <= k < |calls| :: calls[k].fd < 4 && Active(g.files[calls[k].fd])
    modifies g
    ensures |g.files| == 4 && |g.chains| >= 4 && HasFat(g.v, g.disk) && |replies| <= |calls|
    ensures forall k | 0 <= k < |calls| :: old(AsSeqs(g))[calls[k].fd].Valid()
    ensures replies == ReplayAll(old(AsSeqs(g)), calls[..|replies|]).1
    ensures |replies| < |calls| ==>
              || NoFree(g.v, g.disk)
              || var c := calls[|replies|];
                 Beyond(g.v, |g.chains[c.fd]|, ReplayAll(old(AsSeqs(g)), calls[..|replies|]).0[c.fd], c.op)
    ensures |replies| == |calls| ==>
              && AllReady(g) && (old(Booked(g.v, g.disk, g.files)) ==> Booked(g.v, g.disk, g.files))
              && forall i: nat | i < 4 && Active(old(g.files[i])) ::
                   && Active(g.files[i]) && SameFlags(old(g.files[i]), g.files[i])
                   && AsSeqs(g)[i] == ReplayAll(old(AsSeqs(g)), calls).0[i]
  {
    hide Booked, AllOK, HasFat, IsDir, Content, NoFree, Beyond, Apply, AllReady, ReplayAll, AsSeq, Active;
    replies := [];
    AllSizes(g);
    forall k | 0 <= k < |calls| ensures AsSeqs(g)[calls[k].fd].Valid() {
      OneReady(g, calls[k].fd);
    }
    ghost var fs := AsSeqs(g);
    ReplayNone(fs, calls);
    while |replies| < |calls|
      invariant |replies| <= |calls| && |g.files| == 4 && |g.chains| >= 4 && HasFat(g.v, g.disk) && AllReady(g)
      invariant forall i: nat | i < 4 && Active(old(g.files[i])) :: Active(g.files[i]) && SameFlags(old(g.files[i]), g.files[i])
      invariant old(Booked(g.v, g.disk, g.files)) ==> Booked(g.v, g.disk, g.files)
      invariant replies == ReplayAll(fs, calls[..|replies|]).1
      invariant forall i: nat | i < 4 && Active(old(g.files[i])) ::
                  AsSeqs(g)[i] == ReplayAll(fs, calls[..|replies|]).0[i]
    {
      ghost var n := |replies|;
      ReplayNext(fs, calls, n);
      var reply, ok := StepAmong(g, calls[|replies|]);
      if !ok {
        return;
      }
      replies := replies + [reply];
    }
    assert calls[..|calls|] == calls;
  }

  /** ... and then any of them closed: its directory entry has its name, its first cluster and the length of
      what its plain sequence holds, whatever the other files did, slots in the same directory block
      included. */
  method RunAmongThenClose(g: Gristle, calls: seq<Call>, fd: nat) returns (replies: seq<Reply>, r: int)
    requires AllReady(g) && forall k | 0 <= k < |calls| :: calls[k].fd < 4 && Active(g.files[calls[k].fd])
    requires Booked(g.v, g.disk, g.files) && fd < 4 && Active(g.files[fd]) && g.files[fd].write
    modifies g
    ensures |g.files| == 4 && |g.chains| >= 4 && |replies| <= |calls|
    ensures forall k | 0 <= k < |calls| :: old(AsSeqs(g))[calls[k].fd].Valid()
    ensures r == 0 && !g.astray ==>
              && |replies| == |calls|
              && var c, f := ReplayAll(old(AsSeqs(g)), calls).0[fd].content, g.files[fd];
                 && OnDisk(g.v, g.disk, g.chains[fd], f.size) == c
                 && (g.chains[fd] != [] && g.chains[fd][0] != g.v.rootCluster ==>
                       Lists(g.disk, f.entrySector, f.entryNumber, old(g.files[fd].name), old(g.files[fd].attributes),
                             g.chains[fd][0], |c|))
  {
    hide AllOK, OthersSame, HasFat, IsDir, Content, NoFree, Beyond, Apply, AllReady, ReplayAll, Booked, HasPlace,
         OnDisk, Lists, Recorded, FirstSlotOf;
    r := -1;
    replies := RunAmong(g, calls);
    if |replies| == |calls| {
      OneReady(g, fd);
      BookedOne(g.v, g.disk, g.files, fd);
      r := g.Close(fd);
    }
  }

  lemma ReplayNone(fs: seq<SeqFile>, calls: seq<Call>)
    requires |fs| == 4
    ensures calls[..0] == [] && ReplayAll(fs, []) == (fs, [])
  {
  }

  lemma ReplayNext(fs: seq<SeqFile>, calls: seq<Call>, n: nat)
    requires |fs| == 4 && n < |calls| && forall k | 0 <= k < |calls| :: calls[k].fd < 4 && fs[calls[k].fd].Valid()
    ensures var (gs, replies) := ReplayAll(fs, calls[..n]);
            var c := calls[n];
            && gs[c.fd].Valid()
            && ReplayAll(fs, calls[..n + 1]) == (gs[c.fd := Apply(gs[c.fd], c.op).0], replies + [Apply(gs[c.fd], c.op).1])
  {
    assert calls[..n + 1][..n] == calls[..n];
    hide Apply;
  }

  lemma AllSizes(g: Gristle)
    requires AllReady(g)
    ensures |g.files| == 4 && |g.chains| >= 4 && HasFat(g.v, g.disk)
  {
  }

  // ---------------------------------------------------------------- writing and reading back

  lemma WriteSeekRead(f: SeqFile, data: seq<Byte>)
    requires f.Valid() && f.pos < 0x1_0000_0000 && f.read && f.write && !f.append
    ensures var f1 := f.(content := Overwrite(f.content, f.pos, data), pos := f.pos + |data|);
            && Apply(f, WriteOp(data)) == (f1, Answer(|data|))
            && Apply(f1, SeekOp(-|data|, SeekCur)) == (f1.(pos := f.pos), Answer(f.pos))
            && Apply(f1.(pos := f.pos), ReadOp(|data|)) == (f1, Data(data))
  {
    OverwriteReadBack(f.content, f.pos, data);
    hide Overwrite;
  }

  /** Writing, seeking back and reading on the driver returns the bytes written, across whatever sectors
      and clusters they take, unless no cluster of the volume is free. */
  method WriteThenRead(g: Gristle, fd: nat, data: seq<Byte>) returns (back: seq<Byte>, ok: bool)
    requires Ready(g, fd) && g.files[fd].read && g.files[fd].write && !g.files[fd].append
    requires Pos(g.files[fd]) < 0x1_0000_0000
    modifies g
    ensures |g.files| == 4 && |g.chains| == old(|g.chains|) && HasFat(g.v, g.disk)
    ensures !g.astray ==>
              OthersSame(g.v, fd, old(g.disk), old(g.files), old(g.chains), g.disk, g.files, g.chains)
    ensures ok ==> back == data && Ready(g, fd)
    ensures ok ==> old(Pos(g.files[fd])) <= old(|g.Bytes(fd)|)
                   && g.Bytes(fd) == Overwrite(old(g.Bytes(fd)), old(Pos(g.files[fd])), data)
    ensures !ok ==> NoFree(g.v, g.disk)
  {
    hide SystemOK, FileOK, FdOK, AllOK, AllButOK, OthersSame, NoFree, HasPlace, IsDir, Content, Overwrite, HasFat,
         Apply, Ready;
    PosInFileReady(g, fd);
    WriteSeekRead(AsSeq(g, fd), data);
    back := [];
    var reply;
    reply, ok := StepWrite(g, fd, data);
    if !ok {
      return;
    }
    PosInFileReady(g, fd);
    ghost var d, fs, cs := g.disk, g.files, g.chains;
    reply, ok := StepSeek(g, fd, -|data|, SeekCur);
    if !g.astray {
      OthersSameTrans(g.v, fd, old(g.disk), old(g.files), old(g.chains), d, fs, cs, g.disk, g.files, g.chains);
    }
    if !ok {
      return;
    }
    PosInFileReady(g, fd);
    d, fs, cs := g.disk, g.files, g.chains;
    reply := StepRead(g, fd, |data|);
    OthersSameTrans(g.v, fd, old(g.disk), old(g.files), old(g.chains), d, fs, cs, g.disk, g.files, g.chains);
    back := reply.bytes;
  }

  // ---------------------------------------------------------------- seeking is stepping

  /** One sector on, following the FAT: what reading the file through would do. */
  function StepOne(v: Volume, disk: Disk, f: FileS): FileS
    requires HasFat(v, disk)
  {
    if f.sectorsLeft > 0 then
      f.(sectorsLeft := f.sectorsLeft - 1, fileSector := f.fileSector + 1, cursor := 0,
         sector := f.sector + 1, buffer := Blk(disk, f.sector + 1))
    else if f.cluster < Entries(v) then
      var c := Entry(v, disk, f.cluster);
      f.(cluster := c, sectorsLeft := v.spc - 1, fileSector := f.fileSector + 1, cursor := 0,
         sector := SectorOf(v, c, 0), buffer := Blk(disk, SectorOf(v, c, 0)))
    else f
  }

  /** n sectors on from the start of the file. */
  function StepFromStart(v: Volume, disk: Disk, f: FileS, s: seq<nat>, n: nat): FileS
    requires HasFat(v, disk) && InChain(v, s, 0)
  {
    if n == 0 then SeekTo(v, disk, f, s, 0) else StepOne(v, disk, StepFromStart(v, disk, f, s, n - 1))
  }

  lemma StepOneSeeks(v: Volume, disk: Disk, f: FileS, s: seq<nat>, k: nat)
    requires HasFat(v, disk) && IsChain(v, disk, s) && InChain(v, s, k) && InChain(v, s, k + 1)
    ensures (k + 1) * 512 / 512 == k + 1 && k * 512 / 512 == k
    ensures StepOne(v, disk, SeekTo(v, disk, f, s, k * 512)) == SeekTo(v, disk, f, s, (k + 1) * 512)
  {
    hide StepOne, SeekTo, AtStartOf, IsChain, HasFat, InChain;
    SeekToStart(v, disk, f, s, k);
    SeekToStart(v, disk, f, s, k + 1);
    StepAtStart(v, disk, f, s, k);
  }

  lemma StepAtStart(v: Volume, disk: Disk, f: FileS, s: seq<nat>, k: nat)
    requires HasFat(v, disk) && IsChain(v, disk, s) && InChain(v, s, k) && InChain(v, s, k + 1)
    ensures StepOne(v, disk, AtStartOf(v, disk, f, s, k)) == AtStartOf(v, disk, f, s, k + 1)
  {
    hide Entry, Entries, IsChain, HasFat, SectorOf, StepOne, Placed;
    var q, r := k / v.spc, k % v.spc;
    InEntries(v, disk, s, q);
    StepPlaced(v, disk, f, k, s[q], SecAt(v, s, k), v.spc - 1 - r);
    if v.spc - 1 - r > 0 {
      StepInCluster(v, s, k);
    } else {
      StepToCluster(v, s, k);
      LinkOf(v, disk, s, q);
      FirstOfCluster(v, s, k + 1, q + 1);
    }
  }

  lemma StepPlaced(v: Volume, disk: Disk, f: FileS, k: nat, c: nat, sector: int, left: int)
    requires HasFat(v, disk) && c < Entries(v)
    ensures StepOne(v, disk, Placed(disk, f, k, c, sector, left))
         == if left > 0 then Placed(disk, f, k + 1, c, sector + 1, left - 1)
            else Placed(disk, f, k + 1, Entry(v, disk, c), SectorOf(v, Entry(v, disk, c), 0), v.spc - 1)
  {
    hide Entry, Entries, SectorOf, Blk;
  }

  lemma FirstOfCluster(v: Volume, s: seq<nat>, k: nat, q: nat)
    requires InChain(v, s, k) && k / v.spc == q && k % v.spc == 0
    ensures q < |s| && SecAt(v, s, k) == SectorOf(v, s[q], 0) && v.spc - 1 - k % v.spc == v.spc - 1
  {
  }

  lemma InEntries(v: Volume, disk: Disk, s: seq<nat>, i: nat)
    requires HasFat(v, disk) && IsChain(v, disk, s) && i < |s|
    ensures s[i] < Entries(v)
  {
    assert Usable(v, s[i]);
  }

  lemma LinkOf(v: Volume, disk: Disk, s: seq<nat>, i: nat)
    requires HasFat(v, disk) && IsChain(v, disk, s) && i + 1 < |s|
    ensures s[i] < Entries(v) && Entry(v, disk, s[i]) == s[i + 1]
  {
    assert Usable(v, s[i]);
  }

  lemma {:induction false} SeekIsStepping(v: Volume, disk: Disk, f: FileS, s: seq<nat>, n: nat)
    requires HasFat(v, disk) && IsChain(v, disk, s) && InChain(v, s, n)
    ensures InChain(v, s, 0) && n * 512 / 512 == n
    ensures StepFromStart(v, disk, f, s, n) == SeekTo(v, disk, f, s, n * 512)
  {
    SecAtStart(v, s);
    if n > 0 {
      InChainMonotone(v, s, n - 1, n);
      SeekIsStepping(v, disk, f, s, n - 1);
      StepOneSeeks(v, disk, f, s, n - 1);
    }
  }

  /** Wherever `fat_lseek` takes a file, walking there sector by sector from the first cluster and
      then setting the cursor gives the same record, buffer included. */
  lemma SoughtIsStepped(v: Volume, disk: Disk, f: FileS, s: seq<nat>, p: nat)
    requires HasFat(v, disk) && IsChain(v, disk, s) && InChain(v, s, p / 512)
    ensures InChain(v, s, 0)
    ensures SeekTo(v, disk, f, s, p) == StepFromStart(v, disk, f, s, p / 512).(cursor := p % 512)
  {
    SeekIsStepping(v, disk, f, s, p / 512);
  }
}
