/** Whole runs of reads, writes and truncations on the files of a volume. */
module FileRuns {
  import opened Basics
  import opened FileTree
  import opened FileOwnership
  import opened FileContents
  import opened FileTruncate
  import opened FileLimits
  import opened FileSpace

  datatype FileOp = WriteOp(n: nat, off: nat, data: seq<Byte>) | ReadOp(n: nat, off: nat, len: nat) | TruncateOp(n: nat)

  /** What an operation returns: a count for a write, bytes or EOF for a read. */
  datatype FileReply = Wrote(count: nat) | Bytes(data: Option<seq<Byte>>) | Done

  function Sizes(fs: Fs): (r: seq<nat>)
    ensures |r| == |fs.inodes| && forall n :: 0 <= n < |r| ==> r[n] == fs.inodes[n].size
  {
    seq(|fs.inodes|, n requires 0 <= n < |fs.inodes| => fs.inodes[n].size)
  }

  function Modes(fs: Fs): (r: seq<nat>)
    ensures |r| == |fs.inodes| && forall n :: 0 <= n < |r| ==> r[n] == fs.inodes[n].mode
  {
    seq(|fs.inodes|, n requires 0 <= n < |fs.inodes| => fs.inodes[n].mode)
  }

  /** One operation; None where an assertion on the mode or on a hole fails, or no zone is left. */
  ghost function Exec(fs: Fs, op: FileOp): Option<(Fs, FileReply)>
    requires op.n < |fs.inodes|
  {
    match op
    case WriteOp(n, off, data) =>
      if fs.inodes[n].mode == 0 then None
      else (match Write(fs, n, off, data) case None => None case Some(fs1) => Some((fs1, Wrote(|data|))))
    case ReadOp(n, off, len) =>
      if FileOrDirectory(fs.inodes[n].mode) && CanRead(fs, n, off, len) then Some((fs, Bytes(Read(fs, n, off, len))))
      else None
    case TruncateOp(n) => Some((Truncate(fs, n), Done))
  }

  ghost function Run(fs: Fs, ops: seq<FileOp>): Option<(Fs, seq<FileReply>)>
    decreases |ops|
  {
    if ops == [] then Some((fs, []))
    else if ops[0].n >= |fs.inodes| then None
    else match Exec(fs, ops[0])
      case None => None
      case Some((fs1, r)) =>
        match Run(fs1, ops[1..])
        case None => None
        case Some((fs2, rs)) => Some((fs2, [r] + rs))
  }

  /** Every zone that a write of the run takes for an index block names no zone when it is taken. */
  ghost predicate CleanRun(fs: Fs, ops: seq<FileOp>)
    decreases |ops|
  {
    ops == [] || ops[0].n >= |fs.inodes| ||
    ((ops[0].WriteOp? ==> CleanWrite(fs, ops[0].n, ops[0].off, ops[0].data)) &&
     match Exec(fs, ops[0])
     case None => true
     case Some((fs1, _)) => CleanRun(fs1, ops[1..]))
  }

  // ---------------------------------------------------------------- what is known of a file

  /** The blocks that have been written, and for every byte up to the end the last one written there, if any was:
      nothing is promised of a gap. */
  datatype File = File(mapped: set<nat>, bytes: seq<Option<Byte>>)

  function Longer(a: nat, b: nat): nat {
    if a > b then a else b
  }

  function Over(bytes: seq<Option<Byte>>, off: nat, data: seq<Byte>): (r: seq<Option<Byte>>)
    ensures |r| == Longer(|bytes|, off + |data|)
    ensures forall x :: 0 <= x < |r| ==>
      r[x] == if off <= x < off + |data| then Some(data[x - off]) else if x < |bytes| then bytes[x] else None
  {
    seq(Longer(|bytes|, off + |data|), x requires 0 <= x =>
      if off <= x < off + |data| then Some(data[x - off]) else if x < |bytes| then bytes[x] else None)
  }

  function Blocks(off: nat, len: nat): (r: set<nat>)
    ensures forall b: nat :: b in r <==> Touched(off, len, b)
  {
    if len == 0 then {} else Range(off / BLOCK_SIZE, (off + len - 1) / BLOCK_SIZE)
  }

  function Range(lo: nat, hi: nat): (r: set<nat>)
    ensures forall b: nat :: b in r <==> lo <= b <= hi
    decreases hi + 1 - lo
  {
    if lo > hi then {} else {lo} + Range(lo + 1, hi)
  }

  /** A write, wherever it starts. */
  function Put(f: File, off: nat, data: seq<Byte>): File {
    if data == [] then f else File(f.mapped + Blocks(off, |data|), Over(f.bytes, off, data))
  }

  /** A read is served if every block that it touches has been written. */
  predicate Served(f: File, off: nat, len: nat) {
    forall x: nat :: off <= x < |f.bytes| && x < off + len ==> x / BLOCK_SIZE in f.mapped
  }

  /** EOF from the end on, else as many bytes as there are, each as it was last written. */
  predicate Recalls(f: File, off: nat, len: nat, data: Option<seq<Byte>>) {
    if off >= |f.bytes| then data == None
    else
      && data.Some? && |data.value| == Min(len, |f.bytes| - off)
      && forall i :: 0 <= i < |data.value| && f.bytes[off + i].Some? ==> data.value[i] == f.bytes[off + i].value
  }

  /** The same run on files of which only the writes are known. */
  ghost predicate HistoryRun(modes: seq<nat>, files: seq<File>, ops: seq<FileOp>, files': seq<File>, rs: seq<FileReply>)
    decreases |ops|
  {
    if ops == [] then files' == files && rs == []
    else
      && rs != [] && ops[0].n < |files| == |modes|
      && match ops[0] {
        case WriteOp(n, off, data) =>
          modes[n] != 0 && rs[0] == Wrote(|data|)
          && HistoryRun(modes, files[n := Put(files[n], off, data)], ops[1..], files', rs[1..])
        case ReadOp(n, off, len) =>
          FileOrDirectory(modes[n]) && Served(files[n], off, len)
          && rs[0].Bytes? && Recalls(files[n], off, len, rs[0].data)
          && HistoryRun(modes, files, ops[1..], files', rs[1..])
        case TruncateOp(n) =>
          rs[0] == Done
          && HistoryRun(modes, if FileOrDirectory(modes[n]) then files[n := File({}, [])] else files, ops[1..], files',
                        rs[1..])
      }
  }

  /** File n of the volume is one of which f is known. */
  ghost predicate Shows(fs: Fs, n: nat, f: File)
    requires n < |fs.inodes|
  {
    && |f.bytes| == fs.inodes[n].size
    && (forall b: nat :: b in f.mapped <==> HasBlock(fs, n, b))
    && (forall x: nat :: x < |f.bytes| && f.bytes[x].Some? ==>
          HasBlock(fs, n, x / BLOCK_SIZE) && ByteOf(fs, n, x) == f.bytes[x].value)
  }

  ghost predicate AllShow(fs: Fs, files: seq<File>) {
    |files| == |fs.inodes| && forall n :: 0 <= n < |files| ==> Shows(fs, n, files[n])
  }

  /** What is known of the files after one operation. */
  function Learnt(modes: seq<nat>, files: seq<File>, op: FileOp): seq<File>
    requires op.n < |files| == |modes|
  {
    match op
    case WriteOp(n, off, data) => files[n := Put(files[n], off, data)]
    case ReadOp(_, _, _) => files
    case TruncateOp(n) => if FileOrDirectory(modes[n]) then files[n := File({}, [])] else files
  }

  lemma WriteShows(fs: Fs, fs': Fs, n: nat, off: nat, data: seq<Byte>, m: nat, f: File)
    requires Stored(fs, fs', n, off, data) && m < |fs.inodes| && Shows(fs, m, f)
    ensures Shows(fs', m, if m == n then Put(f, off, data) else f)
  {
    hide HasBlock, ByteOf, Touched;
    var f' := if m == n then Put(f, off, data) else f;
    forall b: nat
      ensures b in f'.mapped <==> HasBlock(fs', m, b)
    {
      assert HasBlock(fs', m, b) <==> HasBlock(fs, m, b) || (m == n && Touched(off, |data|, b));
      if data == [] {
        NothingTouched(off, b);
      }
    }
    forall x: nat | x < |f'.bytes| && f'.bytes[x].Some?
      ensures HasBlock(fs', m, x / BLOCK_SIZE) && ByteOf(fs', m, x) == f'.bytes[x].value
    {
      if Within(m, x, n, off, |data|) {
        InTouched(off, |data|, x);
      } else {
        assert x < |f.bytes| && f.bytes[x] == f'.bytes[x];
      }
    }
  }

  lemma NothingTouched(off: nat, b: nat)
    ensures !Touched(off, 0, b)
  {}

  lemma TruncateShows(fs: Fs, n: nat, m: nat, f: File)
    requires Wf(fs) && n < |fs.inodes| && m < |fs.inodes| && FileOrDirectory(fs.inodes[n].mode) && Shows(fs, m, f)
    ensures m < |Truncate(fs, n).inodes| && Shows(Truncate(fs, n), m, if m == n then File({}, []) else f)
  {
    var fs' := Truncate(fs, n);
    forall b: nat
      ensures HasBlock(fs', m, b) <==> m != n && HasBlock(fs, m, b)
    {
      if b < TOTAL_BLOCK {
        TruncatedAt(fs, fs', n, SlotOf(m, b));
      }
    }
    forall x: nat | m != n && HasBlock(fs, m, x / BLOCK_SIZE)
      ensures ByteOf(fs', m, x) == ByteOf(fs, m, x)
    {
      TruncatedAt(fs, fs', n, SlotOf(m, x / BLOCK_SIZE));
    }
    hide HasBlock, ByteOf, Truncate;
  }

  /** A read is served exactly where the volume serves it, and recalls what is known. */
  lemma ReadRecalls(fs: Fs, n: nat, off: nat, len: nat, f: File)
    requires n < |fs.inodes| && Shows(fs, n, f)
    ensures CanRead(fs, n, off, len) <==> Served(f, off, len)
    ensures Recalls(f, off, len, Read(fs, n, off, len))
  {
    hide HasBlock, ByteOf;
  }

  /** One operation keeps what is known in step with the volume. */
  lemma OperationShows(fs: Fs, op: FileOp, fs1: Fs, r: FileReply, files: seq<File>)
    requires Wf(fs) && op.n < |fs.inodes| && AllShow(fs, files) && Exec(fs, op) == Some((fs1, r))
    requires op.WriteOp? ==> CleanWrite(fs, op.n, op.off, op.data)
    ensures Wf(fs1) && Modes(fs1) == Modes(fs) && AllShow(fs1, Learnt(Modes(fs), files, op))
  {
    hide Write, Truncate, CleanWrite, Wf, CanRead, Stored, Shows, Put;
    match op
    case WriteOp(n, off, data) =>
      WriteStored(fs, fs1, n, off, data);
      StoredModes(fs, fs1, n, off, data);
      forall m | 0 <= m < |files|
        ensures Shows(fs1, m, Learnt(Modes(fs), files, op)[m])
      {
        WriteShows(fs, fs1, n, off, data, m, files[m]);
      }
    case ReadOp(n, off, len) =>
    case TruncateOp(n) =>
      if FileOrDirectory(fs.inodes[n].mode) {
        TruncateWf(fs, n);
        forall m | 0 <= m < |files|
          ensures Shows(fs1, m, Learnt(Modes(fs), files, op)[m])
        {
          TruncateShows(fs, n, m, files[m]);
        }
      }
  }

  lemma TruncateWf(fs: Fs, n: nat)
    requires Wf(fs) && n < |fs.inodes| && FileOrDirectory(fs.inodes[n].mode)
    ensures Wf(Truncate(fs, n)) && Modes(Truncate(fs, n)) == Modes(fs) && |Truncate(fs, n).inodes| == |fs.inodes|
  {
    TruncateKeepsOthers(fs, Truncate(fs, n), n);
    hide Belongs, Contents, NoHoles;
  }

  /** Every run of reads, writes from any offset and truncations over any number of files gives back what was
      written: a read is served only if all the blocks that it touches have been written, and then every byte that
      was ever written comes back as it was last written, whatever zones are taken and whatever stale bytes they
      hold, as long as no zone taken for an index block names a zone. */
  lemma {:induction false} FilesRememberWrites(fs: Fs, ops: seq<FileOp>, fs': Fs, rs: seq<FileReply>, files: seq<File>)
    returns (files': seq<File>)
    requires Wf(fs) && AllShow(fs, files) && CleanRun(fs, ops) && Run(fs, ops) == Some((fs', rs))
    ensures Wf(fs') && AllShow(fs', files') && HistoryRun(Modes(fs), files, ops, files', rs)
    decreases |ops|
  {
    hide Write, Truncate, CleanWrite, Wf, CanRead, Read, AllShow, Put, Served, Recalls;
    if ops == [] {
      files' := files;
    } else {
      var (fs1, r) := Exec(fs, ops[0]).value;
      OperationShows(fs, ops[0], fs1, r, files);
      SameLength(fs, files);
      if ops[0].ReadOp? {
        OneShows(fs, files, ops[0].n);
        ReadRecalls(fs, ops[0].n, ops[0].off, ops[0].len, files[ops[0].n]);
      }
      files' := FilesRememberWrites(fs1, ops[1..], fs', rs[1..], Learnt(Modes(fs), files, ops[0]));
    }
  }

  lemma OneShows(fs: Fs, files: seq<File>, n: nat)
    requires AllShow(fs, files) && n < |files|
    ensures n < |fs.inodes| && Shows(fs, n, files[n])
  {}

  lemma SameLength(fs: Fs, files: seq<File>)
    requires AllShow(fs, files)
    ensures |files| == |fs.inodes|
  {}

  /** Exactly when an operation halts: a write for its mode or for lack of room, a read for its mode or for a block
      never written, a truncation never. */
  lemma OperationHalts(fs: Fs, op: FileOp, files: seq<File>)
    requires Wf(fs) && op.n < |fs.inodes| && AllShow(fs, files)
    requires op.WriteOp? ==> CleanWrite(fs, op.n, op.off, op.data)
    ensures op.WriteOp? ==> (Exec(fs, op).None? <==> fs.inodes[op.n].mode == 0 || NoRoom(fs, op.n, op.off, |op.data|))
    ensures op.ReadOp? ==>
      (Exec(fs, op).None? <==> !FileOrDirectory(fs.inodes[op.n].mode) || !Served(files[op.n], op.off, op.len))
    ensures op.TruncateOp? ==> Exec(fs, op).Some?
  {
    hide Write, Truncate, CleanWrite, Wf, CanRead, Read, Served, NoRoom;
    match op
    case WriteOp(n, off, data) => WriteHalts(fs, n, off, data);
    case ReadOp(n, off, len) => ReadRecalls(fs, n, off, len, files[n]);
    case TruncateOp(_) =>
  }

  // ---------------------------------------------------------------- the condition is exact

  /** After every allocation and every operation of the run the tree is consistent. */
  ghost predicate RunStaysConsistent(fs: Fs, ops: seq<FileOp>)
    decreases |ops|
  {
    ops == [] || ops[0].n >= |fs.inodes| ||
    ((ops[0].WriteOp? ==> StaysConsistent(fs, ops[0].n, ops[0].off, ops[0].data)) &&
     match Exec(fs, ops[0])
     case None => true
     case Some((fs1, _)) => Consistent(fs1) && RunStaysConsistent(fs1, ops[1..]))
  }

  /** A run that does not halt keeps the tree consistent all along if and only if no zone that it takes for an
      index block names a zone when it is taken. */
  lemma {:induction false} RunNeedsBlankIndex(fs: Fs, ops: seq<FileOp>)
    requires Consistent(fs) && Run(fs, ops).Some?
    ensures RunStaysConsistent(fs, ops) <==> CleanRun(fs, ops)
    decreases |ops|
  {
    hide Consistent, Write, StaysConsistent, CleanWrite, CanRead, Truncate;
    if ops != [] {
      var (fs1, r) := Exec(fs, ops[0]).value;
      match ops[0] {
        case WriteOp(n, off, data) =>
          WriteNeedsBlankIndex(fs, fs1, n, off, data);
          if CleanWrite(fs, n, off, data) {
            RunNeedsBlankIndex(fs1, ops[1..]);
          }
        case ReadOp(n, off, len) => RunNeedsBlankIndex(fs1, ops[1..]);
        case TruncateOp(n) =>
          TruncateConsistent(fs, n);
          RunNeedsBlankIndex(fs1, ops[1..]);
      }
    }
  }

  lemma TruncateConsistent(fs: Fs, n: nat)
    requires Consistent(fs) && n < |fs.inodes|
    ensures Consistent(Truncate(fs, n))
  {
    if FileOrDirectory(fs.inodes[n].mode) {
      TruncateKeepsOthers(fs, Truncate(fs, n), n);
      TruncateLeaksNothing(fs, Truncate(fs, n), n);
    }
  }

  /** Every run that does not halt, on any consistent volume: it gives back what was written, or one of its
      allocations leaves a tree that names a zone twice or names a free one. */
  lemma RunsAreRightExactly(fs: Fs, ops: seq<FileOp>, fs': Fs, rs: seq<FileReply>, files: seq<File>)
    requires Consistent(fs) && AllShow(fs, files) && Run(fs, ops) == Some((fs', rs))
    ensures CleanRun(fs, ops) ==>
      exists files' :: AllShow(fs', files') && HistoryRun(Modes(fs), files, ops, files', rs)
    ensures !CleanRun(fs, ops) ==> !RunStaysConsistent(fs, ops)
  {
    hide Run, CleanRun, AllShow, HistoryRun, RunStaysConsistent;
    RunNeedsBlankIndex(fs, ops);
    if CleanRun(fs, ops) {
      var files' := FilesRememberWrites(fs, ops, fs', rs, files);
    }
  }

  // ---------------------------------------------------------------- files as byte sequences

  function Files(fs: Fs): (r: seq<seq<Byte>>)
    ensures |r| == |fs.inodes| && forall n :: 0 <= n < |r| ==> r[n] == Contents(fs, n)
  {
    seq(|fs.inodes|, n requires 0 <= n < |fs.inodes| => Contents(fs, n))
  }

  function ReadSeq(c: seq<Byte>, off: nat, len: nat): Option<seq<Byte>> {
    if off >= |c| then None else Some(c[off..off + Min(len, |c| - off)])
  }

  /** Every write of the run starts inside its file or at its end. */
  predicate Inside(modes: seq<nat>, sizes: seq<nat>, ops: seq<FileOp>)
    decreases |ops|
  {
    ops == [] || ops[0].n >= |sizes| || |sizes| != |modes| ||
    match ops[0]
    case WriteOp(n, off, data) =>
      off <= sizes[n] && Inside(modes, sizes[n := Grown(sizes[n], off, |data|)], ops[1..])
    case ReadOp(_, _, _) => Inside(modes, sizes, ops[1..])
    case TruncateOp(n) => Inside(modes, if FileOrDirectory(modes[n]) then sizes[n := 0] else sizes, ops[1..])
  }

  /** The same run on plain sequences; truncation spares what is neither a file nor a directory. */
  ghost predicate SeqRun(modes: seq<nat>, files: seq<seq<Byte>>, ops: seq<FileOp>, files': seq<seq<Byte>>,
                         rs: seq<FileReply>)
    decreases |ops|
  {
    if ops == [] then files' == files && rs == []
    else
      && rs != [] && ops[0].n < |files| == |modes|
      && match ops[0] {
        case WriteOp(n, off, data) =>
          off <= |files[n]| && rs[0] == Wrote(|data|)
          && SeqRun(modes, files[n := Splice(files[n], off, data)], ops[1..], files', rs[1..])
        case ReadOp(n, off, len) =>
          rs[0] == Bytes(ReadSeq(files[n], off, len)) && SeqRun(modes, files, ops[1..], files', rs[1..])
        case TruncateOp(n) =>
          rs[0] == Done
          && SeqRun(modes, if FileOrDirectory(modes[n]) then files[n := []] else files, ops[1..], files', rs[1..])
      }
  }

  lemma SplicedFiles(fs: Fs, fs1: Fs, n: nat, off: nat, data: seq<Byte>)
    requires n < |fs.inodes| && off <= fs.inodes[n].size && Spliced(fs, fs1, n, off, data)
    ensures Files(fs1) == Files(fs)[n := Splice(Contents(fs, n), off, data)] && Modes(fs1) == Modes(fs)
  {
    hide Contents, Splice;
  }

  lemma TruncatedFiles(fs: Fs, n: nat)
    requires Sound(fs) && n < |fs.inodes|
    ensures Sound(Truncate(fs, n)) && Modes(Truncate(fs, n)) == Modes(fs)
    ensures Files(Truncate(fs, n)) == if FileOrDirectory(fs.inodes[n].mode) then Files(fs)[n := []] else Files(fs)
  {
    hide Contents, Truncate, Sound;
    if FileOrDirectory(fs.inodes[n].mode) {
      TruncateSound(fs, n);
    }
  }

  /** While no write leaves a gap, every run gives the replies, and leaves the contents, of the same run on byte
      sequences. */
  lemma {:induction false} FilesAreByteSequences(fs: Fs, ops: seq<FileOp>, fs': Fs, rs: seq<FileReply>)
    requires Sound(fs) && CleanRun(fs, ops) && Run(fs, ops) == Some((fs', rs)) && Inside(Modes(fs), Sizes(fs), ops)
    ensures Sound(fs') && SeqRun(Modes(fs), Files(fs), ops, Files(fs'), rs)
    decreases |ops|
  {
    hide Write, Contents, Splice, Truncate, CleanWrite, Sound, CanRead;
    if ops != [] {
      var (fs1, r) := Exec(fs, ops[0]).value;
      OneOperation(fs, ops[0], fs1, r);
      FilesAreByteSequences(fs1, ops[1..], fs', rs[1..]);
    }
  }

  /** One operation, on the volume and on sequences. */
  lemma OneOperation(fs: Fs, op: FileOp, fs1: Fs, r: FileReply)
    requires Sound(fs) && op.n < |fs.inodes| && (op.WriteOp? ==> op.off <= fs.inodes[op.n].size)
    requires Exec(fs, op) == Some((fs1, r))
    requires op.WriteOp? ==> CleanWrite(fs, op.n, op.off, op.data)
    ensures Sound(fs1) && Modes(fs1) == Modes(fs)
    ensures Sizes(fs1) == match op
      case WriteOp(n, off, data) => Sizes(fs)[n := Grown(Sizes(fs)[n], off, |data|)]
      case ReadOp(_, _, _) => Sizes(fs)
      case TruncateOp(n) => if FileOrDirectory(Modes(fs)[n]) then Sizes(fs)[n := 0] else Sizes(fs)
    ensures op.WriteOp? ==>
      r == Wrote(|op.data|) && Files(fs1) == Files(fs)[op.n := Splice(Files(fs)[op.n], op.off, op.data)]
    ensures op.ReadOp? ==> fs1 == fs && r == Bytes(ReadSeq(Files(fs)[op.n], op.off, op.len))
    ensures op.TruncateOp? ==>
      r == Done && Files(fs1) == if FileOrDirectory(Modes(fs)[op.n]) then Files(fs)[op.n := []] else Files(fs)
  {
    hide Write, Contents, Splice, Truncate, CleanWrite, Sound, CanRead;
    match op
    case WriteOp(n, off, data) =>
      WriteSplices(fs, fs1, n, off, data);
      SplicedFiles(fs, fs1, n, off, data);
      SizesOfFiles(fs);
      SizesOfFiles(fs1);
    case ReadOp(n, off, len) => ReadIsReadSeq(fs, n, off, len);
    case TruncateOp(n) =>
      TruncatedFiles(fs, n);
      SizesOfFiles(fs);
      SizesOfFiles(fs1);
  }

  lemma SizesOfFiles(fs: Fs)
    ensures forall m :: 0 <= m < |fs.inodes| ==> Sizes(fs)[m] == |Files(fs)[m]|
  {}

  lemma ReadIsReadSeq(fs: Fs, n: nat, off: nat, len: nat)
    requires n < |fs.inodes|
    ensures Read(fs, n, off, len) == ReadSeq(Files(fs)[n], off, len)
  {}

  /** On a sound volume a read halts for its mode only: it finds no hole. */
  lemma ReadsFindNoHole(fs: Fs, n: nat, off: nat, len: nat)
    requires Sound(fs) && n < |fs.inodes|
    ensures Exec(fs, ReadOp(n, off, len)).None? <==> !FileOrDirectory(fs.inodes[n].mode)
  {
    NoHolesCanRead(fs, n, off, len);
    hide NoHoles, CanRead, HasBlock, Contents;
  }

  // ---------------------------------------------------------------- fresh volumes

  /** No file has a size or a zone. */
  ghost predicate Fresh(fs: Fs) {
    Shaped(fs) && forall n :: 0 <= n < |fs.inodes| ==>
      fs.inodes[n].size == 0 && forall k :: 0 <= k < |fs.inodes[n].zone| ==> fs.inodes[n].zone[k] == 0
  }

  lemma {:induction false} FreshAt(fs: Fs, s: Slot)
    requires Fresh(fs)
    ensures At(fs, s) == 0
    decreases s
  {
    if s.Child? {
      FreshAt(fs, s.parent);
    }
  }

  function EmptyFiles(n: nat): seq<seq<Byte>> {
    seq(n, _ => [])
  }

  /** A fresh volume is where runs may start: it is sound, and every file is empty. */
  lemma FreshIsSound(fs: Fs)
    requires Fresh(fs)
    ensures Sound(fs) && Files(fs) == EmptyFiles(|fs.inodes|)
  {
    forall s
      ensures At(fs, s) == 0
    {
      FreshAt(fs, s);
    }
    hide At;
    assert forall n :: 0 <= n < |fs.inodes| ==> Contents(fs, n) == [];
  }

  /** While the free zones are blank, and until something is truncated, every run is clean. */
  lemma {:induction false} GrowingRunsAreClean(fs: Fs, ops: seq<FileOp>)
    requires Wf(fs) && FreeBlank(fs) && forall i :: 0 <= i < |ops| ==> !ops[i].TruncateOp?
    ensures CleanRun(fs, ops)
    decreases |ops|
  {
    hide Write, FreeBlank, Wf, CleanWrite, CanRead, Stored;
    if ops != [] && ops[0].n < |fs.inodes| {
      if ops[0].WriteOp? {
        BlankWrite(fs, ops[0].n, ops[0].off, ops[0].data);
      }
      if Exec(fs, ops[0]).Some? {
        var (fs1, r) := Exec(fs, ops[0]).value;
        if ops[0].WriteOp? {
          WriteStored(fs, fs1, ops[0].n, ops[0].off, ops[0].data);
        }
        GrowingRunsAreClean(fs1, ops[1..]);
      }
    }
  }

  /** From a fresh volume with blank free zones, runs of reads and writes without gaps are runs on byte sequences,
      with no further condition. */
  lemma FreshFilesAreByteSequences(fs: Fs, ops: seq<FileOp>, fs': Fs, rs: seq<FileReply>)
    requires Fresh(fs) && FreeBlank(fs) && (forall i :: 0 <= i < |ops| ==> !ops[i].TruncateOp?)
    requires Run(fs, ops) == Some((fs', rs)) && Inside(Modes(fs), Sizes(fs), ops)
    ensures Sound(fs') && SeqRun(Modes(fs), EmptyFiles(|fs.inodes|), ops, Files(fs'), rs)
  {
    hide Run, CleanRun, SeqRun, Sound, Fresh, FreeBlank, Files, Modes, EmptyFiles;
    FreshIsSound(fs);
    FreshShows(fs);
    GrowingRunsAreClean(fs, ops);
    FilesAreByteSequences(fs, ops, fs', rs);
  }

  /** There nothing is known of any file. */
  lemma FreshShows(fs: Fs)
    requires Fresh(fs)
    ensures Wf(fs) && AllShow(fs, seq(|fs.inodes|, _ => File({}, [])))
  {
    FreshIsSound(fs);
    forall s
      ensures At(fs, s) == 0
    {
      FreshAt(fs, s);
    }
    hide At;
  }

  /** From a fresh volume with blank free zones every run of reads and of writes from any offset gives back what was
      written, with no further condition. */
  lemma FreshFilesRemember(fs: Fs, ops: seq<FileOp>, fs': Fs, rs: seq<FileReply>) returns (files': seq<File>)
    requires Fresh(fs) && FreeBlank(fs) && (forall i :: 0 <= i < |ops| ==> !ops[i].TruncateOp?)
    requires Run(fs, ops) == Some((fs', rs))
    ensures Wf(fs') && AllShow(fs', files')
    ensures HistoryRun(Modes(fs), seq(|fs.inodes|, _ => File({}, [])), ops, files', rs)
  {
    hide Run, CleanRun, HistoryRun, Wf, Fresh, FreeBlank, AllShow, Modes;
    FreshShows(fs);
    GrowingRunsAreClean(fs, ops);
    files' := FilesRememberWrites(fs, ops, fs', rs, seq(|fs.inodes|, _ => File({}, [])));
  }
}
