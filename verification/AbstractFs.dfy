/**
 The file system as its callers see it: a list of directory names, files that
 are byte sequences under a directory and a name, and descriptors with cursors.
 */
module AbstractFs {
  import opened ByteFile
  import opened FileSystem
  import opened Layout

  type Path = (string, string)

  datatype OpenFile = OpenFile(path: Path, cur: nat)

  /** The stale descriptors are in use, but their files have been removed. */
  datatype Abs = Abs(dirs: seq<string>, files: map<Path, seq<byte>>, fds: map<int, OpenFile>, stale: set<int>)

  datatype Op =
    | MkdirOp(dir: string)
    | RmdirOp(dir: string)
    | OpenOp(dir: string, name: string)
    | CloseOp(fd: int)
    | WriteOp(fd: int, bytes: seq<byte>)
    | ReadOp(fd: int, length: nat)
    | SeekOp(fd: int, relative: int, loc: Whence)
    | RemoveOp(fd: int)

  /** Refused: the caller may not ask for this now; the file system is not called. */
  datatype Reply = Refused | Done(code: int) | Got(bytes: seq<byte>)

  function WithoutName(s: seq<string>, x: string): seq<string> {
    if s == [] then [] else if s[0] == x then s[1..] else [s[0]] + WithoutName(s[1..], x)
  }

  /** The state after an operation that gave this reply. */
  function Apply(a: Abs, op: Op, reply: Reply): Abs {
    if reply.Refused? then a else
      match op
      case MkdirOp(dir) => if dir in a.dirs then a else a.(dirs := a.dirs + [dir])
      case RmdirOp(dir) => a.(dirs := WithoutName(a.dirs, dir))
      case OpenOp(dir, name) =>
        if !reply.Done? || reply.code < 0 then a else
          a.(files := if (dir, name) in a.files then a.files else a.files[(dir, name) := []],
             fds := a.fds[reply.code := OpenFile((dir, name), 0)])
      case CloseOp(fd) => a.(fds := a.fds - {fd}, stale := a.stale - {fd})
      case WriteOp(fd, bytes) =>
        if fd !in a.fds || a.fds[fd].path !in a.files then a else
          var o := a.fds[fd];
          a.(files := a.files[o.path := Overwrite(a.files[o.path], o.cur, bytes)],
             fds := a.fds[fd := o.(cur := o.cur + |bytes|)])
      case ReadOp(fd, length) =>
        if fd !in a.fds || !reply.Got? then a else
          a.(fds := a.fds[fd := a.fds[fd].(cur := a.fds[fd].cur + |reply.bytes|)])
      case SeekOp(fd, relative, loc) =>
        if fd !in a.fds || a.fds[fd].path !in a.files then a else
          a.(fds := a.fds[fd := a.fds[fd].(cur := Target(a, fd, relative, loc))])
      case RemoveOp(fd) =>
        if fd !in a.fds then a else
          var path := a.fds[fd].path;
          a.(files := a.files - {path},
             fds := map k | k in a.fds && a.fds[k].path != path :: a.fds[k],
             stale := a.stale + set k | k in a.fds && a.fds[k].path == path)
  }

  function Target(a: Abs, fd: int, relative: int, loc: Whence): nat
    requires fd in a.fds && a.fds[fd].path in a.files
  {
    var base := match loc
      case SeekSet => 0
      case SeekCur => a.fds[fd].cur
      case SeekEnd => |a.files[a.fds[fd].path]|;
    if base + relative < 0 then 0 else base + relative
  }

  predicate Busy(a: Abs, fd: int) {
    fd in a.fds || fd in a.stale
  }

  /** The first descriptor from number k on that is not in use; 32 when there is none. */
  function FirstIdle(a: Abs, k: nat): (fd: nat)
    requires k <= MAX_OPENED_FILES
    ensures k <= fd <= MAX_OPENED_FILES
    ensures forall h | k <= h < fd :: Busy(a, h)
    ensures fd < MAX_OPENED_FILES ==> !Busy(a, fd)
    decreases MAX_OPENED_FILES - k
  {
    if k == MAX_OPENED_FILES || !Busy(a, k) then k else FirstIdle(a, k + 1)
  }

  predicate AllBusy(a: Abs) {
    FirstIdle(a, 0) == MAX_OPENED_FILES
  }

  /** The reply is the right one. */
  ghost predicate Right(a: Abs, op: Op, reply: Reply) {
    reply.Refused? ||
    match op
    case MkdirOp(dir) => reply == Done(if dir in a.dirs then -1 else 0)
    case RmdirOp(dir) => reply == Done(if dir in a.dirs then 0 else -1) && FilesIn(a, dir) == {}
    case OpenOp(dir, name) =>
      if AllBusy(a) then reply == Done(-1) else dir in a.dirs && reply == Done(FirstIdle(a, 0))
    case CloseOp(fd) => reply == Done(0) && 0 <= fd < MAX_OPENED_FILES
    case WriteOp(fd, bytes) => reply == Done(|bytes|) && fd in a.fds
    case ReadOp(fd, length) =>
      fd in a.fds && a.fds[fd].path in a.files && reply == Got(ReadAt(a.files[a.fds[fd].path], a.fds[fd].cur, length))
    case SeekOp(fd, _, _) => reply == Done(0) && fd in a.fds
    case RemoveOp(fd) => reply == Done(0) && fd in a.fds
  }

  /** The files in a directory. */
  ghost function FilesIn(a: Abs, dir: string): set<Path> {
    set p | p in a.files && p.0 == dir
  }

  /** The caller may not ask for this, however many blocks are free. */
  ghost predicate MayRefuse(a: Abs, op: Op) {
    match op
    case MkdirOp(_) => false
    case RmdirOp(dir) => FilesIn(a, dir) != {}
    case OpenOp(dir, name) => !AllBusy(a) && (dir !in a.dirs || ((dir, name) !in a.files && |FilesIn(a, dir)| >= NINODES))
    case CloseOp(fd) => !(0 <= fd < MAX_OPENED_FILES)
    case WriteOp(fd, _) => fd !in a.fds
    case ReadOp(fd, _) => fd !in a.fds
    case SeekOp(fd, _, _) => fd !in a.fds
    case RemoveOp(fd) => fd !in a.fds
  }

  /** Directory names are unique, every file is in a directory that exists, and every open file exists. */
  ghost predicate WellFormed(a: Abs) {
    && NoRepeats(a.dirs)
    && (forall k | Busy(a, k) :: 0 <= k < MAX_OPENED_FILES && !(k in a.fds && k in a.stale))
    && (forall k | k in a.fds :: a.fds[k].path in a.files)
    && (forall p | p in a.files :: p.0 in a.dirs)
  }

  predicate NoRepeats(s: seq<string>) {
    forall i, j | 0 <= i < j < |s| :: s[i] != s[j]
  }

  /** Taking a name out of a list takes out just that name. */
  lemma {:induction false} WithoutNameIs(s: seq<string>, x: string)
    requires NoRepeats(s)
    ensures NoRepeats(WithoutName(s, x))
    ensures forall y :: y in WithoutName(s, x) <==> y in s && y != x
    decreases |s|
  {
    hide NoRepeats;
    if s == [] {
      Single([]);
    } else {
      assert s == [s[0]] + s[1..];
      FrontOf(s[0], s[1..]);
      if s[0] != x {
        WithoutNameIs(s[1..], x);
        FrontOf(s[0], WithoutName(s[1..], x));
      }
    }
  }

  lemma Single(s: seq<string>)
    requires |s| <= 1
    ensures NoRepeats(s)
  {
  }

  lemma FrontOf(x: string, s: seq<string>)
    ensures forall y :: y in [x] + s <==> y == x || y in s
    ensures NoRepeats([x] + s) <==> x !in s && NoRepeats(s)
  {
    var t := [x] + s;
    assert forall i | 0 <= i < |s| :: t[i + 1] == s[i];
    if NoRepeats(t) {
      forall i | 0 <= i < |s|
        ensures s[i] != x
      {
        assert t[i + 1] != t[0];
      }
      forall i, j | 0 <= i < j < |s|
        ensures s[i] != s[j]
      {
        assert t[i + 1] != t[j + 1];
      }
    }
  }

  lemma StaysWellFormed(a: Abs, op: Op, reply: Reply)
    requires WellFormed(a) && Right(a, op, reply)
    ensures WellFormed(Apply(a, op, reply))
  {
    hide WithoutName, Overwrite;
    if op.RmdirOp? && !reply.Refused? {
      WithoutNameIs(a.dirs, op.dir);
      forall p | p in a.files
        ensures p.0 != op.dir
      {
        assert p !in FilesIn(a, op.dir);
      }
    }
  }

  /** Every run of right replies keeps the state well formed. */
  lemma {:induction false} RunWellFormed(a: Abs, run: seq<Event>)
    requires WellFormed(a) && RightRun(a, run)
    ensures WellFormed(After(a, run))
    decreases |run|
  {
    hide WellFormed, Right, Apply;
    if run != [] {
      var n := |run| - 1;
      forall i | 0 <= i < n
        ensures Right(After(a, run[..n][..i]), run[..n][i].op, run[..n][i].reply)
      {
        assert run[..n][..i] == run[..i];
      }
      RunWellFormed(a, run[..n]);
      StaysWellFormed(After(a, run[..n]), run[n].op, run[n].reply);
    }
  }

  // ---- runs ----

  datatype Event = Event(op: Op, reply: Reply)

  function After(a: Abs, run: seq<Event>): Abs {
    if run == [] then a else
      var e := run[|run| - 1];
      Apply(After(a, run[..|run| - 1]), e.op, e.reply)
  }

  ghost predicate RightRun(a: Abs, run: seq<Event>) {
    forall i | 0 <= i < |run| :: Right(After(a, run[..i]), run[i].op, run[i].reply)
  }

  /** The operation, in state a, neither writes nor removes the file at the path. */
  ghost predicate Spares(a: Abs, op: Op, path: Path) {
    match op
    case WriteOp(fd, _) => fd !in a.fds || a.fds[fd].path != path
    case RemoveOp(fd) => fd !in a.fds || a.fds[fd].path != path
    case _ => true
  }

  /** Operations that spare a file leave its contents. */
  lemma {:induction false} Isolation(a: Abs, run: seq<Event>, path: Path)
    requires path in a.files
    requires forall i | 0 <= i < |run| :: Spares(After(a, run[..i]), run[i].op, path)
    ensures path in After(a, run).files && After(a, run).files[path] == a.files[path]
    decreases |run|
  {
    hide Apply, Spares;
    if run != [] {
      var n := |run| - 1;
      forall i | 0 <= i < n
        ensures Spares(After(a, run[..n][..i]), run[..n][i].op, path)
      {
        assert run[..n][..i] == run[..i];
      }
      Isolation(a, run[..n], path);
      SparedOnce(After(a, run[..n]), run[n].op, run[n].reply, path);
    }
  }

  lemma SparedOnce(a: Abs, op: Op, reply: Reply, path: Path)
    requires path in a.files && Spares(a, op, path)
    ensures path in Apply(a, op, reply).files && Apply(a, op, reply).files[path] == a.files[path]
  {
  }

  /** The operation does not use the descriptor and does not remove its file. */
  ghost predicate LeavesFd(a: Abs, op: Op, fd: int) {
    match op
    case CloseOp(g) => g != fd
    case WriteOp(g, _) => g != fd
    case ReadOp(g, _) => g != fd
    case SeekOp(g, _, _) => g != fd
    case RemoveOp(g) => g != fd && (g !in a.fds || fd !in a.fds || a.fds[g].path != a.fds[fd].path)
    case _ => true
  }

  lemma {:induction false} FdStays(a: Abs, run: seq<Event>, fd: int)
    requires fd in a.fds && RightRun(a, run)
    requires forall i | 0 <= i < |run| :: LeavesFd(After(a, run[..i]), run[i].op, fd)
    ensures fd in After(a, run).fds && After(a, run).fds[fd] == a.fds[fd]
    decreases |run|
  {
    if run != [] {
      var n := |run| - 1;
      forall i | 0 <= i < n
        ensures LeavesFd(After(a, run[..n][..i]), run[..n][i].op, fd)
        ensures Right(After(a, run[..n][..i]), run[..n][i].op, run[..n][i].reply)
      {
        assert run[..n][..i] == run[..i];
      }
      FdStays(a, run[..n], fd);
      assert Right(After(a, run[..n]), run[n].op, run[n].reply);
      assert LeavesFd(After(a, run[..n]), run[n].op, fd);
    }
  }

  /**
     What was written at a cursor is read back there after any operations that
     neither touch the file nor use the descriptor, a seek back, and a read.
   */
  lemma WriteSeekRead(a: Abs, fd: int, bytes: seq<byte>, run: seq<Event>, reply: Reply)
    requires fd in a.fds && a.fds[fd].path in a.files
    requires var b := Apply(a, WriteOp(fd, bytes), Done(|bytes|));
      && RightRun(b, run)
      && (forall i | 0 <= i < |run| :: Spares(After(b, run[..i]), run[i].op, a.fds[fd].path) && LeavesFd(After(b, run[..i]), run[i].op, fd))
      && var c := Apply(After(b, run), SeekOp(fd, a.fds[fd].cur, SeekSet), Done(0));
        Right(c, ReadOp(fd, |bytes|), reply) && !reply.Refused?
    ensures reply == Got(bytes)
  {
    hide Apply, After, Right, Overwrite, Spares, LeavesFd;
    var path, cur := a.fds[fd].path, a.fds[fd].cur;
    var b := Apply(a, WriteOp(fd, bytes), Done(|bytes|));
    AfterWrite(a, fd, bytes);
    Isolation(b, run, path);
    FdStays(b, run, fd);
    SeekAndRead(After(b, run), fd, cur, |bytes|, reply);
    ReadBack(a.files[path], cur, bytes);
  }

  lemma AfterWrite(a: Abs, fd: int, bytes: seq<byte>)
    requires fd in a.fds && a.fds[fd].path in a.files
    ensures var b := Apply(a, WriteOp(fd, bytes), Done(|bytes|)); var o := a.fds[fd];
      && o.path in b.files && b.files[o.path] == Overwrite(a.files[o.path], o.cur, bytes)
      && fd in b.fds && b.fds[fd].path == o.path
  {
  }

  lemma SeekAndRead(a: Abs, fd: int, cur: nat, length: nat, reply: Reply)
    requires fd in a.fds && a.fds[fd].path in a.files
    requires Right(Apply(a, SeekOp(fd, cur, SeekSet), Done(0)), ReadOp(fd, length), reply) && !reply.Refused?
    ensures reply == Got(ReadAt(a.files[a.fds[fd].path], cur, length))
  {
  }
}
