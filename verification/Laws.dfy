/**
 What each operation does for a caller, in terms of its arguments and of the free
 blocks alone, and what some of them do one after the other.
 */
module Laws {
  import opened AbstractFs
  import opened Bits
  import opened ByteFile
  import opened Chains
  import opened Effects
  import opened FileSystem
  import opened Layout
  import opened Session

  ghost predicate Step(s: Snapshot, a: Abs, op: Op, reply: Reply, s2: Snapshot) {
    Right(a, op, reply) && StepOk(s, a, op, reply, s2)
  }

  lemma FreeIsPositive(s: Snapshot)
    ensures FreeOf(s) >= 0
  {
    hide FreeCount;
    FreeCountPositive(MapOf(s.d));
  }

  // ---- one operation ----

  /** A new name is the last of the listing then; a known one changes nothing. Only a full disk stops a new one. */
  lemma MkdirLaw(s: Snapshot, a: Abs, dir: string, reply: Reply, s2: Snapshot)
    requires Step(s, a, MkdirOp(dir), reply, s2)
    ensures var b := Apply(a, MkdirOp(dir), reply);
      && (reply.Refused? <==> dir !in a.dirs && FreeOf(s) == 0)
      && (dir in a.dirs ==> reply == Done(-1) && b == a)
      && (dir !in a.dirs && FreeOf(s) > 0 ==> reply == Done(0) && b == a.(dirs := a.dirs + [dir]) && FreeOf(s2) == FreeOf(s) - 1)
      && (reply.Refused? ==> b == a && s2 == s)
  {
    hide FreeOf, Logged;
    FreeIsPositive(s);
  }

  /** An empty directory leaves the listing, the others stay in order; a directory with a file is not asked for. */
  lemma RmdirLaw(s: Snapshot, a: Abs, dir: string, reply: Reply, s2: Snapshot)
    requires Step(s, a, RmdirOp(dir), reply, s2)
    ensures var b := Apply(a, RmdirOp(dir), reply);
      && (reply.Refused? <==> exists name :: (dir, name) in a.files)
      && (!reply.Refused? && dir !in a.dirs ==> reply == Done(-1) && b == a && FreeOf(s2) == FreeOf(s))
      && (!reply.Refused? && dir in a.dirs ==>
        && reply == Done(0) && FreeOf(s2) == FreeOf(s) + 1
        && exists i :: 0 <= i < |a.dirs| && a.dirs[i] == dir && b == a.(dirs := a.dirs[..i] + a.dirs[i + 1..]))
      && (reply.Refused? ==> b == a && s2 == s)
  {
    hide FreeOf, Logged, FilesIn, WithoutName;
    FreeIsPositive(s);
    SomeFileIn(a, dir);
    if dir in a.dirs {
      var i := FirstOf(a.dirs, dir);
      WithoutAt(a.dirs, i);
    } else {
      RemoveNothing(a.dirs, dir);
    }
  }

  lemma {:induction false} FirstOf(s: seq<string>, x: string) returns (i: nat)
    requires x in s
    ensures i < |s| && s[i] == x && forall k | 0 <= k < i :: s[k] != x
    decreases |s|
  {
    if s[0] == x {
      i := 0;
    } else {
      assert s == [s[0]] + s[1..];
      var j := FirstOf(s[1..], x);
      i := j + 1;
      forall k | 0 <= k < i
        ensures s[k] != x
      {
        assert k == 0 || s[k] == s[1..][k - 1];
      }
    }
  }

  /** All descriptors of the table are open or stale. */
  ghost predicate TableFull(a: Abs) {
    forall k: int | 0 <= k < MAX_OPENED_FILES :: k in a.fds || k in a.stale
  }

  /**
   With the table full the answer is -1. Else the directory has to be there, and a
   new file needs one of its 97 slots and three blocks; the first free descriptor
   stands at the beginning of the file then, which is empty if it is new.
   */
  lemma OpenLaw(s: Snapshot, a: Abs, dir: string, name: string, reply: Reply, s2: Snapshot)
    requires Step(s, a, OpenOp(dir, name), reply, s2)
    ensures var b := Apply(a, OpenOp(dir, name), reply);
      && (reply.Refused? <==> (!TableFull(a)
        && (dir !in a.dirs || ((dir, name) !in a.files && (|set p | p in a.files && p.0 == dir| >= 97 || FreeOf(s) < 3)))))
      && (TableFull(a) ==> reply == Done(-1) && b == a && FreeOf(s2) == FreeOf(s))
      && (!TableFull(a) && !reply.Refused? ==>
        && reply.Done? && 0 <= reply.code < MAX_OPENED_FILES && reply.code !in a.fds && reply.code !in a.stale
        && (forall k: int | 0 <= k < reply.code :: k in a.fds || k in a.stale)
        && b == a.(files := if (dir, name) in a.files then a.files else a.files[(dir, name) := []],
                   fds := a.fds[reply.code := OpenFile((dir, name), 0)])
        && FreeOf(s2) == FreeOf(s) - if (dir, name) in a.files then 0 else 3)
      && (reply.Refused? ==> b == a && s2 == s)
  {
    hide FreeOf, Logged, FirstIdle;
    FreeIsPositive(s);
    IsFull(a);
  }

  lemma IsFull(a: Abs)
    ensures AllBusy(a) <==> TableFull(a)
    ensures forall k: int | 0 <= k < FirstIdle(a, 0) :: k in a.fds || k in a.stale
    ensures FirstIdle(a, 0) < MAX_OPENED_FILES ==> FirstIdle(a, 0) !in a.fds && FirstIdle(a, 0) !in a.stale
  {
    forall k: int | 0 <= k < FirstIdle(a, 0)
      ensures k in a.fds || k in a.stale
    {
      assert Busy(a, k);
    }
  }

  /** Any descriptor of the table can be closed, and is free then. */
  lemma CloseLaw(s: Snapshot, a: Abs, fd: int, reply: Reply, s2: Snapshot)
    requires Step(s, a, CloseOp(fd), reply, s2)
    ensures var b := Apply(a, CloseOp(fd), reply);
      && (reply.Refused? <==> fd < 0 || fd >= 32)
      && (0 <= fd < 32 ==> reply == Done(0) && b == a.(fds := a.fds - {fd}, stale := a.stale - {fd}) && FreeOf(s2) == FreeOf(s))
      && (reply.Refused? ==> b == a && s2 == s)
  {
    hide FreeOf, Logged;
    FreeIsPositive(s);
  }

  /** An open descriptor writes, as long as the blocks that takes are free, over the file's bytes from its cursor on, which moves behind them. */
  lemma WriteLaw(s: Snapshot, a: Abs, fd: int, bytes: seq<byte>, reply: Reply, s2: Snapshot)
    requires WellFormed(a) && Step(s, a, WriteOp(fd, bytes), reply, s2)
    ensures var b := Apply(a, WriteOp(fd, bytes), reply);
      && (reply.Refused? <==> fd !in a.fds || FreeOf(s) < WriteNeeds(FileAt(s.t, a.fds[fd].path), a.fds[fd].cur, |bytes|))
      && (!reply.Refused? ==>
        var path, cur := a.fds[fd].path, a.fds[fd].cur;
        && reply == Done(|bytes|) && path in a.files
        && b == a.(files := a.files[path := Overwrite(a.files[path], cur, bytes)], fds := a.fds[fd := OpenFile(path, cur + |bytes|)])
        && FreeOf(s2) == FreeOf(s) - WriteNeeds(FileAt(s.t, path), cur, |bytes|))
      && (reply.Refused? ==> b == a && s2 == s)
  {
    hide FreeOf, Logged, WriteNeeds, Overwrite;
    FreeIsPositive(s);
  }

  /** An open descriptor reads, as long as the blocks that takes are free, and its cursor moves behind what it gets. */
  lemma ReadLaw(s: Snapshot, a: Abs, fd: int, length: nat, reply: Reply, s2: Snapshot)
    requires WellFormed(a) && Step(s, a, ReadOp(fd, length), reply, s2)
    ensures var b := Apply(a, ReadOp(fd, length), reply);
      && (reply.Refused? <==> fd !in a.fds || FreeOf(s) < ReadNeeds(FileAt(s.t, a.fds[fd].path), a.fds[fd].cur, length))
      && (!reply.Refused? ==>
        var path, cur := a.fds[fd].path, a.fds[fd].cur;
        && path in a.files && reply.Got?
        && (cur + length <= |a.files[path]| ==> reply.bytes == a.files[path][cur..cur + length])
        && (cur < |a.files[path]| <= cur + length ==> reply.bytes == a.files[path][cur..])
        && (cur >= |a.files[path]| ==> reply.bytes == [])
        && b == a.(fds := a.fds[fd := OpenFile(path, cur + |reply.bytes|)]))
      && (reply.Refused? ==> b == a && s2 == s)
  {
    hide FreeOf, Logged, Paid, ReadNeeds, ReadAt;
    FreeIsPositive(s);
    if fd in a.fds && a.fds[fd].path in a.files {
      ReadGives(a.files[a.fds[fd].path], a.fds[fd].cur, length);
    }
  }

  /** An open descriptor's cursor goes to a place counted from the beginning, from where it is, or from the end; never before the beginning. */
  lemma SeekLaw(s: Snapshot, a: Abs, fd: int, relative: int, loc: Whence, reply: Reply, s2: Snapshot)
    requires WellFormed(a) && Step(s, a, SeekOp(fd, relative, loc), reply, s2)
    ensures var b := Apply(a, SeekOp(fd, relative, loc), reply);
      && (reply.Refused? <==> fd !in a.fds)
      && (fd in a.fds ==>
        && reply == Done(0) && a.fds[fd].path in a.files && fd in b.fds
        && b == a.(fds := a.fds[fd := OpenFile(a.fds[fd].path, b.fds[fd].cur)])
        && (loc == SeekSet ==> b.fds[fd].cur == if relative < 0 then 0 else relative)
        && (loc == SeekCur ==> b.fds[fd].cur == if a.fds[fd].cur + relative < 0 then 0 else a.fds[fd].cur + relative)
        && (loc == SeekEnd ==> var end := |a.files[a.fds[fd].path]|; b.fds[fd].cur == if end + relative < 0 then 0 else end + relative)
        && FreeOf(s2) == FreeOf(s))
      && (reply.Refused? ==> b == a && s2 == s)
  {
    hide FreeOf, Logged;
    FreeIsPositive(s);
  }

  /** An open descriptor's file goes, and its descriptors become stale. */
  lemma RemoveLaw(s: Snapshot, a: Abs, fd: int, reply: Reply, s2: Snapshot)
    requires WellFormed(a) && Step(s, a, RemoveOp(fd), reply, s2)
    ensures var b := Apply(a, RemoveOp(fd), reply);
      && (reply.Refused? <==> fd !in a.fds)
      && (fd in a.fds ==>
        var path := a.fds[fd].path;
        && reply == Done(0) && path in a.files && b.files == a.files - {path} && b.dirs == a.dirs
        && (forall k :: k in b.fds <==> k in a.fds && a.fds[k].path != path)
        && (forall k | k in b.fds :: b.fds[k] == a.fds[k])
        && (forall k :: k in b.stale <==> k in a.stale || (k in a.fds && a.fds[k].path == path)))
      && (reply.Refused? ==> b == a && s2 == s)
  {
    hide FreeOf, Logged, Paid;
    FreeIsPositive(s);
  }

  // ---- operations one after the other ----

  /** With n free blocks, n directories of new, different names are all made, and the listing ends with their names. */
  lemma {:induction false} ManyMkdirs(a: Abs, run: seq<Event>, snaps: seq<Snapshot>, names: seq<string>)
    requires RightRun(a, run) && StepsOk(a, run, snaps) && |run| == |names| && FreeOf(snaps[0]) >= |names|
    requires forall i | 0 <= i < |run| :: run[i].op == MkdirOp(names[i])
    requires forall i | 0 <= i < |names| :: names[i] !in a.dirs
    requires forall i, j | 0 <= i < j < |names| :: names[i] != names[j]
    ensures forall i | 0 <= i < |run| :: run[i].reply == Done(0)
    ensures After(a, run) == a.(dirs := a.dirs + names) && FreeOf(snaps[|run|]) == FreeOf(snaps[0]) - |names|
    decreases |run|
  {
    hide Right, StepOk, FreeOf, Apply, After, RightRun, StepsOk;
    SnapsAre(a, run, snaps);
    if run != [] {
      var n := |run| - 1;
      RunPrefix(a, run, snaps, n);
      ManyMkdirs(a, run[..n], snaps[..n + 1], names[..n]);
      var b := After(a, run[..n]);
      MkdirLaw(snaps[n], b, names[n], run[n].reply, snaps[n + 1]);
      AfterLast(a, run);
      assert names == names[..n] + [names[n]];
      assert a.dirs + names == (a.dirs + names[..n]) + [names[n]];
      assert forall i | 0 <= i < n :: run[..n][i] == run[i];
    } else {
      assert a.dirs + names == a.dirs;
    }
  }

  lemma SnapsAre(a: Abs, run: seq<Event>, snaps: seq<Snapshot>)
    requires StepsOk(a, run, snaps)
    ensures |snaps| == |run| + 1 && After(a, []) == a
  {
  }

  lemma AfterLast(a: Abs, run: seq<Event>)
    requires run != []
    ensures var n := |run| - 1; After(a, run) == Apply(After(a, run[..n]), run[n].op, run[n].reply)
  {
  }

  lemma RunPrefix(a: Abs, run: seq<Event>, snaps: seq<Snapshot>, n: nat)
    requires RightRun(a, run) && StepsOk(a, run, snaps) && n < |run|
    ensures RightRun(a, run[..n]) && StepsOk(a, run[..n], snaps[..n + 1])
    ensures Right(After(a, run[..n]), run[n].op, run[n].reply) && StepOk(snaps[n], After(a, run[..n]), run[n].op, run[n].reply, snaps[n + 1])
  {
    hide Right, StepOk, After, RightRun;
    RightPrefix(a, run, n);
    forall i | 0 <= i < n
      ensures StepOk(snaps[..n + 1][i], After(a, run[..n][..i]), run[..n][i].op, run[..n][i].reply, snaps[..n + 1][i + 1])
    {
      assert run[..n][..i] == run[..i];
    }
  }

  /** What a descriptor's reads have given, put together. */
  function Joined(run: seq<Event>): seq<byte>
    requires forall i | 0 <= i < |run| :: run[i].reply.Got?
  {
    if run == [] then [] else Joined(run[..|run| - 1]) + run[|run| - 1].reply.bytes
  }

  function Lengths(run: seq<Event>): (s: seq<nat>)
    requires forall i | 0 <= i < |run| :: run[i].op.ReadOp?
    ensures |s| == |run| && forall i | 0 <= i < |run| :: s[i] == run[i].op.length
  {
    seq(|run|, i requires 0 <= i < |run| => run[i].op.length)
  }

  /** Reading a file piece by piece gives its bytes from the cursor on, up to the end. */
  lemma {:induction false} ReadsJoin(a: Abs, run: seq<Event>, fd: int)
    requires RightRun(a, run) && fd in a.fds && a.fds[fd].path in a.files
    requires forall i | 0 <= i < |run| :: run[i].op.ReadOp? && run[i].op.fd == fd && !run[i].reply.Refused?
    ensures forall i | 0 <= i < |run| :: run[i].reply.Got?
    ensures var s, cur, total := a.files[a.fds[fd].path], a.fds[fd].cur, Sum(Lengths(run));
      && (cur + total <= |s| ==> Joined(run) == s[cur..cur + total])
      && (cur <= |s| <= cur + total ==> Joined(run) == s[cur..])
      && (cur >= |s| ==> Joined(run) == [])
    ensures After(a, run) == a.(fds := a.fds[fd := OpenFile(a.fds[fd].path, a.fds[fd].cur + |Joined(run)|)])
    decreases |run|
  {
    ReadsArePieces(a, run, fd);
    PiecesJoin(a.files[a.fds[fd].path], a.fds[fd].cur, Lengths(run));
  }

  lemma {:induction false} ReadsArePieces(a: Abs, run: seq<Event>, fd: int)
    requires RightRun(a, run) && fd in a.fds && a.fds[fd].path in a.files
    requires forall i | 0 <= i < |run| :: run[i].op.ReadOp? && run[i].op.fd == fd && !run[i].reply.Refused?
    ensures forall i | 0 <= i < |run| :: run[i].reply.Got?
    ensures Joined(run) == ReadPieces(a.files[a.fds[fd].path], a.fds[fd].cur, Lengths(run))
    ensures After(a, run) == a.(fds := a.fds[fd := OpenFile(a.fds[fd].path, a.fds[fd].cur + |Joined(run)|)])
    decreases |run|
  {
    hide ReadAt, Right, Apply, After, RightRun, Lengths;
    LengthsAre(run);
    if run != [] {
      var n := |run| - 1;
      RightPrefix(a, run, n);
      assert forall i | 0 <= i < n :: run[..n][i] == run[i];
      ReadsArePieces(a, run[..n], fd);
      OneRead(After(a, run[..n]), fd, run[n]);
      AfterLast(a, run);
    } else {
      assert After(a, run) == a by { NoSteps(a); }
      assert a.fds[fd := OpenFile(a.fds[fd].path, a.fds[fd].cur)] == a.fds;
    }
  }

  lemma LengthsAre(run: seq<Event>)
    requires forall i | 0 <= i < |run| :: run[i].op.ReadOp?
    ensures |Lengths(run)| == |run|
    ensures run != [] ==> var n := |run| - 1; Lengths(run)[n] == run[n].op.length && (forall i | 0 <= i < n :: run[..n][i].op.ReadOp?) && Lengths(run)[..n] == Lengths(run[..n])
  {
  }

  lemma NoSteps(a: Abs)
    ensures After(a, []) == a
  {
  }

  lemma RightPrefix(a: Abs, run: seq<Event>, n: nat)
    requires RightRun(a, run) && n < |run|
    ensures RightRun(a, run[..n]) && Right(After(a, run[..n]), run[n].op, run[n].reply)
  {
    hide Right, After;
    forall i | 0 <= i < n
      ensures Right(After(a, run[..n][..i]), run[..n][i].op, run[..n][i].reply)
    {
      assert run[..n][..i] == run[..i];
    }
  }

  lemma OneRead(a: Abs, fd: int, e: Event)
    requires Right(a, e.op, e.reply) && e.op.ReadOp? && e.op.fd == fd && !e.reply.Refused?
    ensures fd in a.fds && a.fds[fd].path in a.files
    ensures e.reply == Got(ReadAt(a.files[a.fds[fd].path], a.fds[fd].cur, e.op.length))
    ensures Apply(a, e.op, e.reply) == a.(fds := a.fds[fd := OpenFile(a.fds[fd].path, a.fds[fd].cur + |e.reply.bytes|)])
  {
  }

  /** Seeking to the end and writing appends. */
  lemma SeekEndAppends(a: Abs, fd: int, bytes: seq<byte>, run: seq<Event>)
    requires RightRun(a, run) && |run| == 2 && fd in a.fds && a.fds[fd].path in a.files
    requires run[0].op == SeekOp(fd, 0, SeekEnd) && run[1].op == WriteOp(fd, bytes)
    requires !run[0].reply.Refused? && !run[1].reply.Refused?
    ensures var path := a.fds[fd].path; After(a, run).files == a.files[path := a.files[path] + bytes]
  {
    hide Overwrite, After, Right, RightRun;
    TwoSteps(a, run);
    OverwriteAtEnd(a.files[a.fds[fd].path], bytes);
  }

  lemma OverwriteAtEnd(s: seq<byte>, bytes: seq<byte>)
    ensures Overwrite(s, |s|, bytes) == s + bytes
  {
  }

  lemma TwoSteps(a: Abs, run: seq<Event>)
    requires RightRun(a, run) && |run| >= 2
    ensures Right(a, run[0].op, run[0].reply)
    ensures var b := Apply(a, run[0].op, run[0].reply);
      && Right(b, run[1].op, run[1].reply)
      && (|run| == 2 ==> After(a, run) == Apply(b, run[1].op, run[1].reply))
      && (|run| == 3 ==> Right(Apply(b, run[1].op, run[1].reply), run[2].op, run[2].reply))
  {
    hide Right, Apply;
    assert run[..0] == [];
    assert run[..1] == [run[0]] && run[..1][..0] == [];
    assert run[..2][..1] == run[..1];
    if |run| == 2 {
      assert run[..2] == run;
    }
  }

  /** Writing, going back by as much, and reading gives the bytes back. */
  lemma WriteBackRead(a: Abs, fd: int, bytes: seq<byte>, run: seq<Event>)
    requires RightRun(a, run) && |run| == 3 && fd in a.fds && a.fds[fd].path in a.files
    requires run[0].op == WriteOp(fd, bytes) && run[1].op == SeekOp(fd, -|bytes|, SeekCur) && run[2].op == ReadOp(fd, |bytes|)
    requires forall i | 0 <= i < 3 :: !run[i].reply.Refused?
    ensures run[2].reply == Got(bytes)
  {
    hide Overwrite, ReadAt;
    TwoSteps(a, run);
    ReadBack(a.files[a.fds[fd].path], a.fds[fd].cur, bytes);
  }

  /** From before the beginning, counted from anywhere, a read begins at byte 0. */
  lemma BeforeBeginning(a: Abs, fd: int, relative: int, loc: Whence, length: nat, run: seq<Event>)
    requires RightRun(a, run) && |run| == 2 && fd in a.fds && a.fds[fd].path in a.files
    requires run[0].op == SeekOp(fd, relative, loc) && run[1].op == ReadOp(fd, length)
    requires !run[0].reply.Refused? && !run[1].reply.Refused?
    requires relative < 0 && (loc == SeekCur ==> a.fds[fd].cur + relative < 0) && (loc == SeekEnd ==> |a.files[a.fds[fd].path]| + relative < 0)
    ensures var s := a.files[a.fds[fd].path];
      run[1].reply == Got(if length <= |s| then s[..length] else s)
  {
    TwoSteps(a, run);
    ReadGives(a.files[a.fds[fd].path], 0, length);
  }
}
