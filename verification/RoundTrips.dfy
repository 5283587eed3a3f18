/** Whole journeys of a file: written, modified, delivered and pulled; and that each of these steps can be taken. */
module RoundTrips {
  import opened Client
  import opened Common
  import opened NameNode
  import opened Protocol
  import opened RoundRobin
  import opened Wire

  // ---- a modified file ----

  /**
   Once a pushed file has arrived, modifying it to new contents, and once that has
   arrived too, pulling it gives the new contents filled up to whole blocks. The
   modification has to begin at a block, to cover whatever differs, and to cover
   all blocks it adds.
   */
  lemma ModifyRoundTrip(states: seq<State>, steps: seq<Step>, i: nat, m: nat, j: nat, k: nat,
                        name: string, old1: seq<byte>, data: seq<byte>, startAddr: nat, endAddr: nat,
                        times: seq<nat>, answers: seq<seq<byte>>)
    requires IsRun(states, steps) && i < m < j <= k <= |steps|
    requires steps[i] == Push(name, old1) && PlaceFor(states[i].images, name) < MAX_FILE_COUNT && Quiet(states[i], name)
    requires steps[m] == Modify(name, data, |data|, startAddr, endAddr) && Quiet(states[m], name) && Quiet(states[j], name)
    requires forall h | i < h < k && h != m :: !Writes(steps[h], name)
    requires startAddr % DFS_BLOCK_SIZE == 0 && startAddr <= endAddr && |old1| <= |data|
    requires BlockCount(|old1|) < BlockCount(|data|) ==>
      startAddr / DFS_BLOCK_SIZE <= BlockCount(|old1|) && BlockCount(|data|) <= endAddr / DFS_BLOCK_SIZE + 1
    requires forall x: nat | x < startAddr || x / DFS_BLOCK_SIZE > endAddr / DFS_BLOCK_SIZE :: ByteAt(data, x) == ByteAt(old1, x)
    ensures InService(states[j].reg) && Shaped(states[j])
    ensures var answer := PullAnswer(states[j], name);
      && answer.FileResponse? && answer.image.filename == name && answer.image.blocknum == BlockCount(|data|)
      && (Answered(states, answer.image, j, k, times, answers) ==>
        && Join(answers) == Padded(data) && Join(answers)[..|data|] == data
        && (|data| % DFS_BLOCK_SIZE == 0 ==> Join(answers) == data))
  {
    hide Init, Next, Lookup, Quiet, Join, PlaceFor, Answered, BlockCount, Held, TableOk, PullAnswer, Shaped, ByteAt, FilesNext;
    PushedHeld(states, steps, i, m, name, old1);
    ModifiedHeld(states[m], steps[m], states[m + 1], name, old1);
    var files := map[name := Padded(data)];
    Unwritten(states, steps, m + 1, j, name);
    HeldLasts(states, steps, m + 1, j, files, name);
    ServiceLasts(states, steps, i, j);
    RunShaped(states, steps, j);
    PullAnswerIs(states[j], name);
    AnswerNamed(states[j], name);
    if Answered(states, Lookup(states[j].images, name).value, j, k, times, answers) {
      PullHeld(states, steps, j, k, files, name, times, answers);
    }
  }

  lemma PushedHeld(states: seq<State>, steps: seq<Step>, i: nat, m: nat, name: string, old1: seq<byte>)
    requires IsRun(states, steps) && i < m <= |steps|
    requires steps[i] == Push(name, old1) && PlaceFor(states[i].images, name) < MAX_FILE_COUNT && Quiet(states[i], name)
    requires forall h | i < h < m :: !Writes(steps[h], name)
    ensures Held(states[m], map[name := Padded(old1)], name)
    ensures Lookup(states[m].images, name).Some? && Lookup(states[m].images, name).value.blocknum == BlockCount(|old1|)
  {
    hide Init, Next, Lookup, Quiet, PlaceFor, BlockCount, Held;
    var s, t := states[i], states[i + 1];
    assert Next(s, steps[i], t);
    PushRefines(s, steps[i], t, map[], name);
    JustPushed(s, t, name, old1);
    Unwritten(states, steps, i + 1, m, name);
    HeldLasts(states, steps, i + 1, m, map[name := Padded(old1)], name);
  }

  lemma ModifiedHeld(s: State, step: Step, t: State, name: string, old1: seq<byte>)
    requires step.Modify? && step.name == name && step.size == |step.data| && Next(s, step, t) && Quiet(s, name)
    requires Held(s, map[name := Padded(old1)], name)
    requires Lookup(s.images, name).Some? && Lookup(s.images, name).value.blocknum == BlockCount(|old1|)
    requires step.startAddr % DFS_BLOCK_SIZE == 0 && step.startAddr <= step.endAddr && |old1| <= |step.data|
    requires BlockCount(|old1|) < BlockCount(|step.data|) ==>
      step.startAddr / DFS_BLOCK_SIZE <= BlockCount(|old1|) && BlockCount(|step.data|) <= step.endAddr / DFS_BLOCK_SIZE + 1
    requires forall x: nat | x < step.startAddr || x / DFS_BLOCK_SIZE > step.endAddr / DFS_BLOCK_SIZE :: ByteAt(step.data, x) == ByteAt(old1, x)
    ensures Held(t, map[name := Padded(step.data)], name)
    ensures Lookup(t.images, name).Some? && Lookup(t.images, name).value.blocknum == BlockCount(|step.data|)
  {
    hide Lookup, Quiet, BlockCount, Held, ByteAt, Modified, Padded, Serve, Fits, InService, TableOk;
    ModifyRefines(s, step, t, map[name := Padded(old1)], name);
    CountsGrow(|old1|, |step.data|);
    ModifyingIsPushing(old1, step.data, step.startAddr, step.endAddr);
    ServeKeeps(s.reg, s.images, ModifyReq(name, step.size));
    ServeModify(s.reg, s.images, name, step.size);
    assert BlocksAfter(Lookup(s.images, name).value, step.size) == BlockCount(|step.data|);
    assert FilesNext(map[name := Padded(old1)], s, step) == map[name := Padded(step.data)];
  }

  // ---- what can happen ----

  /** A client can push a file exactly if a datanode is registered and the blocks fit on top of those the file has. */
  lemma CanPush(s: State, name: string, data: seq<byte>)
    requires Shaped(s)
    ensures (exists t :: Next(s, Push(name, data), t)) <==>
      InService(s.reg) && FirstNew(s.images, name) * DFS_BLOCK_SIZE + |data| <= MAX_FILE_BLK_COUNT * DFS_BLOCK_SIZE
  {
    hide InService, Serve, Fits, TableOk, FirstNew, Lookup, BlockCount, PushPackets;
    FitsIs(s.reg, s.images, WriteReq(name, |data|));
    if InService(s.reg) && Fits(s.images, WriteReq(name, |data|)) {
      assert Next(s, Push(name, data), Sent(s, name, data));
    }
  }

  /** A push sends a block for each 1024 bytes begun, unless the table is full; nothing is stored before it arrives. */
  lemma PushSends(s: State, name: string, data: seq<byte>, t: State)
    requires Next(s, Push(name, data), t)
    ensures t.stores == s.stores && t.reg == s.reg
    ensures t == s || (Lookup(t.images, name).Some? && |t.flights| == |s.flights| + BlockCount(|data|))
    ensures Lookup(s.images, name).Some? || (exists a :: 0 <= a < |s.images| && s.images[a].None?) ==> Lookup(t.images, name).Some?
  {
    hide InService, Serve, Fits, TableOk, Lookup, BlockCount;
    ServeKeeps(s.reg, s.images, WriteReq(name, |data|));
    ServeWrite(s.reg, s.images, name, |data|);
    FitsRoom(s, name, |data|);
  }

  lemma FitsRoom(s: State, name: string, size: nat)
    requires Shaped(s) && Fits(s.images, WriteReq(name, size))
    ensures BlockCount(size) <= MAX_FILE_BLK_COUNT
  {
  }

  /** A client can modify a range of a file exactly if a datanode is registered, the size fits and the range ends in a block the file has or gets. */
  lemma CanModify(s: State, name: string, data: seq<byte>, size: nat, startAddr: nat, endAddr: nat)
    requires Shaped(s)
    ensures (exists t :: Next(s, Modify(name, data, size, startAddr, endAddr), t)) <==>
      && InService(s.reg) && startAddr <= endAddr && size <= MAX_FILE_BLK_COUNT * DFS_BLOCK_SIZE
      && (Lookup(s.images, name).Some? ==>
        endAddr / DFS_BLOCK_SIZE < BlockCount(size) || endAddr / DFS_BLOCK_SIZE < Lookup(s.images, name).value.blocknum)
  {
    hide InService, Serve, Fits, TableOk, Lookup, BlockCount, ModifyPackets;
    var req := ModifyReq(name, size);
    FitsIs(s.reg, s.images, req);
    if InService(s.reg) && Fits(s.images, req) && startAddr <= endAddr {
      var t := match Serve(s.reg, s.images, req).1
        case FileResponse(img) =>
          s.(images := Serve(s.reg, s.images, req).0, flights := s.flights + multiset(ModifyPackets(data, startAddr, endAddr)(img)))
        case _ => s;
      assert SendStep(s, req, t, ModifyPackets(data, startAddr, endAddr));
      if Lookup(s.images, name).Some? ==> endAddr / DFS_BLOCK_SIZE < BlocksAfter(Lookup(s.images, name).value, size) {
        assert Next(s, Modify(name, data, size, startAddr, endAddr), t);
      }
    }
  }

  /** From any point of a run, what is on its way can all arrive. */
  lemma {:induction false} CanArrive(states: seq<State>, steps: seq<Step>) returns (states2: seq<State>, steps2: seq<Step>)
    requires IsRun(states, steps)
    ensures IsRun(states2, steps2) && states <= states2 && steps <= steps2
    ensures |steps2| == |steps| + |states[|steps|].flights|
    ensures forall i | |steps| <= i < |steps2| :: steps2[i].Deliver?
    ensures states2[|steps2|].flights == multiset{} && states2[|steps2|].reg == states[|steps|].reg
    decreases |states[|steps|].flights|
  {
    hide Init, Next;
    var s := states[|steps|];
    if s.flights == multiset{} {
      states2, steps2 := states, steps;
    } else {
      var packet :| packet in s.flights;
      var t := DeliverOnce(states, steps, packet);
      OneStepMore(states, steps, Deliver(packet), t);
      states2, steps2 := CanArrive(states + [t], steps + [Deliver(packet)]);
    }
  }

  lemma DeliverOnce(states: seq<State>, steps: seq<Step>, packet: Packet) returns (t: State)
    requires IsRun(states, steps) && packet in states[|steps|].flights
    ensures Next(states[|steps|], Deliver(packet), t) && |t.flights| == |states[|steps|].flights| - 1 && t.reg == states[|steps|].reg
  {
    hide Init, TableOk;
    var s := states[|steps|];
    RunShaped(states, steps, |steps|);
    t := Served(s, packet).(flights := s.flights - multiset{packet});
    assert s.flights == t.flights + multiset{packet};
  }

  lemma OneStepMore(states: seq<State>, steps: seq<Step>, step: Step, t: State)
    requires IsRun(states, steps) && Next(states[|steps|], step, t)
    ensures IsRun(states + [t], steps + [step])
  {
    hide Init, Next;
  }

  // ---- a whole journey ----

  /** The answers of the datanodes to the reads of a pull that finds the system in state s. */
  ghost function AnswersIn(s: State, img: FileImage): seq<seq<byte>>
    requires img.blocknum <= |img.blockList|
    requires forall b | 0 <= b < img.blocknum :: 1 <= img.blockList[b].dnId <= |s.stores|
  {
    seq(img.blocknum, b requires 0 <= b < img.blocknum => Answer(s.stores[img.blockList[b].dnId - 1], img.blockList[b]))
  }

  /**
   From any point of a run where a datanode is registered, nothing of the file is
   on its way, and the file fits, it can be pushed, it can arrive, and a pull then
   gives it back.
   */
  lemma Journey(states: seq<State>, steps: seq<Step>, name: string, data: seq<byte>) returns (states2: seq<State>, steps2: seq<Step>)
    requires IsRun(states, steps)
    requires var s := states[|steps|];
      && InService(s.reg) && Quiet(s, name)
      && (Lookup(s.images, name).Some? || exists a :: 0 <= a < |s.images| && s.images[a].None?)
      && FirstNew(s.images, name) * DFS_BLOCK_SIZE + |data| <= MAX_FILE_BLK_COUNT * DFS_BLOCK_SIZE
    ensures IsRun(states2, steps2) && states <= states2 && steps + [Push(name, data)] <= steps2
    ensures forall i | |steps| < i < |steps2| :: steps2[i].Deliver?
    ensures var t := states2[|steps2|];
      && InService(t.reg) && Shaped(t) && t.reg == states[|steps|].reg && PullAnswer(t, name).FileResponse?
      && var img := PullAnswer(t, name).image;
        && img.blocknum == BlockCount(|data|) <= |img.blockList|
        && (forall b | 0 <= b < img.blocknum :: 1 <= img.blockList[b].dnId <= |t.stores|)
        && (forall b | 0 <= b < img.blocknum :: img.blockList[b].dnId <= |t.reg| && t.reg[img.blockList[b].dnId - 1].Some?)
        && Join(AnswersIn(t, img)) == Padded(data) && Join(AnswersIn(t, img))[..|data|] == data
  {
    hide Init, Next, Lookup, FirstNew, Quiet, InService, TableOk, PullAnswer, Join, BlockCount, PlaceFor, Answer, Shaped, Padded;
    var i, s := |steps|, states[|steps|];
    RunShaped(states, steps, i);
    CanPush(s, name, data);
    var t0 :| Next(s, Push(name, data), t0);
    OneStepMore(states, steps, Push(name, data), t0);
    PushSends(s, name, data, t0);
    states2, steps2 := CanArrive(states + [t0], steps + [Push(name, data)]);
    var n, t := |steps2|, states2[|steps2|];
    HasPlace(s, name);
    AllQuiet(t, name);
    assert states2[i] == s && steps2[i] == Push(name, data);
    forall h | i < h < n
      ensures !Writes(steps2[h], name)
    {
    }
    RoundTrip(states2, steps2, i, n, n, name, data, [], []);
    var img := PullAnswer(t, name).image;
    PulledImage(t, name);
    var times, answers := seq(img.blocknum, (b: nat) => n), AnswersIn(t, img);
    assert Answered(states2, img, n, n, times, answers);
    RoundTrip(states2, steps2, i, n, n, name, data, times, answers);
  }

  lemma HasPlace(s: State, name: string)
    requires Shaped(s) && (Lookup(s.images, name).Some? || exists a :: 0 <= a < |s.images| && s.images[a].None?)
    ensures PlaceFor(s.images, name) < MAX_FILE_COUNT
  {
    WriteTurnedAway(s.images, name);
  }

  lemma AllQuiet(s: State, name: string)
    requires s.flights == multiset{}
    ensures Quiet(s, name)
  {
  }

  lemma PulledImage(s: State, name: string)
    requires InService(s.reg) && Shaped(s) && PullAnswer(s, name).FileResponse?
    ensures var img := PullAnswer(s, name).image;
      && img.blocknum <= |img.blockList|
      && (forall b | 0 <= b < img.blocknum :: 1 <= img.blockList[b].dnId <= |s.stores|)
      && (forall b | 0 <= b < img.blocknum :: img.blockList[b].dnId <= |s.reg| && s.reg[img.blockList[b].dnId - 1].Some?)
  {
    hide Lookup;
    PullAnswerIs(s, name);
    FoundOk(s.reg, s.images, name);
    var img := Lookup(s.images, name).value;
    forall b | 0 <= b < img.blocknum
      ensures 1 <= img.blockList[b].dnId <= |s.stores|
      ensures img.blockList[b].dnId <= |s.reg| && s.reg[img.blockList[b].dnId - 1].Some?
    {
      assert BlockOk(s.reg, name, b, img.blockList[b]);
    }
  }

  /** On a new system a datanode registers, a file is pushed, its blocks arrive, and a pull gives it back. */
  lemma FirstJourney(id: nat, ip: string, port: int, name: string, data: seq<byte>) returns (states: seq<State>, steps: seq<Step>)
    requires 1 <= id < MAX_DATANODE_NUM && |data| <= MAX_FILE_BLK_COUNT * DFS_BLOCK_SIZE
    ensures IsRun(states, steps) && [Register(id, ip, port), Push(name, data)] <= steps
    ensures var t := states[|steps|];
      && InService(t.reg) && Shaped(t) && PullAnswer(t, name).FileResponse?
      && var img := PullAnswer(t, name).image;
        && img.blocknum == BlockCount(|data|) <= |img.blockList|
        && (forall b | 0 <= b < img.blocknum :: img.blockList[b].dnId == id <= |t.stores|)
        && Join(AnswersIn(t, img)) == Padded(data) && Join(AnswersIn(t, img))[..|data|] == data
  {
    hide Init, Next, Lookup, FirstNew, TableOk, PullAnswer, Join, BlockCount, PlaceFor, Answer, Shaped, Padded;
    var s0 := FirstState();
    FirstIsInit(name);
    var s1 := s0.(reg := s0.reg[id - 1 := Some(DataNode(id, ip, port))]);
    RegisterOnce(s0, s1, id, ip, port);
    assert s1.reg[id - 1].Some?;
    states, steps := [s0, s1], [Register(id, ip, port)];
    FirstRoom(s1, name);
    AllQuiet(s1, name);
    states, steps := Journey(states, steps, name, data);
    assert steps[0] == Register(id, ip, port) && states[1] == s1;
  }

  lemma RegisterOnce(s0: State, s1: State, id: nat, ip: string, port: int)
    requires Shaped(s0) && 1 <= id < MAX_DATANODE_NUM && IsRegistry(s0.reg) && s1 == s0.(reg := s0.reg[id - 1 := Some(DataNode(id, ip, port))])
    ensures Next(s0, Register(id, ip, port), s1)
  {
  }

  lemma FirstRoom(s: State, name: string)
    requires s.images == FirstState().images
    ensures s.images[0].None? && FirstNew(s.images, name) == 0
  {
    FirstIsInit(name);
  }
}
