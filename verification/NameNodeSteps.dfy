/** The name node's two threads, step by step: one registers datanodes while the other assigns blocks. */
module NameNodeSteps {
  import opened Common
  import opened RoundRobin
  import opened NameNode

  /** Where the registration thread stands. */
  datatype Registering =
    | Waiting
    | Counted(id: nat, ip: string, port: int) // dncnt raised, slot still empty
    | Slotted(id: nat, ip: string, port: int) // slot filled, fields not yet set
    | Named(id: nat, ip: string, port: int)   // id and port set, address not yet

  /** Where the service thread stands: block entries next, next + 1, ... below until are to be assigned. */
  datatype Assigning = Resting | Assigning(place: nat, next: nat, until: nat, index: nat, blocknum: nat)

  datatype State = State(reg: Registry, images: Images, dncnt: nat, safeMode: nat, registering: Registering, task: Assigning)

  datatype Step =
    | Accept(id: nat, ip: string, port: int)
    | FillSlot
    | SetName
    | SetAddress
    | BeginPush(name: string, size: nat)
    | BeginExtend(name: string, size: nat)
    | SkipSlot
    | AssignBlock
    | Finish

  ghost predicate Init(s: State) {
    && IsRegistry(s.reg) && (forall k | 0 <= k < MAX_DATANODE_NUM :: s.reg[k].None?)
    && |s.images| == MAX_FILE_COUNT && (forall k | 0 <= k < MAX_FILE_COUNT :: s.images[k].None?)
    && s.dncnt == 0 && s.safeMode == 1 && s.registering == Waiting && s.task == Resting
  }

  /** A registration thread's own steps. */
  predicate RegisterStep(s: State, step: Step, t: State)
    requires IsRegistry(s.reg)
  {
    match step
    case Accept(id, ip, port) =>
      && s.registering.Waiting? && id >= 1
      && t == if id >= MAX_DATANODE_NUM then s
        else if s.reg[id - 1].None? then s.(dncnt := s.dncnt + 1, registering := Counted(id, ip, port))
        else s.(registering := Slotted(id, ip, port))
    case FillSlot =>
      && s.registering.Counted? && 1 <= s.registering.id < MAX_DATANODE_NUM
      && t == s.(reg := s.reg[s.registering.id - 1 := Some(DataNode(0, "", 0))], registering := Slotted(s.registering.id, s.registering.ip, s.registering.port))
    case SetName =>
      && s.registering.Slotted? && 1 <= s.registering.id < MAX_DATANODE_NUM && s.reg[s.registering.id - 1].Some?
      && var node := s.reg[s.registering.id - 1].value;
        t == s.(reg := s.reg[s.registering.id - 1 := Some(node.(dnId := s.registering.id, port := s.registering.port))], registering := Named(s.registering.id, s.registering.ip, s.registering.port))
    case SetAddress =>
      && s.registering.Named? && 1 <= s.registering.id < MAX_DATANODE_NUM && s.reg[s.registering.id - 1].Some?
      && var node := s.reg[s.registering.id - 1].value;
        t == s.(reg := s.reg[s.registering.id - 1 := Some(node.(ip := s.registering.ip))], registering := Waiting, safeMode := 0)
    case _ => false
  }

  /** A request gets an answer only out of safe mode, and one at a time. */
  ghost predicate BeginStep(s: State, step: Step, t: State)
    requires |s.images| == MAX_FILE_COUNT
  {
    && s.safeMode == 0 && s.task.Resting?
    && match step
      case BeginPush(name, size) =>
        var n, k, img := BlockCount(size), PlaceFor(s.images, name), ImageBefore(s.images, name, size);
        && k < MAX_FILE_COUNT && Takes(img, n)
        && t == s.(images := s.images[k := Some(img.(blocknum := n))], task := Assigning(k, img.blocknum, img.blocknum + n, 0, n))
      case BeginExtend(name, size) =>
        var n, k := BlockCount(size), Find(s.images, name);
        && n <= MAX_FILE_BLK_COUNT && k < MAX_FILE_COUNT
        && var img := s.images[k].value;
          && img.blocknum < n && img.blocknum <= |img.blockList|
          && t == s.(task := Assigning(k, img.blocknum, n, Behind(img), n))
      case _ => false
  }

  /** The service thread's steps for one request. */
  predicate TaskStep(s: State, step: Step, t: State)
    requires IsRegistry(s.reg)
  {
    && s.task.Assigning? && s.task.place < |s.images| && s.images[s.task.place].Some?
    && var img, slot := s.images[s.task.place].value, s.task.index % MAX_DATANODE_NUM;
      match step
      case SkipSlot =>
        && s.task.next < s.task.until && s.reg[slot].None?
        && t == s.(task := s.task.(index := (slot + 1) % MAX_DATANODE_NUM))
      case AssignBlock =>
        && s.task.next < s.task.until && s.reg[slot].Some? && s.task.next < |img.blockList|
        && t == s.(
          images := s.images[s.task.place := Some(img.(blockList := img.blockList[s.task.next := BlockIn(s.reg, img.filename, s.task.next, slot)]))],
          task := s.task.(next := s.task.next + 1, index := slot + 1))
      case Finish =>
        && s.task.next == s.task.until
        && t == s.(images := s.images[s.task.place := Some(img.(blocknum := s.task.blocknum))], task := Resting)
      case _ => false
  }

  ghost predicate Next(s: State, step: Step, t: State) {
    && IsRegistry(s.reg) && |s.images| == MAX_FILE_COUNT
    && (RegisterStep(s, step, t) || BeginStep(s, step, t) || TaskStep(s, step, t))
  }

  ghost predicate IsRun(states: seq<State>, steps: seq<Step>) {
    && |states| == |steps| + 1 && Init(states[0])
    && forall i | 0 <= i < |steps| :: Next(states[i], steps[i], states[i + 1])
  }

  // ---- the invariant ----

  ghost predicate EntriesOk(reg: Registry, img: FileImage, n: nat) {
    && |img.blockList| == MAX_FILE_BLK_COUNT && n <= MAX_FILE_BLK_COUNT
    && forall i | 0 <= i < n :: BlockOk(reg, img.filename, i, img.blockList[i])
  }

  ghost predicate TaskOk(s: State) {
    s.task.Assigning? ==>
      && s.task.place < |s.images| && s.images[s.task.place].Some?
      && s.task.next <= s.task.until <= MAX_FILE_BLK_COUNT && s.task.blocknum <= s.task.until
      && EntriesOk(s.reg, s.images[s.task.place].value, s.task.next)
      && InService(s.reg)
  }

  ghost predicate ImagesOk(s: State) {
    forall a | 0 <= a < |s.images| && s.images[a].Some? && !(s.task.Assigning? && s.task.place == a) :: ImageOk(s.reg, s.images[a].value)
  }

  /** dncnt counts the filled slots, except between its increment and the filling of the slot. */
  predicate CountOk(s: State) {
    && IsRegistry(s.reg)
    && s.dncnt == |Filled(s.reg)| + (if s.registering.Counted? then 1 else 0)
    && (s.registering.Waiting? || (1 <= s.registering.id < MAX_DATANODE_NUM
      && (s.registering.Counted? <==> s.reg[s.registering.id - 1].None?)))
  }

  ghost predicate Inv(s: State) {
    && CountOk(s)
    && |s.images| == MAX_FILE_COUNT && Unique(s.images)
    && ImagesOk(s)
    && TaskOk(s)
    && (s.safeMode == 0 ==> InService(s.reg))
  }

  lemma InitInv(s: State)
    requires Init(s)
    ensures Inv(s)
  {
    NoneFilled(s.reg, 0);
  }

  /** Filling or changing a slot disturbs no image and no task. */
  lemma SlotInv(s: State, slot: nat, node: DataNode)
    requires Inv(s) && slot < MAX_DATANODE_NUM
    ensures var t := s.(reg := s.reg[slot := Some(node)]); ImagesOk(t) && TaskOk(t) && InService(t.reg)
    ensures |Filled(s.reg[slot := Some(node)])| == |Filled(s.reg)| + (if s.reg[slot].None? then 1 else 0)
  {
    hide Filled, FilledFrom;
    var t := s.(reg := s.reg[slot := Some(node)]);
    assert t.reg[slot].Some?;
    FilledGrowsAll(s.reg, slot, node);
    forall a | 0 <= a < |s.images| && s.images[a].Some? && !(s.task.Assigning? && s.task.place == a)
      ensures ImageOk(t.reg, s.images[a].value)
    {
      assert ImageOk(s.reg, s.images[a].value);
    }
  }

  lemma FilledGrowsAll(reg: Registry, slot: nat, node: DataNode)
    requires IsRegistry(reg) && slot < MAX_DATANODE_NUM
    ensures |Filled(reg[slot := Some(node)])| == |Filled(reg)| + (if reg[slot].None? then 1 else 0)
  {
    FilledGrows(reg, slot, node, 0);
  }

  lemma RegisterInv(s: State, step: Step, t: State)
    requires Inv(s) && RegisterStep(s, step, t)
    ensures Inv(t)
  {
    hide Filled, ImageOk, Unique, EntriesOk;
    match step
    case Accept(id, ip, port) =>
    case FillSlot =>
      SlotInv(s, s.registering.id - 1, DataNode(0, "", 0));
    case SetName =>
      SlotInv(s, s.registering.id - 1, s.reg[s.registering.id - 1].value.(dnId := s.registering.id, port := s.registering.port));
    case SetAddress =>
      SlotInv(s, s.registering.id - 1, s.reg[s.registering.id - 1].value.(ip := s.registering.ip));
  }

  lemma BeginInv(s: State, step: Step, t: State)
    requires Inv(s) && BeginStep(s, step, t)
    ensures Inv(t)
  {
    hide Filled, BlockOk, BlockCount, FindFrom, EmptyFrom;
    match step
    case BeginPush(name, size) =>
      var k, img := PlaceFor(s.images, name), ImageBefore(s.images, name, size);
      PlaceIs(s.images, name);
      assert img.filename == name;
      assert ImageOk(s.reg, img);
    case BeginExtend(name, size) =>
      assert ImageOk(s.reg, s.images[Find(s.images, name)].value);
  }

  lemma TaskInv(s: State, step: Step, t: State)
    requires Inv(s) && TaskStep(s, step, t)
    ensures Inv(t)
  {
    hide Filled, FilledFrom;
  }

  lemma NextInv(s: State, step: Step, t: State)
    requires Inv(s) && Next(s, step, t)
    ensures Inv(t)
  {
    hide Inv, RegisterStep, BeginStep, TaskStep;
    if RegisterStep(s, step, t) {
      RegisterInv(s, step, t);
    } else if BeginStep(s, step, t) {
      BeginInv(s, step, t);
    } else {
      TaskInv(s, step, t);
    }
  }

  /** The table is in order throughout every run, however the two threads take turns. */
  lemma {:induction false} RunInv(states: seq<State>, steps: seq<Step>, i: nat)
    requires IsRun(states, steps) && i <= |steps|
    ensures Inv(states[i])
  {
    hide Inv, Init, Next;
    if i == 0 {
      InitInv(states[0]);
    } else {
      RunInv(states, steps, i - 1);
      NextInv(states[i - 1], steps[i - 1], states[i]);
    }
  }

  /** Registered slots never disappear. */
  ghost predicate Keeps(reg: Registry, reg2: Registry) {
    IsRegistry(reg) && IsRegistry(reg2) && forall k | 0 <= k < MAX_DATANODE_NUM && reg[k].Some? :: reg2[k].Some?
  }

  lemma {:induction false} SlotsStay(states: seq<State>, steps: seq<Step>, i: nat, j: nat)
    requires IsRun(states, steps) && i <= j <= |steps|
    ensures Keeps(states[i].reg, states[j].reg)
    decreases j
  {
    hide Init, Next, Inv;
    RunInv(states, steps, j);
    InvRegistry(states[j]);
    if i < j {
      SlotsStay(states, steps, i, j - 1);
      NextKeeps(states[j - 1], steps[j - 1], states[j]);
    }
  }

  lemma InvRegistry(s: State)
    requires Inv(s)
    ensures IsRegistry(s.reg)
  {
  }

  lemma NextKeeps(s: State, step: Step, t: State)
    requires Next(s, step, t)
    ensures Keeps(s.reg, t.reg)
  {
  }

  /** Between requests every image of the table is whole, and outside the window of a registration dncnt is exact. */
  lemma RestingTable(states: seq<State>, steps: seq<Step>, i: nat)
    requires IsRun(states, steps) && i <= |steps|
    ensures states[i].task.Resting? ==> TableOk(states[i].reg, states[i].images)
    ensures IsRegistry(states[i].reg) && !states[i].registering.Counted? ==> states[i].dncnt == |Filled(states[i].reg)|
  {
    hide Init, Next, ImageOk, Unique;
    RunInv(states, steps, i);
  }

  // ---- a request ends ----

  /** The number of empty slots the search still skips. */
  function Distance(reg: Registry, i: nat, n: nat): (d: nat)
    requires IsRegistry(reg) && i < MAX_DATANODE_NUM
    ensures d <= n
    decreases n
  {
    if n == 0 || reg[i].Some? then 0 else 1 + Distance(reg, (i + 1) % MAX_DATANODE_NUM, n - 1)
  }

  /** The steps a request has left at most, with its Finish. */
  function Work(s: State): nat
    requires IsRegistry(s.reg)
  {
    match s.task
    case Resting => 0
    case Assigning(_, next, until, index, _) =>
      1 + (if next < until then (until - next) * (MAX_DATANODE_NUM + 1) + Distance(s.reg, index % MAX_DATANODE_NUM, MAX_DATANODE_NUM) else 0)
  }

  lemma {:induction false} DistanceShrinks(reg: Registry, reg2: Registry, i: nat, n: nat)
    requires Keeps(reg, reg2) && i < MAX_DATANODE_NUM
    ensures Distance(reg2, i, n) <= Distance(reg, i, n)
    decreases n
  {
    if n != 0 && reg2[i].None? {
      DistanceShrinks(reg, reg2, (i + 1) % MAX_DATANODE_NUM, n - 1);
    }
  }

  /** A search that has found a filled slot has the same distance whatever limit it runs under. */
  lemma {:induction false} DistanceFound(reg: Registry, i: nat, n: nat)
    requires IsRegistry(reg) && i < MAX_DATANODE_NUM && reg[Seek(reg, i, n)].Some?
    ensures Distance(reg, i, n + 1) == Distance(reg, i, n)
    decreases n
  {
    if n != 0 && reg[i].None? {
      DistanceFound(reg, (i + 1) % MAX_DATANODE_NUM, n - 1);
    }
  }

  lemma SkipNearer(reg: Registry, i: nat)
    requires InService(reg) && i < MAX_DATANODE_NUM && reg[i].None?
    ensures Distance(reg, (i + 1) % MAX_DATANODE_NUM, MAX_DATANODE_NUM) < Distance(reg, i, MAX_DATANODE_NUM)
  {
    hide Seek, Distance;
    NextIsFilled(reg, i);
    SeekOnce(reg, i, MAX_DATANODE_NUM);
    DistanceOnce(reg, i, MAX_DATANODE_NUM);
    DistanceFound(reg, (i + 1) % MAX_DATANODE_NUM, MAX_DATANODE_NUM - 1);
  }

  lemma SeekOnce(reg: Registry, i: nat, n: nat)
    requires IsRegistry(reg) && i < MAX_DATANODE_NUM && n > 0 && reg[i].None?
    ensures Seek(reg, i, n) == Seek(reg, (i + 1) % MAX_DATANODE_NUM, n - 1)
  {
  }

  lemma DistanceOnce(reg: Registry, i: nat, n: nat)
    requires IsRegistry(reg) && i < MAX_DATANODE_NUM && n > 0 && reg[i].None?
    ensures Distance(reg, i, n) == 1 + Distance(reg, (i + 1) % MAX_DATANODE_NUM, n - 1)
  {
  }

  /** Every step of the service thread brings its request nearer to its end, and no registration puts it off. */
  lemma WorkShrinks(s: State, step: Step, t: State)
    requires Inv(s) && IsRegistry(t.reg)
    ensures TaskStep(s, step, t) ==> Work(t) < Work(s)
    ensures RegisterStep(s, step, t) ==> Work(t) <= Work(s)
  {
    hide Distance, Inv, RegisterStep, TaskStep, Work;
    InvRegistry(s);
    if TaskStep(s, step, t) {
      TaskWork(s, step, t);
    } else if RegisterStep(s, step, t) {
      RegisterWork(s, step, t);
    }
  }

  lemma TaskWork(s: State, step: Step, t: State)
    requires Inv(s) && TaskStep(s, step, t)
    ensures IsRegistry(t.reg) && Work(t) < Work(s)
  {
    hide Distance, ImagesOk, Unique, CountOk, EntriesOk;
    InvRegistry(s);
    var slot := s.task.index % MAX_DATANODE_NUM;
    if step.SkipSlot? {
      SkipNearer(s.reg, slot);
    } else if step.AssignBlock? {
      assert Distance(t.reg, t.task.index % MAX_DATANODE_NUM, MAX_DATANODE_NUM) <= MAX_DATANODE_NUM;
    }
  }

  lemma RegisterWork(s: State, step: Step, t: State)
    requires IsRegistry(s.reg) && RegisterStep(s, step, t)
    ensures IsRegistry(t.reg) && Work(t) <= Work(s)
  {
    hide Distance;
    RegisterKeeps(s, step, t);
    if s.task.Assigning? {
      DistanceShrinks(s.reg, t.reg, s.task.index % MAX_DATANODE_NUM, MAX_DATANODE_NUM);
    }
  }

  lemma RegisterKeeps(s: State, step: Step, t: State)
    requires IsRegistry(s.reg) && RegisterStep(s, step, t)
    ensures Keeps(s.reg, t.reg) && t.task == s.task
  {
  }

  /** The service thread can always go on: with its request, or by taking a new one. */
  lemma NeverStuck(s: State)
    requires Inv(s) && s.task.Assigning?
    ensures exists step, t :: TaskStep(s, step, t)
  {
    var img, slot := s.images[s.task.place].value, s.task.index % MAX_DATANODE_NUM;
    if s.task.next == s.task.until {
      assert TaskStep(s, Finish, s.(images := s.images[s.task.place := Some(img.(blocknum := s.task.blocknum))], task := Resting));
    } else if s.reg[slot].None? {
      assert TaskStep(s, SkipSlot, s.(task := s.task.(index := (slot + 1) % MAX_DATANODE_NUM)));
    } else {
      assert TaskStep(s, AssignBlock, s.(
        images := s.images[s.task.place := Some(img.(blockList := img.blockList[s.task.next := BlockIn(s.reg, img.filename, s.task.next, slot)]))],
        task := s.task.(next := s.task.next + 1, index := slot + 1)));
    }
  }

  ghost function TaskSteps(states: seq<State>, steps: seq<Step>, i: nat, j: nat): nat
    requires |states| == |steps| + 1 && i <= j <= |steps|
    requires forall k | i <= k < j :: IsRegistry(states[k].reg)
    decreases j
  {
    if i == j then 0 else TaskSteps(states, steps, i, j - 1) + (if TaskStep(states[j - 1], steps[j - 1], states[j]) then 1 else 0)
  }

  /** While a request is served, the service thread takes no more steps than it had left at its beginning. */
  lemma {:induction false} RequestEnds(states: seq<State>, steps: seq<Step>, i: nat, j: nat)
    requires IsRun(states, steps) && i <= j <= |steps|
    requires forall k | i <= k < j :: states[k].task.Assigning?
    ensures forall k | i <= k <= j :: IsRegistry(states[k].reg)
    ensures TaskSteps(states, steps, i, j) + Work(states[j]) <= Work(states[i])
    decreases j
  {
    hide Init, Next, Inv, Work, TaskStep, RegisterStep;
    RunInv(states, steps, j);
    InvRegistry(states[j]);
    if i < j {
      RequestEnds(states, steps, i, j - 1);
      RunInv(states, steps, j - 1);
      NotBegin(states[j - 1], steps[j - 1], states[j]);
      WorkShrinks(states[j - 1], steps[j - 1], states[j]);
    }
  }

  lemma NotBegin(s: State, step: Step, t: State)
    requires Next(s, step, t) && s.task.Assigning?
    ensures RegisterStep(s, step, t) || TaskStep(s, step, t)
  {
  }

  // ---- the fine steps make up one request ----

  /** The block list the task will leave, if no datanode registers meanwhile. */
  ghost function Planned(s: State): (list: seq<BlockDesc>)
    requires Inv(s) && s.task.Assigning?
  {
    var img := s.images[s.task.place].value;
    AssignFills(s.reg, s.task.index, s.task.until - s.task.next);
    Placed(s.reg, img.filename, img.blockList, s.task.next, Assign(s.reg, s.task.index, s.task.until - s.task.next))
  }

  /** The table the task will leave, if no datanode registers meanwhile. */
  ghost function Outcome(s: State): (images: Images)
    requires Inv(s) && s.task.Assigning?
  {
    s.images[s.task.place := Some(s.images[s.task.place].value.(blockList := Planned(s), blocknum := s.task.blocknum))]
  }

  /** Skipping and assigning follow the plan. */
  lemma PlanKept(s: State, step: Step, t: State)
    requires Inv(s) && TaskStep(s, step, t) && !step.Finish?
    ensures Inv(t) && t.task.Assigning? && Outcome(t) == Outcome(s)
  {
    hide Inv, Assign, Placed;
    InvRegistry(s);
    TaskInv(s, step, t);
    PlanParts(s);
    PlanParts(t);
    var n, slot := s.task.until - s.task.next, s.task.index % MAX_DATANODE_NUM;
    if step.SkipSlot? {
      SkipAssign(s.reg, s.task.index, n);
    } else {
      TakeAssign(s.reg, s.task.index, n);
      PlaceFirst(s.reg, s.images[s.task.place].value, s.task.next, slot, Assign(s.reg, slot + 1, n - 1));
    }
  }

  lemma PlanParts(s: State)
    requires Inv(s) && s.task.Assigning?
    ensures InService(s.reg) && s.task.place < |s.images| && s.images[s.task.place].Some? && s.task.next <= s.task.until
    ensures var img := s.images[s.task.place].value; var slots := Assign(s.reg, s.task.index, s.task.until - s.task.next);
      && AllFilled(s.reg, slots) && s.task.until <= |img.blockList|
      && Planned(s) == Placed(s.reg, img.filename, img.blockList, s.task.next, slots)
  {
    hide Assign, Seek, Unique, Filled, ImagesOk;
    AssignFills(s.reg, s.task.index, s.task.until - s.task.next);
  }

  lemma SkipAssign(reg: Registry, i: nat, n: nat)
    requires InService(reg) && reg[i % MAX_DATANODE_NUM].None?
    ensures Assign(reg, (i % MAX_DATANODE_NUM + 1) % MAX_DATANODE_NUM, n) == Assign(reg, i, n)
  {
    hide Seek;
    var j := i % MAX_DATANODE_NUM;
    var k := (j + 1) % MAX_DATANODE_NUM;
    NextIsFilled(reg, j);
    SeekOnce(reg, j, MAX_DATANODE_NUM);
    SeekFound(reg, k, MAX_DATANODE_NUM - 1);
    assert NextSlot(reg, k) == NextSlot(reg, i);
  }

  lemma {:induction false} SeekFound(reg: Registry, i: nat, n: nat)
    requires IsRegistry(reg) && i < MAX_DATANODE_NUM && reg[Seek(reg, i, n)].Some?
    ensures Seek(reg, i, n + 1) == Seek(reg, i, n)
    decreases n
  {
    if n != 0 && reg[i].None? {
      SeekFound(reg, (i + 1) % MAX_DATANODE_NUM, n - 1);
    }
  }

  lemma TakeAssign(reg: Registry, i: nat, n: nat)
    requires IsRegistry(reg) && reg[i % MAX_DATANODE_NUM].Some? && n > 0
    ensures Assign(reg, i, n) == [i % MAX_DATANODE_NUM] + Assign(reg, i % MAX_DATANODE_NUM + 1, n - 1)
  {
    assert NextSlot(reg, i) == i % MAX_DATANODE_NUM;
  }

  lemma PlaceFirst(reg: Registry, img: FileImage, first: nat, slot: nat, slots: seq<nat>)
    requires AllFilled(reg, [slot] + slots) && AllFilled(reg, slots) && slot < |reg| && reg[slot].Some?
    requires first + 1 + |slots| <= |img.blockList|
    ensures Placed(reg, img.filename, img.blockList, first, [slot] + slots)
      == Placed(reg, img.filename, img.blockList[first := BlockIn(reg, img.filename, first, slot)], first + 1, slots)
  {
  }

  /** A request begins with the plan that Serve carries out in one step, and ends with the plan done. */
  lemma PlanBegins(s: State, step: Step, t: State)
    requires Inv(s) && s.safeMode == 0 && |s.images| == MAX_FILE_COUNT && BeginStep(s, step, t)
    ensures Inv(t) && t.task.Assigning? && t.task.place < |t.images| && t.images[t.task.place].Some?
    ensures t.task.place == PlaceFor(s.images, step.name)
    ensures var img := t.images[t.task.place].value.(blockList := Planned(t), blocknum := t.task.blocknum);
      && (step.BeginPush? ==> img == PushedImage(s.reg, ImageBefore(s.images, step.name, step.size), BlockCount(step.size)))
      && (step.BeginExtend? ==> (Lookup(s.images, step.name).Some? && ImageOk(s.reg, Lookup(s.images, step.name).value)
        && img == ExtendedImage(s.reg, Lookup(s.images, step.name).value, BlockCount(step.size))))
  {
    hide BlockCount, Assign, Placed, Inv, AllFilled, PushedImage, ExtendedImage, ImageOk, PlaceFor, Behind, Lookup, Find, ImageBefore;
    InvTable(s);
    BeginInv(s, step, t);
    PlanParts(t);
    if step.BeginPush? {
      PlaceIs(s.images, step.name);
      ImageBeforeOk(s.reg, s.images, step.name, step.size);
      PushedIs(s.reg, ImageBefore(s.images, step.name, step.size), BlockCount(step.size));
    } else {
      FoundIs(s.images, step.name);
      FoundOk(s.reg, s.images, step.name);
      ExtendedIs(s.reg, Lookup(s.images, step.name).value, BlockCount(step.size));
    }
  }

  lemma FoundIs(images: Images, name: string)
    requires Find(images, name) < |images|
    ensures Lookup(images, name) == images[Find(images, name)] && Lookup(images, name).Some?
  {
  }

  lemma ExtendedIs(reg: Registry, img: FileImage, n: nat)
    requires InService(reg) && ImageOk(reg, img) && img.blocknum < n <= MAX_FILE_BLK_COUNT
    ensures AllFilled(reg, Assign(reg, Behind(img), n - img.blocknum))
    ensures ExtendedImage(reg, img, n)
      == img.(blocknum := n).(blockList := Placed(reg, img.filename, img.blockList, img.blocknum, Assign(reg, Behind(img), n - img.blocknum)))
  {
    AssignFills(reg, Behind(img), n - img.blocknum);
  }

  lemma InvTable(s: State)
    requires Inv(s)
    ensures |s.images| == MAX_FILE_COUNT && IsRegistry(s.reg)
    ensures s.safeMode == 0 ==> InService(s.reg)
    ensures s.task.Resting? ==> TableOk(s.reg, s.images)
  {
  }

  lemma PlanEnds(s: State, t: State)
    requires Inv(s) && TaskStep(s, Finish, t)
    ensures t.images == Outcome(s)
  {
    PlanParts(s);
    var img := s.images[s.task.place].value;
    assert Planned(s) == img.blockList;
  }

  /** Registering changes no plan while it changes no slot. */
  lemma PlanWaits(s: State, step: Step, t: State)
    requires Inv(s) && s.task.Assigning? && RegisterStep(s, step, t) && t.reg == s.reg
    ensures Inv(t) && t.task.Assigning? && Outcome(t) == Outcome(s)
  {
    hide Inv, Assign, Placed;
    InvRegistry(s);
    RegisterInv(s, step, t);
    assert t.task == s.task && t.images == s.images;
    PlanParts(s);
    PlanParts(t);
  }

  /** The request a step begins. */
  function RequestOf(step: Step): Request
    requires step.BeginPush? || step.BeginExtend?
  {
    if step.BeginPush? then WriteReq(step.name, step.size) else ModifyReq(step.name, step.size)
  }

  lemma ServeBegins(s: State, step: Step, t: State)
    requires Inv(s) && |s.images| == MAX_FILE_COUNT && BeginStep(s, step, t)
    ensures InService(s.reg) && TableOk(s.reg, s.images) && Fits(s.images, RequestOf(step))
    ensures Inv(t) && t.task.Assigning? && t.reg == s.reg && Outcome(t) == Serve(s.reg, s.images, RequestOf(step)).0
  {
    hide BlockCount, Assign, Placed, Inv, AllFilled, PushedImage, ExtendedImage, ImageOk, PlaceFor, Behind, Lookup, Find, ImageBefore, Planned;
    InvTable(s);
    PlanBegins(s, step, t);
    if step.BeginPush? {
      PlaceIs(s.images, step.name);
    } else {
      FoundIs(s.images, step.name);
      FoundOk(s.reg, s.images, step.name);
    }
  }

  /** A request during which no slot changes is served as if in one step. */
  lemma ServedAtOnce(states: seq<State>, steps: seq<Step>, i: nat, j: nat)
    requires IsRun(states, steps) && i < j < |steps|
    requires steps[i].BeginPush? || steps[i].BeginExtend?
    requires forall k | i < k <= j :: states[k].task.Assigning? && states[k].reg == states[i].reg
    requires steps[j].Finish?
    ensures InService(states[i].reg) && TableOk(states[i].reg, states[i].images) && Fits(states[i].images, RequestOf(steps[i]))
    ensures states[j + 1].images == Serve(states[i].reg, states[i].images, RequestOf(steps[i])).0
  {
    hide Inv, BeginStep, TaskStep, RegisterStep, Outcome, Serve, Fits, TableOk, InService, Init;
    RunInv(states, steps, i);
    OnlyBegins(states[i], steps[i], states[i + 1]);
    ServeBegins(states[i], steps[i], states[i + 1]);
    PlanLasts(states, steps, i + 1, j);
    RunInv(states, steps, j);
    OnlyFinishes(states[j], states[j + 1]);
    PlanEnds(states[j], states[j + 1]);
  }

  lemma OnlyBegins(s: State, step: Step, t: State)
    requires Next(s, step, t) && (step.BeginPush? || step.BeginExtend?)
    ensures BeginStep(s, step, t)
  {
  }

  lemma OnlyFinishes(s: State, t: State)
    requires Next(s, Finish, t)
    ensures TaskStep(s, Finish, t)
  {
  }

  lemma {:induction false} PlanLasts(states: seq<State>, steps: seq<Step>, i: nat, j: nat)
    requires IsRun(states, steps) && i <= j <= |steps|
    requires forall k | i <= k <= j :: states[k].task.Assigning? && states[k].reg == states[i].reg
    ensures Inv(states[i]) && Inv(states[j]) && Outcome(states[j]) == Outcome(states[i])
    decreases j
  {
    hide Inv, Outcome, Next, Init;
    RunInv(states, steps, j);
    if i < j {
      PlanLasts(states, steps, i, j - 1);
      NextPlan(states[j - 1], steps[j - 1], states[j]);
    }
  }

  lemma NextPlan(s: State, step: Step, t: State)
    requires Inv(s) && Next(s, step, t) && s.task.Assigning? && t.task.Assigning? && t.reg == s.reg
    ensures Inv(t) && Outcome(t) == Outcome(s)
  {
    hide Inv, Outcome, RegisterStep;
    NotBegin(s, step, t);
    if RegisterStep(s, step, t) {
      PlanWaits(s, step, t);
    } else {
      PlanKept(s, step, t);
    }
  }

  // ---- out of safe mode ----

  /** Safe mode ends with the first datanode whose address is set, and never begins again. */
  lemma {:induction false} SafeModeEnds(states: seq<State>, steps: seq<Step>, i: nat)
    requires IsRun(states, steps) && i <= |steps|
    ensures states[i].safeMode <= 1
    ensures states[i].safeMode == 0 <==> exists k :: 0 <= k < i && steps[k] == SetAddress
  {
    if i != 0 {
      SafeModeEnds(states, steps, i - 1);
      assert Next(states[i - 1], steps[i - 1], states[i]);
      if states[i - 1].safeMode == 0 {
        var k :| 0 <= k < i - 1 && steps[k] == SetAddress;
      }
    }
  }

  /** Out of safe mode, while no request is served, a push can begin exactly if its file has or gets a place in the table and its blocks fit. */
  lemma CanPush(s: State, name: string, size: nat)
    requires Inv(s)
    ensures (exists t :: Next(s, BeginPush(name, size), t)) <==>
      && s.safeMode == 0 && s.task.Resting?
      && (Lookup(s.images, name).Some? || exists a :: 0 <= a < |s.images| && s.images[a].None?)
      && FirstNew(s.images, name) * DFS_BLOCK_SIZE + size <= MAX_FILE_BLK_COUNT * DFS_BLOCK_SIZE
  {
    hide Inv, PlaceFor, ImageBefore, BlockCount, Lookup, FirstNew;
    InvTable(s);
    var n, k, img := BlockCount(size), PlaceFor(s.images, name), ImageBefore(s.images, name, size);
    var t := s.(images := if k < |s.images| then s.images[k := Some(img.(blocknum := n))] else s.images,
                task := Assigning(k, img.blocknum, img.blocknum + n, 0, n));
    WriteTurnedAway(s.images, name);
    if s.task.Resting? {
      FitsIs(s.reg, s.images, WriteReq(name, size));
      if s.safeMode == 0 && k < MAX_FILE_COUNT && Takes(img, n) {
        assert Next(s, BeginPush(name, size), t);
      }
    }
  }

  /** A modification has blocks to assign exactly if the table holds its file, with fewer blocks than the size takes. */
  lemma CanExtend(s: State, name: string, size: nat)
    requires Inv(s)
    ensures (exists t :: Next(s, BeginExtend(name, size), t)) <==>
      && s.safeMode == 0 && s.task.Resting?
      && Lookup(s.images, name).Some? && Lookup(s.images, name).value.blocknum * DFS_BLOCK_SIZE < size <= MAX_FILE_BLK_COUNT * DFS_BLOCK_SIZE
  {
    hide Inv, BlockCount, Lookup, Find, TableOk;
    InvTable(s);
    var n, k := BlockCount(size), Find(s.images, name);
    FindIs(s.images, name);
    if s.task.Resting? && s.safeMode == 0 && k < MAX_FILE_COUNT {
      FoundOk(s.reg, s.images, name);
      var img := s.images[k].value;
      if img.blocknum < n <= MAX_FILE_BLK_COUNT {
        assert Next(s, BeginExtend(name, size), s.(task := Assigning(k, img.blocknum, n, Behind(img), n)));
      }
    }
  }

  lemma FindIs(images: Images, name: string)
    ensures Find(images, name) < |images| ==> Lookup(images, name) == images[Find(images, name)] && Lookup(images, name).Some?
    ensures Find(images, name) >= |images| ==> Lookup(images, name).None?
  {
  }

  /** Left to itself, the service thread finishes its request, and leaves the table that was planned. */
  lemma {:induction false} CanFinish(s: State) returns (states: seq<State>, steps: seq<Step>)
    requires Inv(s) && s.task.Assigning?
    ensures |states| == |steps| + 1 && states[0] == s
    ensures forall i | 0 <= i < |steps| :: Next(states[i], steps[i], states[i + 1])
    ensures forall i | 0 <= i < |steps| :: (steps[i].SkipSlot? || steps[i].AssignBlock? || steps[i].Finish?) && states[i].task.Assigning?
    ensures states[|steps|] == s.(images := Outcome(s), task := Resting)
    decreases IsRegistry(s.reg), if IsRegistry(s.reg) then Work(s) else 0
  {
    hide Inv, Outcome, Work, TaskStep;
    InvRegistry(s);
    var step, t := OneMore(s);
    if step.Finish? {
      states, steps := [s, t], [step];
    } else {
      PlanKept(s, step, t);
      TaskWork(s, step, t);
      var states2, steps2 := CanFinish(t);
      states, steps := [s] + states2, [step] + steps2;
      forall i | 0 <= i < |steps|
        ensures Next(states[i], steps[i], states[i + 1])
        ensures (steps[i].SkipSlot? || steps[i].AssignBlock? || steps[i].Finish?) && states[i].task.Assigning?
      {
        if i > 0 {
          assert Next(states2[i - 1], steps2[i - 1], states2[i]);
        }
      }
    }
  }

  lemma OneMore(s: State) returns (step: Step, t: State)
    requires Inv(s) && s.task.Assigning?
    ensures IsRegistry(s.reg) && Next(s, step, t) && TaskStep(s, step, t)
    ensures step.SkipSlot? || step.AssignBlock? || step.Finish?
    ensures t.reg == s.reg && t.dncnt == s.dncnt && t.safeMode == s.safeMode && t.registering == s.registering
    ensures step.Finish? ==> t == s.(images := Outcome(s), task := Resting)
  {
    hide Outcome, ImagesOk, Unique, CountOk, EntriesOk;
    InvTable(s);
    NeverStuck(s);
    step, t :| TaskStep(s, step, t);
    if step.Finish? {
      PlanEnds(s, t);
    }
  }

  /** After any run that has left safe mode, with no request under way, a push that fits can begin, assign its blocks and finish. */
  lemma PushIsServed(states: seq<State>, steps: seq<Step>, name: string, size: nat) returns (states2: seq<State>, steps2: seq<Step>)
    requires IsRun(states, steps)
    requires var s := states[|steps|];
      && s.safeMode == 0 && s.task.Resting?
      && (Lookup(s.images, name).Some? || exists a :: 0 <= a < |s.images| && s.images[a].None?)
      && FirstNew(s.images, name) * DFS_BLOCK_SIZE + size <= MAX_FILE_BLK_COUNT * DFS_BLOCK_SIZE
    ensures IsRun(states2, steps2) && states <= states2 && steps + [BeginPush(name, size)] < steps2
    ensures forall i | |steps| < i < |steps2| :: steps2[i].SkipSlot? || steps2[i].AssignBlock? || steps2[i].Finish?
    ensures var s, t := states[|steps|], states2[|steps2|];
      && InService(s.reg) && TableOk(s.reg, s.images) && Fits(s.images, WriteReq(name, size))
      && t == s.(images := Serve(s.reg, s.images, WriteReq(name, size)).0)
  {
    hide Inv, Init, Lookup, FirstNew, Outcome, Serve, TableOk, Fits, InService;
    var s := states[|steps|];
    RunInv(states, steps, |steps|);
    CanPush(s, name, size);
    var step := BeginPush(name, size);
    var t :| Next(s, step, t);
    OnlyBegins(s, step, t);
    InvTable(s);
    ServeBegins(s, step, t);
    BeginLeaves(s, step, t);
    var states3, steps3 := CanFinish(t);
    states2, steps2 := states + states3, steps + [step] + steps3;
    hide Next;
    JoinedRun(states, steps, step, states3, steps3);
    assert states2[|steps2|] == states3[|steps3|];
    assert steps3 != [];
    forall i | |steps| < i < |steps2|
      ensures steps2[i].SkipSlot? || steps2[i].AssignBlock? || steps2[i].Finish?
    {
      assert steps2[i] == steps3[i - |steps| - 1];
    }
  }

  lemma BeginLeaves(s: State, step: Step, t: State)
    requires |s.images| == MAX_FILE_COUNT && BeginStep(s, step, t)
    ensures t == s.(images := t.images, task := t.task) && t.task.Assigning? && s.task.Resting?
  {
  }

  lemma JoinedRun(states: seq<State>, steps: seq<Step>, step: Step, states2: seq<State>, steps2: seq<Step>)
    requires IsRun(states, steps) && |states2| == |steps2| + 1 && Next(states[|steps|], step, states2[0])
    requires forall i | 0 <= i < |steps2| :: Next(states2[i], steps2[i], states2[i + 1])
    ensures IsRun(states + states2, steps + [step] + steps2)
  {
    hide Next, Init;
    var a, b := states + states2, steps + [step] + steps2;
    forall i | 0 <= i < |b|
      ensures Next(a[i], b[i], a[i + 1])
    {
      if i > |steps| {
        var k := i - |steps| - 1;
        assert Next(states2[k], steps2[k], states2[k + 1]);
      }
    }
  }

  // ---- a registration ends ----

  /** The registration thread can always go on: with its datanode, or by accepting any other. */
  lemma RegistrationGoesOn(s: State, id: nat, ip: string, port: int)
    requires Inv(s) && id >= 1
    ensures IsRegistry(s.reg)
    ensures match s.registering
      case Waiting => exists t :: RegisterStep(s, Accept(id, ip, port), t)
      case Counted(_, _, _) => exists t :: RegisterStep(s, FillSlot, t) && t.registering.Slotted?
      case Slotted(_, _, _) => exists t :: RegisterStep(s, SetName, t) && t.registering.Named?
      case Named(_, _, _) => exists t :: RegisterStep(s, SetAddress, t) && t.registering.Waiting?
  {
    hide Filled, ImagesOk, TaskOk, Unique;
    var r := s.registering;
    match r
    case Waiting =>
      var t := if id >= MAX_DATANODE_NUM then s
        else if s.reg[id - 1].None? then s.(dncnt := s.dncnt + 1, registering := Counted(id, ip, port))
        else s.(registering := Slotted(id, ip, port));
      assert RegisterStep(s, Accept(id, ip, port), t);
    case Counted(n, ip, port) =>
      assert RegisterStep(s, FillSlot, s.(reg := s.reg[n - 1 := Some(DataNode(0, "", 0))], registering := Slotted(n, ip, port)));
    case Slotted(n, ip, port) =>
      assert RegisterStep(s, SetName, s.(reg := s.reg[n - 1 := Some(s.reg[n - 1].value.(dnId := n, port := port))], registering := Named(n, ip, port)));
    case Named(n, ip, port) =>
      assert RegisterStep(s, SetAddress, s.(reg := s.reg[n - 1 := Some(s.reg[n - 1].value.(ip := ip))], registering := Waiting, safeMode := 0));
  }

  /** The datanode under registration is the last one that was accepted, and its slot has the fields set so far. */
  ghost predicate LastAccepted(states: seq<State>, steps: seq<Step>, i: nat, k: nat)
    requires |states| == |steps| + 1 && i <= |steps|
  {
    var s := states[i];
    && k < i && IsRegistry(s.reg) && s.registering != Waiting
    && steps[k] == Accept(s.registering.id, s.registering.ip, s.registering.port) && 1 <= s.registering.id < MAX_DATANODE_NUM
    && (forall m | k < m < i :: !steps[m].Accept?)
    && (s.registering.Named? ==> exists ip :: s.reg[s.registering.id - 1] == Some(DataNode(s.registering.id, ip, s.registering.port)))
  }

  lemma {:induction false} Accepted(states: seq<State>, steps: seq<Step>, i: nat)
    requires IsRun(states, steps) && i <= |steps|
    ensures states[i].registering.Waiting? || exists k: nat :: LastAccepted(states, steps, i, k)
  {
    hide BeginStep, TaskStep, Init;
    if i == 0 {
      assert Init(states[0]);
      StartsWaiting(states[0]);
    } else {
      Accepted(states, steps, i - 1);
      var s, step, t := states[i - 1], steps[i - 1], states[i];
      assert Next(s, step, t);
      ServiceLeaves(s, step, t);
      if t.registering != Waiting {
        if step.Accept? {
          assert LastAccepted(states, steps, i, i - 1);
        } else {
          var k: nat :| LastAccepted(states, steps, i - 1, k);
          assert LastAccepted(states, steps, i, k);
        }
      }
    }
  }

  lemma StartsWaiting(s: State)
    requires Init(s)
    ensures s.registering.Waiting?
  {
  }

  lemma ServiceLeaves(s: State, step: Step, t: State)
    requires Next(s, step, t)
    ensures !RegisterStep(s, step, t) ==> t.reg == s.reg && t.registering == s.registering && !step.Accept?
  {
  }

  /** At the end of a registration the slot of the datanode last accepted has its id, address and port, and no other slot changes. */
  lemma Registers(states: seq<State>, steps: seq<Step>, i: nat) returns (k: nat)
    requires IsRun(states, steps) && i < |steps| && steps[i] == SetAddress
    ensures k < i && steps[k].Accept? && 1 <= steps[k].id < MAX_DATANODE_NUM && forall m | k < m < i :: !steps[m].Accept?
    ensures states[i + 1].reg == states[i].reg[steps[k].id - 1 := Some(DataNode(steps[k].id, steps[k].ip, steps[k].port))]
    ensures states[i + 1].registering.Waiting? && states[i + 1].safeMode == 0
  {
    hide BeginStep, TaskStep, Init;
    Accepted(states, steps, i);
    assert Next(states[i], steps[i], states[i + 1]);
    ServiceLeaves(states[i], steps[i], states[i + 1]);
    NotService(states[i], states[i + 1]);
    k :| LastAccepted(states, steps, i, k);
  }

  lemma NotService(s: State, t: State)
    requires Next(s, SetAddress, t)
    ensures RegisterStep(s, SetAddress, t)
  {
  }

  // ---- a run that serves ----

  /** The four steps in which the first datanode registers. */
  lemma FirstRegistration(id: nat, ip: string, port: int) returns (states: seq<State>, steps: seq<Step>)
    requires 1 <= id < MAX_DATANODE_NUM
    ensures steps == [Accept(id, ip, port), FillSlot, SetName, SetAddress] && IsRun(states, steps)
    ensures var s := states[4];
      && IsRegistry(s.reg) && s.reg[id - 1] == Some(DataNode(id, ip, port)) && (forall k | 0 <= k < MAX_DATANODE_NUM && k != id - 1 :: s.reg[k].None?)
      && |s.images| == MAX_FILE_COUNT && (forall k | 0 <= k < MAX_FILE_COUNT :: s.images[k].None?)
      && s.dncnt == 1 && s.safeMode == 0 && s.registering == Waiting && s.task == Resting
  {
    hide BeginStep, TaskStep;
    var s0 := State(seq(MAX_DATANODE_NUM, k => None), seq(MAX_FILE_COUNT, k => None), 0, 1, Waiting, Resting);
    var s1 := s0.(dncnt := 1, registering := Counted(id, ip, port));
    var s2 := s1.(reg := s0.reg[id - 1 := Some(DataNode(0, "", 0))], registering := Slotted(id, ip, port));
    var s3 := s2.(reg := s0.reg[id - 1 := Some(DataNode(id, "", port))], registering := Named(id, ip, port));
    var s4 := s3.(reg := s0.reg[id - 1 := Some(DataNode(id, ip, port))], registering := Waiting, safeMode := 0);
    assert RegisterStep(s0, Accept(id, ip, port), s1);
    assert RegisterStep(s1, FillSlot, s2);
    assert RegisterStep(s2, SetName, s3) by { assert s2.reg[id - 1 := Some(DataNode(id, "", port))] == s3.reg; }
    assert RegisterStep(s3, SetAddress, s4) by { assert s3.reg[id - 1 := Some(DataNode(id, ip, port))] == s4.reg; }
    states, steps := [s0, s1, s2, s3, s4], [Accept(id, ip, port), FillSlot, SetName, SetAddress];
  }

  /** A datanode registers, and then a file is pushed: all its blocks are on that datanode, at its address. */
  lemma FirstPush(id: nat, ip: string, port: int, name: string, size: nat) returns (states: seq<State>, steps: seq<Step>)
    requires 1 <= id < MAX_DATANODE_NUM && size <= MAX_FILE_BLK_COUNT * DFS_BLOCK_SIZE
    ensures IsRun(states, steps) && [Accept(id, ip, port), FillSlot, SetName, SetAddress, BeginPush(name, size)] < steps
    ensures var s := states[|steps|];
      && s.task.Resting? && Lookup(s.images, name).Some?
      && var img := Lookup(s.images, name).value;
        && img.fileSize == size && img.blocknum == BlockCount(size) && |img.blockList| == MAX_FILE_BLK_COUNT
        && img.blocknum <= MAX_FILE_BLK_COUNT
        && forall i | 0 <= i < img.blocknum :: img.blockList[i] == BlockDesc(name, id, i, ip, port)
  {
    hide Init, Next, Serve, BlockCount, Fits, FindFrom, ImageOk;
    var states1, steps1 := FirstRegistration(id, ip, port);
    var s := states1[4];
    EmptyTable(s.images, name);
    assert s.images[0].None?;
    states, steps := PushIsServed(states1, steps1, name, size);
    ServeWrite(s.reg, s.images, name, size);
    var img := Serve(s.reg, s.images, WriteReq(name, size)).1.image;
    forall i | 0 <= i < img.blocknum
      ensures img.blockList[i] == BlockDesc(name, id, i, ip, port)
    {
      assert OnTurn(s.reg, img, 0, i);
    }
  }

  lemma EmptyTable(images: Images, name: string)
    requires |images| == MAX_FILE_COUNT && forall k | 0 <= k < MAX_FILE_COUNT :: images[k].None?
    ensures Lookup(images, name).None? && FirstNew(images, name) == 0
  {
  }

  // ---- the window of a registration ----

  type Addresses = map<nat, (string, int)>

  /** Each datanode registers under its own address. */
  predicate Honest(step: Step, addr: Addresses) {
    step.Accept? ==> step.id in addr && addr[step.id] == (step.ip, step.port)
  }

  /** The registration thread is still setting the fields of the slot. */
  predicate InWindow(r: Registering, slot: nat) {
    (r.Slotted? || r.Named?) && r.id == slot + 1
  }

  /** Each filled slot has its datanode's address, or it is in a window and its ip is still empty. */
  ghost predicate Addressed(s: State, addr: Addresses) {
    && IsRegistry(s.reg)
    && (s.registering.Waiting? || (s.registering.id in addr && addr[s.registering.id] == (s.registering.ip, s.registering.port)))
    && (forall k | 0 <= k < MAX_DATANODE_NUM && s.reg[k].Some? ::
      || (k + 1 in addr && (s.reg[k].value.ip, s.reg[k].value.port) == addr[k + 1])
      || (InWindow(s.registering, k) && s.reg[k].value.ip == ""))
    && (s.registering.Named? ==> (1 <= s.registering.id < MAX_DATANODE_NUM && s.reg[s.registering.id - 1].Some?
      && s.reg[s.registering.id - 1].value.port == s.registering.port))
  }

  lemma AddressedNext(s: State, step: Step, t: State, addr: Addresses)
    requires Addressed(s, addr) && Next(s, step, t) && Honest(step, addr)
    ensures Addressed(t, addr)
  {
  }

  /** In every run of honest datanodes each filled slot has its address, or is in a window and has no ip yet. */
  lemma {:induction false} RunAddressed(states: seq<State>, steps: seq<Step>, i: nat, addr: Addresses)
    requires IsRun(states, steps) && i <= |steps| && forall k | 0 <= k < |steps| :: Honest(steps[k], addr)
    ensures Addressed(states[i], addr)
  {
    hide Next, Honest;
    if i != 0 {
      RunAddressed(states, steps, i - 1, addr);
      AddressedNext(states[i - 1], steps[i - 1], states[i], addr);
    }
  }

  /** An address without an ip is none. */
  predicate Real(addr: Addresses) {
    forall id | id in addr :: addr[id].0 != ""
  }

  /** In every run of honest datanodes a block gets its datanode's address exactly when the ip of the slot is set. */
  lemma AssignedAddress(states: seq<State>, steps: seq<Step>, i: nat, addr: Addresses)
    requires IsRun(states, steps) && i < |steps| && (forall k | 0 <= k < |steps| :: Honest(steps[k], addr)) && Real(addr)
    requires steps[i].AssignBlock?
    ensures var s, t, slot := states[i], states[i + 1], states[i].task.index % MAX_DATANODE_NUM;
      && s.task.Assigning? && t.task.Assigning? && slot < |s.reg| && s.reg[slot].Some?
      && t.task.place < |t.images| && t.images[t.task.place].Some? && s.task.next < |t.images[t.task.place].value.blockList|
      && var b := t.images[t.task.place].value.blockList[s.task.next];
        (b.dnId in addr && (b.ip, b.port) == addr[b.dnId]) <==> s.reg[slot].value.ip != ""
  {
    hide Init, Honest;
    RunAddressed(states, steps, i, addr);
    assert Next(states[i], steps[i], states[i + 1]);
  }

  /** A block assigned in the window, right after its datanode's slot is filled, has a blank address. */
  lemma BlankAddress(s: State, t: State, u: State)
    requires IsRegistry(s.reg) && s.registering.Counted? && RegisterStep(s, FillSlot, t)
    requires TaskStep(t, AssignBlock, u) && s.registering.id == t.task.index % MAX_DATANODE_NUM + 1
    ensures u.task.place < |u.images| && u.images[u.task.place].Some? && t.task.next < |u.images[u.task.place].value.blockList|
    ensures var b := u.images[u.task.place].value.blockList[t.task.next]; b.dnId == s.registering.id && b.ip == "" && b.port == 0
  {
  }
}
