/** The assignment of blocks to registered datanodes, in turn. */
module RoundRobin {
  import opened Common

  const MAX_DATANODE_NUM: nat := 10

  datatype DataNode = DataNode(dnId: nat, ip: string, port: int)

  type Registry = seq<Option<DataNode>>

  predicate IsRegistry(reg: Registry) {
    |reg| == MAX_DATANODE_NUM
  }

  /** At least one datanode is registered. */
  ghost predicate InService(reg: Registry) {
    IsRegistry(reg) && exists k :: 0 <= k < MAX_DATANODE_NUM && reg[k].Some?
  }

  /** The first filled slot from slot i on, going round, looking at no more than n empty ones. */
  function Seek(reg: Registry, i: nat, n: nat): (s: nat)
    requires IsRegistry(reg) && i < MAX_DATANODE_NUM
    ensures s < MAX_DATANODE_NUM
    decreases n
  {
    if n == 0 || reg[i].Some? then i else Seek(reg, (i + 1) % MAX_DATANODE_NUM, n - 1)
  }

  function NextSlot(reg: Registry, i: nat): (s: nat)
    requires IsRegistry(reg)
    ensures s < MAX_DATANODE_NUM
  {
    Seek(reg, i % MAX_DATANODE_NUM, MAX_DATANODE_NUM)
  }

  /** The slots for n blocks, from slot number i on. */
  function Assign(reg: Registry, i: nat, n: nat): (s: seq<nat>)
    requires IsRegistry(reg)
    ensures |s| == n && forall k | 0 <= k < n :: s[k] < MAX_DATANODE_NUM
    decreases n
  {
    if n == 0 then [] else [NextSlot(reg, i)] + Assign(reg, NextSlot(reg, i) + 1, n - 1)
  }

  // ---- the filled slots in order ----

  /** The filled slots from slot i on, in ascending order. */
  function FilledFrom(reg: Registry, i: nat): (s: seq<nat>)
    requires IsRegistry(reg) && i <= MAX_DATANODE_NUM
    ensures forall k | 0 <= k < |s| :: i <= s[k] < MAX_DATANODE_NUM && reg[s[k]].Some?
    ensures forall j, k | 0 <= j < k < |s| :: s[j] < s[k]
    ensures forall x | i <= x < MAX_DATANODE_NUM && reg[x].Some? :: x in s
    decreases MAX_DATANODE_NUM - i
  {
    if i == MAX_DATANODE_NUM then []
    else if reg[i].Some? then [i] + FilledFrom(reg, i + 1)
    else FilledFrom(reg, i + 1)
  }

  function Filled(reg: Registry): seq<nat>
    requires IsRegistry(reg)
  {
    FilledFrom(reg, 0)
  }

  /** A search that finds a filled slot ahead stops at the first one. */
  lemma {:induction false} SeekAhead(reg: Registry, i: nat, n: nat, x: nat)
    requires IsRegistry(reg) && i <= x < MAX_DATANODE_NUM && reg[x].Some?
    requires forall y | i <= y < x :: reg[y].None?
    requires n >= x - i
    ensures Seek(reg, i, n) == x
    decreases x - i
  {
    if i < x {
      SeekAhead(reg, i + 1, n - 1, x);
    }
  }

  /** A search with nothing ahead goes on from the first slot. */
  lemma {:induction false} SeekAround(reg: Registry, i: nat, n: nat)
    requires IsRegistry(reg) && i < MAX_DATANODE_NUM && n >= MAX_DATANODE_NUM - i
    requires forall y | i <= y < MAX_DATANODE_NUM :: reg[y].None?
    ensures Seek(reg, i, n) == Seek(reg, 0, n - (MAX_DATANODE_NUM - i))
    decreases MAX_DATANODE_NUM - i
  {
    if i + 1 < MAX_DATANODE_NUM {
      SeekAround(reg, i + 1, n - 1);
    }
  }

  lemma FirstFilled(reg: Registry)
    requires InService(reg)
    ensures Filled(reg) != [] && forall n: nat | n >= Filled(reg)[0] :: Seek(reg, 0, n) == Filled(reg)[0]
  {
    var s := Filled(reg);
    var k :| 0 <= k < MAX_DATANODE_NUM && reg[k].Some?;
    assert k in s;
    forall n: nat | n >= s[0]
      ensures Seek(reg, 0, n) == s[0]
    {
      NoneBetween(reg, -1, s[0], -1);
      SeekAhead(reg, 0, n, s[0]);
    }
  }

  /** Between two successive filled slots there is none. */
  lemma NoneBetween(reg: Registry, x: int, y: int, j: int)
    requires IsRegistry(reg) && -1 <= j < |Filled(reg)|
    requires x == (if j == -1 then -1 else Filled(reg)[j])
    requires y == (if j + 1 == |Filled(reg)| then MAX_DATANODE_NUM else Filled(reg)[j + 1])
    ensures forall z | x < z < y :: reg[z].None?
  {
    hide FilledFrom;
    var s := Filled(reg);
    forall z | x < z < y
      ensures reg[z].None?
    {
      if reg[z].Some? {
        assert z in s;
        var k :| 0 <= k < |s| && s[k] == z;
      }
    }
  }

  /** The position whose turn comes after position j of k. */
  function Turn(j: nat, k: nat): nat {
    if j + 1 < k then j + 1 else 0
  }

  /** From behind the j-th filled slot the search finds the next one, and behind the last one the first. */
  lemma NextFilled(reg: Registry, j: nat)
    requires InService(reg) && j < |Filled(reg)|
    ensures NextSlot(reg, Filled(reg)[j] + 1) == Filled(reg)[Turn(j, |Filled(reg)|)]
  {
    hide FilledFrom, Filled, Seek;
    var s := Filled(reg);
    FirstFilled(reg);
    var i := s[j] + 1;
    NoneBetween(reg, s[j], if j + 1 == |s| then MAX_DATANODE_NUM else s[j + 1], j);
    SlotsAscend(reg, j);
    if j + 1 < |s| {
      SeekAhead(reg, i, MAX_DATANODE_NUM, s[j + 1]);
    } else if i < MAX_DATANODE_NUM {
      SeekAround(reg, i, MAX_DATANODE_NUM);
    }
  }

  lemma SlotsAscend(reg: Registry, j: nat)
    requires IsRegistry(reg) && j < |Filled(reg)|
    ensures Filled(reg)[j] < MAX_DATANODE_NUM && reg[Filled(reg)[j]].Some? && Filled(reg)[0] <= Filled(reg)[j]
    ensures j + 1 < |Filled(reg)| ==> Filled(reg)[j] < Filled(reg)[j + 1] < MAX_DATANODE_NUM && reg[Filled(reg)[j + 1]].Some?
  {
  }

  /** n turns among the slots, beginning with the one at position j. */
  function Turns(slots: seq<nat>, j: nat, n: nat): (s: seq<nat>)
    requires j < |slots|
    ensures |s| == n
    decreases n
  {
    if n == 0 then [] else [slots[j]] + Turns(slots, Turn(j, |slots|), n - 1)
  }

  lemma {:induction false} AssignTurns(reg: Registry, j: nat, n: nat)
    requires InService(reg) && j < |Filled(reg)|
    ensures Assign(reg, Filled(reg)[j] + 1, n) == Turns(Filled(reg), Turn(j, |Filled(reg)|), n)
    decreases n
  {
    hide Filled, Turn;
    if n != 0 {
      NextFilled(reg, j);
      TurnInRange(j, |Filled(reg)|);
      AssignTurns(reg, Turn(j, |Filled(reg)|), n - 1);
    }
  }

  lemma TurnInRange(j: nat, k: nat)
    requires j < k
    ensures Turn(j, k) < k
  {
  }

  /** Each registered datanode in its turn, and then again from the first one. */
  lemma {:induction false} TurnAt(slots: seq<nat>, j: nat, n: nat, i: nat)
    requires j < |slots| && i < n
    ensures Turns(slots, j, n)[i] == slots[(j + i) % |slots|]
    decreases i
  {
    var k := |slots|;
    if i == 0 {
      DivUnique(j, k, 0, j);
    } else {
      TurnAt(slots, Turn(j, k), n - 1, i - 1);
      if j + 1 == k {
        ModOnce(i - 1, k);
      }
    }
  }

  lemma ModOnce(x: nat, k: nat)
    requires k > 0
    ensures (x + k) % k == x % k
  {
    Euclid(x, k);
    DivUnique(x + k, k, x / k + 1, x % k);
  }

  lemma Euclid(x: nat, k: nat)
    requires k > 0
    ensures x == (x / k) * k + x % k && 0 <= x % k < k && x / k >= 0
  {
  }

  lemma DivUnique(x: nat, k: nat, q: nat, m: nat)
    requires k > 0 && m < k && x == q * k + m
    ensures x % k == m && x / k == q
  {
    Euclid(x, k);
    SameQuotient(q, m, x / k, x % k, k);
  }

  lemma SameQuotient(q: nat, m: nat, q2: nat, m2: nat, k: nat)
    requires m < k && m2 < k && q * k + m == q2 * k + m2
    ensures q == q2 && m == m2
  {
    if q > q2 {
      Times(q, q2, k);
    } else if q < q2 {
      Times(q2, q, k);
    }
  }

  lemma Times(a: nat, b: nat, k: nat)
    requires a > b
    ensures a * k >= b * k + k
  {
    var c := a - b - 1;
    assert a * k == b * k + k + c * k;
  }

  /** A new file's block i goes to filled slot number i mod k, with k datanodes registered. */
  lemma NewFileTurns(reg: Registry, n: nat)
    requires InService(reg)
    ensures Filled(reg) != [] && Assign(reg, 0, n) == Turns(Filled(reg), 0, n)
    ensures forall i | 0 <= i < n :: Assign(reg, 0, n)[i] == Filled(reg)[i % |Filled(reg)|]
  {
    hide Filled, Turns;
    FirstFilled(reg);
    var s := Filled(reg);
    FirstTurn(reg, n);
    forall i | 0 <= i < n
      ensures Assign(reg, 0, n)[i] == s[i % |s|]
    {
      TurnAt(s, 0, n, i);
    }
  }

  lemma FirstTurn(reg: Registry, n: nat)
    requires InService(reg)
    ensures Filled(reg) != [] && Assign(reg, 0, n) == Turns(Filled(reg), 0, n)
  {
    hide Filled;
    FirstFilled(reg);
    SlotsAscend(reg, 0);
    if n != 0 {
      AssignTurns(reg, 0, n - 1);
    }
  }

  // ---- balance ----

  function Count(s: seq<nat>, x: nat): nat {
    if s == [] then 0 else Count(s[..|s| - 1], x) + (if s[|s| - 1] == x then 1 else 0)
  }

  /** Taking turns among k slots, slot j gets n / k blocks, and one more while its turn has come in the last round. */
  lemma {:induction false} TurnsAreBalanced(turns: seq<nat>, slots: seq<nat>, j: nat)
    requires j < |slots| && forall a, b | 0 <= a < b < |slots| :: slots[a] != slots[b]
    requires forall i | 0 <= i < |turns| :: turns[i] == slots[i % |slots|]
    ensures Count(turns, slots[j]) == |turns| / |slots| + (if j < |turns| % |slots| then 1 else 0)
    decreases |turns|
  {
    var n, k := |turns|, |slots|;
    if n == 0 {
      DivUnique(0, k, 0, 0);
    } else {
      TurnsAreBalanced(turns[..n - 1], slots, j);
      NextDivision(n - 1, k);
      Euclid(n - 1, k);
      assert turns[n - 1] == slots[(n - 1) % k];
    }
  }

  lemma NextDivision(x: nat, k: nat)
    requires k > 0
    ensures x % k + 1 < k ==> (x + 1) / k == x / k && (x + 1) % k == x % k + 1
    ensures x % k + 1 == k ==> (x + 1) / k == x / k + 1 && (x + 1) % k == 0
  {
    Euclid(x, k);
    if x % k + 1 < k {
      DivUnique(x + 1, k, x / k, x % k + 1);
    } else {
      assert (x / k + 1) * k == (x / k) * k + k;
      DivUnique(x + 1, k, x / k + 1, 0);
    }
  }

  /** With k datanodes registered, each gets n / k or n / k + 1 blocks of a new file of n blocks. */
  lemma Balanced(reg: Registry, n: nat, slot: nat)
    requires InService(reg) && slot < MAX_DATANODE_NUM && reg[slot].Some?
    ensures Filled(reg) != [] && var k := |Filled(reg)|; n / k <= Count(Assign(reg, 0, n), slot) <= n / k + 1
    ensures n % |Filled(reg)| == 0 ==> Count(Assign(reg, 0, n), slot) == n / |Filled(reg)|
  {
    hide Assign;
    NewFileTurns(reg, n);
    var s := Filled(reg);
    var j :| 0 <= j < |s| && s[j] == slot;
    TurnsAreBalanced(Assign(reg, 0, n), s, j);
  }

  // ---- extension ----

  /** Where an assignment leaves off. */
  function Resume(slots: seq<nat>): nat {
    if slots == [] then 0 else slots[|slots| - 1] + 1
  }

  /** Assigning m blocks and then n more, from where the first assignment left off, is assigning m + n blocks. */
  lemma {:induction false} AssignInParts(reg: Registry, i: nat, m: nat, n: nat)
    requires IsRegistry(reg)
    ensures Assign(reg, i, m + n) == Assign(reg, i, m) + Assign(reg, if m == 0 then i else Resume(Assign(reg, i, m)), n)
    decreases m
  {
    hide Seek, NextSlot;
    if m != 0 {
      var s := NextSlot(reg, i);
      AssignInParts(reg, s + 1, m - 1, n);
      var a, b := Assign(reg, i, m), Assign(reg, s + 1, m - 1);
      assert a == [s] + b;
      assert Resume(a) == if m == 1 then s + 1 else Resume(b);
    }
  }
}
