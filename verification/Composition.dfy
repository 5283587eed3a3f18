/** The datanodes of the distributed file system, as services over their own Simple File Systems. */
module Composition {
  import opened DataNode
  import opened Layout
  import Protocol
  import RoundRobin
  import Wire

  /**
   A new datanode that is sent what datanode k receives in a run, one packet after
   the other, stores what the run has it store, and answers each read as the run
   has it answer. Its file system takes at most 97 blocks, the first packet has to
   be a write.
   */
  method Replay(ghost states: seq<Protocol.State>, steps: seq<Protocol.Step>, i: nat, k: nat) returns (service: Service, answers: seq<seq<Wire.byte>>)
    requires Protocol.IsRun(states, steps) && i <= |steps| && k < |states[i].stores|
    requires var packets := Protocol.Received(steps, i, k);
      |KeysOf(packets)| <= NINODES && (packets != [] ==> packets[0].CreatePacket?)
    ensures fresh(service) && service.Valid() && service.datanodeId == k + 1
    ensures service.Blocks() == states[i].stores[k]
    ensures forall h: nat | h < i && steps[h].Fetch? && steps[h].block.dnId == k + 1 ::
      && |Protocol.Received(steps, h, k)| < |answers| && k < |states[h].stores|
      && answers[|Protocol.Received(steps, h, k)|] == Wire.Answer(states[h].stores[k], steps[h].block)
  {
    hide Protocol.IsRun, AllAdmitted, Wire.HandledAll, Wire.Answer, Protocol.Received, Service.Valid, KeysOf;
    var packets := Protocol.Received(steps, i, k);
    TenStores(states, steps, i);
    Protocol.ReceivedBlocks(states, steps, i, k);
    Protocol.StoreIsServed(states, steps, i, k);
    FewBlocks(packets);
    service := new Service(k + 1);
    answers := service.ServeAll(packets);
    forall h: nat | h < i && steps[h].Fetch? && steps[h].block.dnId == k + 1
      ensures |Protocol.Received(steps, h, k)| < |answers| && k < |states[h].stores|
      ensures answers[|Protocol.Received(steps, h, k)|] == Wire.Answer(states[h].stores[k], steps[h].block)
    {
      FetchAnswer(steps, h, i, k);
      TenStores(states, steps, h);
      Protocol.StoreIsServed(states, steps, h, k);
    }
  }

  lemma TenStores(states: seq<Protocol.State>, steps: seq<Protocol.Step>, i: nat)
    requires Protocol.IsRun(states, steps) && i <= |steps|
    ensures |states| == |steps| + 1 && |states[i].stores| == RoundRobin.MAX_DATANODE_NUM
  {
    Protocol.RunShaped(states, steps, i);
  }

  /** What was received by time h comes first, and then the read of step h. */
  lemma {:induction false} FetchAnswer(steps: seq<Protocol.Step>, h: nat, i: nat, k: nat)
    requires h < i <= |steps| && steps[h].Fetch? && steps[h].block.dnId == k + 1
    ensures var all, before := Protocol.Received(steps, i, k), Protocol.Received(steps, h, k);
      |before| < |all| && all[..|before|] == before && all[|before|] == Wire.ReadPacket(steps[h].block)
    decreases i
  {
    if h + 1 < i {
      FetchAnswer(steps, h, i - 1, k);
    }
  }
}
