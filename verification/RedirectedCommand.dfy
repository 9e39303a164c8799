// A multi-key command against a cluster that redirects: what the log of the retry loop means for the
// stores of the slots, and why the merged reply is that of the undivided command all the same.

module RedirectedCommand {
  import opened Bytes
  import opened Resp
  import opened Formatter
  import opened CommandRoundTrip
  import opened KeySlot
  import opened Fragments
  import opened FragmentBuilder
  import opened Gather
  import opened ScatterGather
  import opened ClusterCommand
  import opened Redirect
  import PipelinedCommands

  // A node that redirects a request has not run it; one that answers it owns the slot and has.
  predicate Runs(e: Event) { e.Got? && !Redirecting(ErrorTypeOf(e.reply)) }

  /** The stores after what one request met on its way. */
  function AfterLog(log: seq<Event>, f: Fragment, stores: seq<Store>): (r: seq<Store>)
    requires |stores| == SLOTS
    ensures |r| == SLOTS
  {
    if log == [] then stores else
    var before := AfterLog(log[..|log| - 1], f, stores);
    if Runs(log[|log| - 1]) then before[f.slot := Server(f.bytes, before[f.slot]).0] else before
  }

  // Every answer that is no redirection is what the slot's owner says to the request.
  ghost predicate Honest(log: seq<Event>, f: Fragment, stores: seq<Store>)
    requires |stores| == SLOTS
  {
    forall i :: 0 <= i < |log| && Runs(log[i]) ==>
      log[i].reply == Server(f.bytes, AfterLog(log[..i], f, stores)[f.slot]).1
  }

  function AfterParts(parts: seq<seq<Event>>, frags: seq<Fragment>, stores: seq<Store>): (r: seq<Store>)
    requires |stores| == SLOTS && |parts| <= |frags|
    ensures |r| == SLOTS
  {
    if parts == [] then stores else AfterParts(parts[1..], frags[1..], AfterLog(parts[0], frags[0], stores))
  }

  ghost predicate AllHonest(parts: seq<seq<Event>>, frags: seq<Fragment>, stores: seq<Store>)
    requires |stores| == SLOTS && |parts| <= |frags|
  {
    parts == [] ||
    (Honest(parts[0], frags[0], stores)
     && AllHonest(parts[1..], frags[1..], AfterLog(parts[0], frags[0], stores)))
  }

  /** However often a request is sent, at most one node runs it, and nothing is sent after that. */
  lemma RunOnce(log: seq<Event>, id: nat)
    requires Orderly(log, id)
    ensures forall i :: 0 <= i < |log| - 1 ==> !Runs(log[i])
  {
    forall i | 0 <= i < |log| - 1
      ensures !Runs(log[i])
    {
      assert Follows(log[i], log[i + 1], id);
    }
  }

  lemma {:induction false} NothingRun(log: seq<Event>, f: Fragment, stores: seq<Store>)
    requires |stores| == SLOTS && forall i :: 0 <= i < |log| ==> !Runs(log[i])
    ensures AfterLog(log, f, stores) == stores
  {
    hide Runs, Server;
    if log != [] {
      NothingRun(log[..|log| - 1], f, stores);
    }
  }

  /** A request that was answered without a redirection at the end has been run exactly once. */
  lemma AnsweredOnce(log: seq<Event>, id: nat, f: Fragment, stores: seq<Store>, r: Reply)
    requires |stores| == SLOTS && Orderly(log, id) && EndsIn(log, r) && !Redirecting(ErrorTypeOf(r))
    requires Honest(log, f, stores)
    ensures var (store, reply) := Server(f.bytes, stores[f.slot]);
            r == reply && AfterLog(log, f, stores) == stores[f.slot := store]
  {
    hide Orderly, Server, ErrorTypeOf;
    var n := |log| - 1;
    RunOnce(log, id);
    NothingRun(log[..n], f, stores);
    assert Runs(log[n]);
  }

  function SubsOf(frags: seq<Fragment>, replies: seq<Reply>): seq<SubReply>
    requires |frags| == |replies|
  {
    if frags == [] then [] else [SubReply(frags[0].slot, Some(replies[0]))] + SubsOf(frags[1..], replies[1..])
  }

  // A finished request: an orderly log that ends in the reply, which is no redirection.
  ghost predicate Finished(log: seq<Event>, id: nat, r: Reply) {
    Orderly(log, id) && EndsIn(log, r) && !Redirecting(ErrorTypeOf(r))
  }

  /** When every request was finished, whatever redirections it met, it is as if the fragments had been run
      in list order at their slots. */
  lemma {:induction false} FinishedRuns(parts: seq<seq<Event>>, ids: seq<nat>, replies: seq<Reply>,
                                        frags: seq<Fragment>, stores: seq<Store>)
    requires |stores| == SLOTS && |parts| == |ids| == |replies| == |frags| && AllHonest(parts, frags, stores)
    requires forall k :: 0 <= k < |parts| ==> Finished(parts[k], ids[k], replies[k])
    ensures RunFragments(frags, stores) == (AfterParts(parts, frags, stores), SubsOf(frags, replies))
  {
    hide Server, AfterLog, Honest, Finished;
    if parts != [] {
      assert Finished(parts[0], ids[0], replies[0]);
      FirstFinished(parts[0], ids[0], frags[0], stores, replies[0]);
      forall k | 0 <= k < |parts| - 1
        ensures Finished(parts[1..][k], ids[1..][k], replies[1..][k])
      {
        assert Finished(parts[k + 1], ids[k + 1], replies[k + 1]);
      }
      FinishedRuns(parts[1..], ids[1..], replies[1..], frags[1..], AfterLog(parts[0], frags[0], stores));
    }
  }

  lemma FirstFinished(log: seq<Event>, id: nat, f: Fragment, stores: seq<Store>, r: Reply)
    requires |stores| == SLOTS && Finished(log, id, r) && Honest(log, f, stores)
    ensures var (store, reply) := Server(f.bytes, stores[f.slot]);
            r == reply && AfterLog(log, f, stores) == stores[f.slot := store]
  {
    AnsweredOnce(log, id, f, stores, r);
  }

  type Call = PipelinedCommands.Call

  /** What the client makes of the replies to a command's requests. */
  function Gathered(call: Call, replies: seq<Reply>): Option<Reply>
    requires MultiKey(call.kind, call.argv) && |replies| == |PipelinedCommands.Sent(call)|
  {
    if InOneSlot(call.kind, call.argv) then Some(replies[0])
    else Merged(call.kind, SubsOf(PipelinedCommands.Sent(call), replies), PipelinedCommands.SlotList(call))
  }

  /** Scatter and gather through redirections: the merged reply and the slots are those of the undivided
      command. */
  lemma RedirectedIsWhole(call: Call, parts: seq<seq<Event>>, ids: seq<nat>, replies: seq<Reply>, whole: Store,
                          stores: seq<Store>)
    requires PipelinedCommands.Proper(call) && |stores| == SLOTS && Holds(whole, stores)
    requires |parts| == |ids| == |replies| == |PipelinedCommands.Sent(call)|
    requires AllHonest(parts, PipelinedCommands.Sent(call), stores)
    requires forall k :: 0 <= k < |parts| ==> Finished(parts[k], ids[k], replies[k])
    ensures Holds(Serve(call.argv, whole).0, AfterParts(parts, PipelinedCommands.Sent(call), stores))
    ensures Gathered(call, replies) == Some(Serve(call.argv, whole).1)
  {
    hide FragmentsFrom, Holds, Serve, Merged, Finished, AllHonest, AfterParts, KindOf, Slot, KeyAt, Server, Format;
    var kind, argv := call.kind, call.argv;
    FinishedRuns(parts, ids, replies, PipelinedCommands.Sent(call), stores);
    if InOneSlot(kind, argv) {
      var slot := Slot(KeyAt(kind, argv, KeyCount(kind, argv) - 1));
      OneSlotIsWhole(kind, argv, whole, stores, slot);
      ServerRuns(kind, argv, stores[slot]);
      var f := Fragment(slot, Format(argv));
      RunHead(f, [], stores);
      assert [f] + [] == [f];
      assert SubsOf([f], replies)[0] == SubReply(slot, Some(replies[0]));
    } else {
      ScatterGatherIsWhole(kind, argv, whole, stores, PipelinedCommands.SlotList(call));
    }
  }

  // ---------------------------------------------------------------- the whole client

  /** What a slot's owner says to a fragment is never an error. */
  lemma {:induction false} FragmentAnswered(kind: Kind, argv: seq<seq<byte>>, from: nat, k: nat, store: Store)
    requires MultiKey(kind, argv) && k < |FragmentsFrom(kind, argv, from)|
    ensures !Server(FragmentsFrom(kind, argv, from)[k].bytes, store).1.Error?
    decreases SLOTS - from
  {
    hide Server, Picks, SlotArgv, Format;
    var picks := Picks(kind, argv, from, KeyCount(kind, argv));
    if picks == [] {
      FragmentAnswered(kind, argv, from + 1, k, store);
    } else if k > 0 {
      FragmentAnswered(kind, argv, from + 1, k - 1, store);
    } else {
      OwnerAnswers(kind, argv, from, store);
    }
  }

  lemma OwnerAnswers(kind: Kind, argv: seq<seq<byte>>, slot: nat, store: Store)
    requires MultiKey(kind, argv) && Picks(kind, argv, slot, KeyCount(kind, argv)) != []
    ensures !Server(Format(SlotArgv(kind, argv, slot)), store).1.Error?
  {
    hide Server, Picks, Format, ExecKeys;
    FragmentEffect(kind, argv, Picks(kind, argv, slot, KeyCount(kind, argv)), store);
  }

  // Each part is honest about the stores of its moment.
  lemma {:induction false} LastHonest(parts: seq<seq<Event>>, frags: seq<Fragment>, stores: seq<Store>, k: nat)
    requires |stores| == SLOTS && k < |parts| <= |frags| && AllHonest(parts, frags, stores)
    ensures exists s: seq<Store> :: |s| == SLOTS && Honest(parts[k], frags[k], s)
  {
    hide Honest, AfterLog;
    if k > 0 {
      LastHonest(parts[1..], frags[1..], AfterLog(parts[0], frags[0], stores), k - 1);
    } else {
      assert Honest(parts[0], frags[0], stores);
    }
  }

  lemma SentAnswered(call: Call, k: nat, store: Store)
    requires PipelinedCommands.Proper(call) && k < |PipelinedCommands.Sent(call)|
    ensures !Server(PipelinedCommands.Sent(call)[k].bytes, store).1.Error?
  {
    hide Server, FragmentsFrom, Format, KindOf, Slot, KeyAt, ExecKeys;
    if InOneSlot(call.kind, call.argv) {
      ServerRuns(call.kind, call.argv, store);
    } else {
      FragmentAnswered(call.kind, call.argv, 0, k, store);
    }
  }

  /** An error that is no redirection cannot come from the slot's owner. */
  lemma NoError(call: Call, parts: seq<seq<Event>>, ids: seq<nat>, replies: seq<Reply>, stores: seq<Store>, k: nat)
    requires PipelinedCommands.Proper(call) && |stores| == SLOTS
    requires |replies| <= |parts| <= |ids| == |PipelinedCommands.Sent(call)| && k < |replies|
    requires AllHonest(parts, PipelinedCommands.Sent(call), stores)
    requires Finished(parts[k], ids[k], replies[k])
    ensures !replies[k].Error?
  {
    hide Server, Honest, AllHonest;
    var frags := PipelinedCommands.Sent(call);
    LastHonest(parts, frags, stores, k);
    var s: seq<Store> :| |s| == SLOTS && Honest(parts[k], frags[k], s);
    FirstFinished(parts[k], ids[k], frags[k], s, replies[k]);
    SentAnswered(call, k, s[frags[k].slot]);
  }

  // How the requests of a command went: all answered, or the last of them an error or given up.
  ghost predicate Went(n: nat, parts: seq<seq<Event>>, nets: nat -> nat -> Turn, replies: seq<Reply>, before: int,
                       max: int)
  {
    && |replies| <= |parts| <= n
    && (forall k :: 0 <= k < |replies| ==> Done(parts[k], k, nets(k), replies[k]))
    && (|replies| < n ==>
          if |replies| == |parts| then replies != [] && replies[|replies| - 1].Error?
          else |parts| == |replies| + 1 && (forall r :: r in replies ==> !r.Error?)
               && Missed(parts[|replies|], |replies|, nets(|replies|), before + CostAll(parts[..|replies|], nets), max))
  }

  method SendAll(cluster: Cluster, n: nat, nets: nat -> nat -> Turn)
    returns (replies: seq<Reply>, ghost parts: seq<seq<Event>>)
    requires 0 <= cluster.retryCount <= cluster.maxRedirect
    modifies cluster`retryCount
    ensures Went(n, parts, nets, replies, old(cluster.retryCount), cluster.maxRedirect)
  {
    hide Done, Missed, CostAll;
    var ids := seq(n, i requires 0 <= i < n => i);
    var log;
    replies, log, parts := cluster.FormattedCommand(ids, nets);
    forall k | 0 <= k < |replies|
      ensures Done(parts[k], k, nets(k), replies[k])
    {
      assert ids[k] == k;
    }
  }

  lemma WentTells(n: nat, parts: seq<seq<Event>>, nets: nat -> nat -> Turn, replies: seq<Reply>, before: int, max: int)
    requires Went(n, parts, nets, replies, before, max)
    ensures forall k :: 0 <= k < |parts| ==> True(parts[k], nets(k)) && (Final(parts[k]) <==> k < |replies|)
    ensures forall k :: 0 <= k < |parts| && !Final(parts[k]) ==>
              GivesUp(parts[k], nets(k), before + CostAll(parts[..k], nets), max)
  {
    hide Orderly, True, Final, GivesUp, CostAll, EndsIn, ErrorTypeOf;
    forall k | 0 <= k < |parts|
      ensures True(parts[k], nets(k)) && (Final(parts[k]) <==> k < |replies|)
      ensures !Final(parts[k]) ==> GivesUp(parts[k], nets(k), before + CostAll(parts[..k], nets), max)
    {
      if k < |replies| {
        assert Done(parts[k], k, nets(k), replies[k]);
      }
    }
  }

  /** From honest owners no error comes, and when all have answered the command is done as a whole. */
  lemma WentWell(call: Call, parts: seq<seq<Event>>, nets: nat -> nat -> Turn, replies: seq<Reply>, before: int,
                 max: int, whole: Store, stores: seq<Store>)
    requires PipelinedCommands.Proper(call) && |stores| == SLOTS && Holds(whole, stores)
    requires Went(|PipelinedCommands.Sent(call)|, parts, nets, replies, before, max)
    requires AllHonest(parts, PipelinedCommands.Sent(call), stores)
    ensures replies != [] ==> !replies[|replies| - 1].Error?
    ensures |replies| < |PipelinedCommands.Sent(call)| ==> |parts| == |replies| + 1
    ensures |replies| == |PipelinedCommands.Sent(call)| ==>
              |parts| == |replies| && Gathered(call, replies) == Some(Serve(call.argv, whole).1)
              && Holds(Serve(call.argv, whole).0, AfterParts(parts, PipelinedCommands.Sent(call), stores))
  {
    hide Orderly, True, Final, GivesUp, CostAll, EndsIn, ErrorTypeOf, AllHonest, Holds, Serve, AfterParts, Missed,
      Gathered, PipelinedCommands.Sent, KindOf;
    var n := |PipelinedCommands.Sent(call)|;
    var ids := seq(n, i requires 0 <= i < n => i);
    forall k | 0 <= k < |replies|
      ensures Finished(parts[k], ids[k], replies[k])
    {
      assert Done(parts[k], k, nets(k), replies[k]);
    }
    if replies != [] {
      NoError(call, parts, ids, replies, stores, |replies| - 1);
    }
    if |replies| == n {
      RedirectedIsWhole(call, parts, ids, replies, whole, stores);
    }
  }

  /** One synchronous command, end to end: formatted, parsed, cut, sent through redirections, merged. If the
      owners of the slots answer honestly and a reply comes back at all, it is that of the undivided
      command, and every slot holds what it should. */
  method CommandArgv(cluster: Cluster, call: Call, nets: nat -> nat -> Turn, ghost whole: Store,
                     ghost stores: seq<Store>)
    returns (overran: bool, reply: Option<Reply>, ghost parts: seq<seq<Event>>)
    requires PipelinedCommands.Proper(call) && Fits32(call.argv) && |stores| == SLOTS && Holds(whole, stores)
    requires 0 <= cluster.retryCount <= cluster.maxRedirect
    modifies cluster`retryCount
    ensures overran <==> KeyCount(call.kind, call.argv) > 1 && !AllNumeralsSafe(call.kind, call.argv)
    ensures overran ==> parts == [] && reply == None
    ensures |parts| <= |PipelinedCommands.Sent(call)|
    ensures reply.Some? && AllHonest(parts, PipelinedCommands.Sent(call), stores) ==>
              reply == Some(Serve(call.argv, whole).1)
              && Holds(Serve(call.argv, whole).0, AfterParts(parts, PipelinedCommands.Sent(call), stores))
    ensures !overran && AllHonest(parts, PipelinedCommands.Sent(call), stores) ==>
              (reply.Some? <==> |parts| == |PipelinedCommands.Sent(call)|
                                && forall k :: 0 <= k < |parts| ==> Final(parts[k]))
    ensures forall k :: 0 <= k < |parts| ==> True(parts[k], nets(k))
    ensures forall k :: 0 <= k < |parts| && !Final(parts[k]) ==>
              GivesUp(parts[k], nets(k), old(cluster.retryCount) + CostAll(parts[..k], nets), cluster.maxRedirect)
  {
    hide Slot, KeyAt, Format, Holds, Serve, KindOf, AllNumeralsSafe, FragmentsFrom, AllHonest, AfterParts, True,
      GivesUp, CostAll, Final, Went, Gathered;
    parts := [];
    var cmd, cut := CommandFormatBySlot(call.kind, call.argv);
    if cut.Overrun? {
      return true, None, [];
    }
    var frags := if cut.OneSlot? then [Fragment(cut.slot, cmd)] else cut.fragments;
    assert frags == PipelinedCommands.Sent(call);
    PipelinedCommands.SomethingSent(call, 0);
    overran := false;
    var replies;
    ghost var before := cluster.retryCount;
    replies, parts := SendAll(cluster, |frags|, nets);
    WentCounts(|frags|, parts, nets, replies, before, cluster.maxRedirect);
    WentTells(|frags|, parts, nets, replies, before, cluster.maxRedirect);
    assert |replies| < |parts| ==> !Final(parts[|replies|]);
    if AllHonest(parts, frags, stores) {
      WentWell(call, parts, nets, replies, before, cluster.maxRedirect, whole, stores);
    }
    reply := Conclude(call, cut, frags, replies);
  }

  lemma WentCounts(n: nat, parts: seq<seq<Event>>, nets: nat -> nat -> Turn, replies: seq<Reply>, before: int, max: int)
    requires Went(n, parts, nets, replies, before, max)
    ensures |replies| <= |parts| <= n
  {
  }

  /** What the replies make: an error that ended the call, nothing when one is missing, or the merged reply. */
  method Conclude(call: Call, cut: Cut, frags: seq<Fragment>, replies: seq<Reply>) returns (reply: Option<Reply>)
    requires MultiKey(call.kind, call.argv) && frags == PipelinedCommands.Sent(call) && frags != []
    requires !cut.Overrun? && (cut.OneSlot? <==> InOneSlot(call.kind, call.argv)) && |replies| <= |frags|
    requires cut.Many? ==> SlotsOf(cut.fragSeq, call.kind, call.argv)
    ensures reply == if replies != [] && replies[|replies| - 1].Error? then Some(replies[|replies| - 1])
                     else if |replies| < |frags| then None
                     else Gathered(call, replies)
  {
    hide Slot, KeyAt, FragmentsFrom;
    if replies != [] && replies[|replies| - 1].Error? {
      reply := Some(replies[|replies| - 1]);
    } else if |replies| < |frags| {
      reply := None;
    } else if cut.OneSlot? {
      reply := Some(replies[0]);
    } else {
      reply := CommandPostFragment(call.kind, SubsOf(frags, replies), cut.fragSeq);
      assert cut.fragSeq == PipelinedCommands.SlotList(call);
    }
  }
}
