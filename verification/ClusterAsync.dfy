// One asynchronous cluster command: registered with a connection, and again with another one for every
// redirection, until its callback has been called.

module ClusterAsync {
  import opened Bytes
  import opened Resp
  import opened Redirect
  import Async

  // The command as it is registered with a connection: everything that happens to the connection, and
  // the identity of the command's callback there. The rest is what the client finds when that callback
  // gets a redirecting reply: whether there is a connection to resend on, whether that connection
  // takes the command, and whether an error of another command is still noted.
  datatype Registration = Registration(ops: seq<Async.Op>, id: nat, target: bool, accepted: bool, noted: bool)

  // What the client does with a reply: call the user's callback, drop the command, or send it again.
  datatype Fate = Answered(reply: Option<Reply>) | Dropped | Resent

  function FateOf(reply: Option<Reply>, retryCount: nat, g: Registration, max: nat): Fate {
    if reply == None then Answered(None)
    else
      var t := ErrorTypeOf(reply.value);
      if !Redirecting(t) then Answered(if g.noted then None else reply)
      else if retryCount + 1 > max then Answered(None)
      else if (t == Moved || t == Ask) && !g.target then Answered(None)
      else if !g.accepted then Dropped
      else Resent
  }

  /** What the callback with an identity got over a connection's run. */
  function RepliesTo(left: seq<Async.Leave>, id: nat): seq<Option<Reply>> {
    if left == [] then []
    else (if left[0].id == id then [left[0].reply] else []) + RepliesTo(left[1..], id)
  }

  function Delivered(g: Registration): seq<Option<Reply>> {
    RepliesTo(Async.Run(Async.START, g.ops).left, g.id)
  }

  /** The calls of the user's callback that the replies to a registration lead to; each one that is a
      redirection leads to the next registration. */
  function Calls(replies: seq<Option<Reply>>, gs: seq<Registration>, retryCount: nat, max: nat): seq<Option<Reply>>
    requires gs != []
    decreases |gs|, |replies|
  {
    if replies == [] then [] else
    (match FateOf(replies[0], retryCount, gs[0], max)
     case Answered(r) => [r]
     case Dropped => []
     case Resent => if |gs| == 1 then [] else Calls(Delivered(gs[1]), gs[1..], retryCount + 1, max))
    + Calls(replies[1..], gs, retryCount, max)
  }

  /** How often the command is sent on account of those replies. */
  function Resends(replies: seq<Option<Reply>>, gs: seq<Registration>, retryCount: nat, max: nat): nat
    requires gs != []
    decreases |gs|, |replies|
  {
    if replies == [] then 0 else
    (if FateOf(replies[0], retryCount, gs[0], max) != Resent then 0
     else 1 + if |gs| == 1 then 0 else Resends(Delivered(gs[1]), gs[1..], retryCount + 1, max))
    + Resends(replies[1..], gs, retryCount, max)
  }

  ghost predicate Distinct(ids: seq<nat>) { forall i, j :: 0 <= i < j < |ids| ==> ids[i] != ids[j] }

  // No two commands registered with a connection share an identity.
  ghost predicate Named(g: Registration) { Distinct(Async.Run(Async.START, g.ops).core.registered) }

  lemma {:induction false} OneReply(left: seq<Async.Leave>, id: nat)
    requires Distinct(Async.LeftIds(left))
    ensures |RepliesTo(left, id)| <= 1
    ensures |RepliesTo(left, id)| == 1 ==> id in Async.LeftIds(left)
  {
    if left != [] {
      var ids, rest := Async.LeftIds(left), Async.LeftIds(left[1..]);
      assert ids == [left[0].id] + rest;
      assert forall i :: 0 <= i < |rest| ==> rest[i] == ids[i + 1];
      OneReply(left[1..], id);
    }
  }

  /** A registered callback gets at most one reply, because callbacks leave a connection once each. */
  lemma DeliveredOnce(g: Registration)
    requires Named(g)
    ensures |Delivered(g)| <= 1
  {
    Async.FreshRun(g.ops);
    var r := Async.Run(Async.START, g.ops);
    var ids := Async.LeftIds(r.left);
    assert forall i :: 0 <= i < |ids| ==> ids[i] == r.core.registered[i];
    OneReply(r.left, g.id);
  }

  /** Whatever happens to the connections, an asynchronous command is sent again at most as often as the
      bound allows, and the user's callback is called at most once, never with a redirection. */
  lemma {:induction false} CalledOnce(gs: seq<Registration>, retryCount: nat, max: nat)
    requires gs != [] && retryCount <= max && forall i :: 0 <= i < |gs| ==> Named(gs[i])
    ensures Resends(Delivered(gs[0]), gs, retryCount, max) <= max - retryCount
    ensures var calls := Calls(Delivered(gs[0]), gs, retryCount, max);
            |calls| <= 1 && (calls != [] && calls[0].Some? ==> !Redirecting(ErrorTypeOf(calls[0].value)))
    decreases |gs|
  {
    hide Delivered, Named, ErrorTypeOf;
    DeliveredOnce(gs[0]);
    var replies := Delivered(gs[0]);
    if replies != [] && FateOf(replies[0], retryCount, gs[0], max) == Resent && |gs| > 1 {
      CalledOnce(gs[1..], retryCount + 1, max);
    }
  }

  // The callback of a registration has got this, and nothing else.
  ghost predicate GotBack(g: Registration, reply: Option<Reply>) { Delivered(g) == [reply] }

  // A redirection that leads to another registration.
  predicate LeadsOn(r: Reply, g: Registration) {
    Redirecting(ErrorTypeOf(r)) && g.accepted && (ErrorTypeOf(r) in [Moved, Ask] ==> g.target)
  }

  // Every registration but the last got a redirection that the budget allows and that could be followed.
  ghost predicate Reached(gs: seq<Registration>, retryCount: nat, max: nat)
    requires gs != []
  {
    |gs| == 1 ||
    ((exists r :: GotBack(gs[0], Some(r)) && LeadsOn(r, gs[0])) && retryCount + 1 <= max
     && Reached(gs[1..], retryCount + 1, max))
  }

  // The calls the last registration leads to, told from what its callback got.
  ghost predicate LastCalls(g: Registration, reply: Option<Reply>, budget: bool, calls: seq<Option<Reply>>) {
    if reply == None then calls == [None]
    else if !Redirecting(ErrorTypeOf(reply.value)) then calls == if g.noted then [None] else [reply]
    else if !budget || (ErrorTypeOf(reply.value) in [Moved, Ask] && !g.target) then calls == [None]
    else calls == []
  }

  /** The user's callback is called with the reply that is no redirection when no error is noted. It is called
      without one when the connection was torn down, an error is noted, the budget is spent or there is no
      connection to follow a redirection on. A redirection whose resend is not accepted drops the command with
      no call and no further sending; while a reply is outstanding there is no call. */
  lemma {:induction false} CalledWith(gs: seq<Registration>, retryCount: nat, max: nat)
    requires gs != [] && Reached(gs, retryCount, max)
    ensures var calls, last := Calls(Delivered(gs[0]), gs, retryCount, max), gs[|gs| - 1];
            && (Delivered(last) == [] ==> calls == [])
            && forall reply :: GotBack(last, reply) ==>
                 LastCalls(last, reply, retryCount + |gs| <= max, calls)
                 && Resends(Delivered(gs[0]), gs, retryCount, max)
                    == |gs| - 1 + if reply.Some? && LeadsOn(reply.value, last) && retryCount + |gs| <= max then 1 else 0
    decreases |gs|
  {
    hide Delivered, ErrorTypeOf;
    var last := gs[|gs| - 1];
    if |gs| > 1 {
      var r :| GotBack(gs[0], Some(r)) && LeadsOn(r, gs[0]);
      CalledWith(gs[1..], retryCount + 1, max);
      assert gs[1..][|gs| - 2] == last;
      FollowedOnly(gs, r, retryCount, max);
    } else {
      forall reply | GotBack(last, reply)
        ensures LastCalls(last, reply, retryCount + |gs| <= max, Calls(Delivered(gs[0]), gs, retryCount, max))
        ensures Resends(Delivered(gs[0]), gs, retryCount, max)
             == if reply.Some? && LeadsOn(reply.value, last) && retryCount + |gs| <= max then 1 else 0
      {
        assert [reply][1..] == [];
      }
    }
  }

  lemma FollowedOnly(gs: seq<Registration>, r: Reply, retryCount: nat, max: nat)
    requires |gs| > 1 && GotBack(gs[0], Some(r)) && LeadsOn(r, gs[0]) && retryCount + 1 <= max
    ensures Calls(Delivered(gs[0]), gs, retryCount, max) == Calls(Delivered(gs[1]), gs[1..], retryCount + 1, max)
    ensures Resends(Delivered(gs[0]), gs, retryCount, max)
         == 1 + Resends(Delivered(gs[1]), gs[1..], retryCount + 1, max)
  {
    hide Delivered, ErrorTypeOf;
    assert [Some(r)][1..] == [];
    assert Calls([], gs, retryCount, max) == [];
  }
}
