// What closing a context means for a whole run: which commands are queued, which callbacks are called
// and when the context is closing, told from what has been asked for.

module AsyncCloses {
  import opened Bytes
  import opened Resp
  import opened Async
  import opened AsyncAborts

  // What one thing that happens asks of the context: the user's own request, or those of the callbacks
  // that get the replies.
  function Wish(c: Core, op: Op): seq<Action> {
    match op
    case UserCommand(cb, bytes) => [Command(cb, bytes)]
    case UserDisconnect => [Disconnect]
    case UserFree => [Free]
    case Written(_) => []
    case Failed => []
    case Incoming(avail, _) => Asked(Reached(c, |avail|))
  }

  /** Everything asked for in a run, in order. */
  function Wishes(c: Core, ops: seq<Op>): seq<Action>
    decreases |ops|
  {
    if ops == [] then [] else
    var r := Step(c, ops[0]);
    Wish(c, ops[0]) + if r.end == Alive then Wishes(r.core, ops[1..]) else []
  }

  // Two contexts that take the same commands.
  ghost predicate Alike(c: Core, d: Core) {
    c.registered == d.registered && c.disconnecting == d.disconnecting && c.freeing == d.freeing
  }

  lemma AlikeActs(c: Core, d: Core, acts: seq<Action>)
    requires Alike(c, d)
    ensures Alike(Acts(c, acts), Acts(d, acts))
    ensures c.out == d.out ==> Acts(c, acts).out == Acts(d, acts).out
  {
    ActsTell(c, acts);
    ActsTell(d, acts);
  }

  // A result after which a context has taken what was asked for, and goes on only in that state.
  ghost predicate Took(r: Result, d: Core) {
    r.core.registered == d.registered && (r.end == Alive ==> Alike(r.core, d))
  }

  lemma AskedStep(c: Core, replies: nat)
    requires c.queue != [] && replies > 0
    ensures var d, e := Acts(c, Asked(Reached(c, replies))), Acts(Next(c), Asked(Reached(Next(c), replies - 1)));
            Alike(d, e) && d.out == e.out
  {
    hide Acts;
    var cb, d := c.queue[0], Next(c);
    var rest := Asked(Reached(d, replies - 1));
    var own := if cb.hasFn then cb.acts else [];
    LineStep(c, replies);
    ActsTwice(c, own, rest);
    CallNothing(c, cb);
    CallNothing(c.(queue := c.queue[1..]), cb);
    AlikeActs(c, c.(queue := c.queue[1..]), own);
    AlikeActs(Acts(c, own), d, rest);
  }

  lemma NothingReached(c: Core, replies: nat)
    requires c.queue == [] || replies == 0
    ensures Reached(c, replies) == [] && Acts(c, Asked(Reached(c, replies))) == c
  {
    assert Reached(c, replies) == [];
  }

  lemma {:induction false} ProcessTook(c: Core, avail: seq<Reply>, failed: bool)
    ensures var r, d := Process(c, avail, failed), Acts(c, Asked(Reached(c, |avail|)));
            Took(r, d) && (r.end == Alive ==> r.core.out == d.out)
    decreases |avail|
  {
    hide Acts, TearDown, Accounts, Served;
    if c.queue == [] || avail == [] {
      NothingReached(c, |avail|);
      TearDownAccounts(c.(disconnecting := true));
      if c.disconnecting {
        TearDownAccounts(c);
      }
    } else {
      hide Asked, Reached;
      AskedStep(c, |avail|);
      var d := Next(c);
      if c.queue[0].hasFn && d.freeing {
        TearDownAccounts(d);
        ClosedActs(d, Asked(Reached(d, |avail| - 1)));
      } else {
        ProcessTook(d, avail[1..], failed);
      }
    }
  }

  lemma StepTook(c: Core, op: Op)
    ensures Took(Step(c, op), Acts(c, Wish(c, op)))
  {
    hide Process;
    match op
    case Incoming(avail, failed) => ProcessTook(c, avail, failed);
    case UserCommand(cb, bytes) => assert [Command(cb, bytes)][..0] == [];
    case UserDisconnect =>
      assert [Disconnect][..0] == [];
      TearDownAccounts(c.(disconnecting := true));
    case UserFree =>
      assert [Free][..0] == [];
      TearDownAccounts(c.(freeing := true));
    case Failed => TearDownAccounts(c.(disconnecting := true));
    case Written(_) =>
  }

  /** How each thing that happens ends, and what it leaves to be written: freeing and errors tear the context
      down, a disconnect does when nobody waits; writing takes bytes off, and commands that are heard add. */
  lemma StepExactly(c: Core, op: Op)
    ensures var r := Step(c, op);
            && (r.end == TornDown <==>
                match op
                case UserFree => true
                case Failed => true
                case UserDisconnect => c.queue == []
                case Incoming(avail, failed) => WillTearDown(c, avail, failed)
                case _ => false)
            && (r.end == Aborted <==> op.Incoming? && WillAbort(c, op.avail, op.failed))
            && (r.end == Alive ==>
                r.core.out == match op
                              case Written(n) => if n < c.out then c.out - n else 0
                              case _ => c.out + BytesOf(Heard(c, Wish(c, op))))
  {
    hide WillTearDown, WillAbort;
    match op
    case Incoming(avail, failed) =>
      EndsExactly(c, avail, failed);
      ProcessTook(c, avail, failed);
      ActsTell(c, Wish(c, op));
    case UserCommand(cb, bytes) =>
      var one := [Command(cb, bytes)];
      assert one[1..] == [] && one[..0] == [];
      assert Open(one) == one by { assert Open(one) == [one[0]] + Open([]); }
      assert BytesOf(one) == BytesOf([]) + bytes;
    case _ =>
  }

  lemma {:induction false} RunTook(c: Core, ops: seq<Op>)
    ensures Took(Run(c, ops), Acts(c, Wishes(c, ops)))
    decreases |ops|
  {
    hide Step, Wish, Acts;
    if ops == [] {
      assert Acts(c, []) == c by { ActsTell(c, []); assert Ids([]) == [] && c.queue + [] == c.queue; }
    } else {
      var r, wish := Step(c, ops[0]), Wish(c, ops[0]);
      StepTook(c, ops[0]);
      if r.end == Alive {
        var rest := Wishes(r.core, ops[1..]);
        RunTook(r.core, ops[1..]);
        ActsTwice(c, wish, rest);
        AlikeActs(r.core, Acts(c, wish), rest);
      } else {
        assert wish + [] == wish;
      }
    }
  }

  /** In every run the commands queued are exactly those asked for, by the user or by a callback that got
      its reply, before anyone asked for a disconnect or a free; and a context that is still alive is
      closing if and only if someone has. */
  lemma QueuedExactly(c: Core, ops: seq<Op>)
    ensures var r, wishes := Run(c, ops), Wishes(c, ops);
            && r.core.registered ==
               c.registered + Ids(Comers(if c.disconnecting || c.freeing then [] else Open(wishes)))
            && (r.end == Alive ==> r.core.disconnecting == (c.disconnecting || Disconnect in wishes))
            && (r.end == Alive ==> r.core.freeing == (c.freeing || Free in wishes))
  {
    hide Step;
    RunTook(c, ops);
    ActsTell(c, Wishes(c, ops));
  }

  lemma {:induction false} RunTwice(c: Core, a: seq<Op>, b: seq<Op>)
    ensures var r := Run(c, a);
            && Run(c, a + b).core == (if r.end == Alive then Run(r.core, b).core else r.core)
            && Run(c, a + b).end == (if r.end == Alive then Run(r.core, b).end else r.end)
    decreases |a|
  {
    hide Step;
    if a == [] {
      assert a + b == b;
    } else {
      assert (a + b)[0] == a[0] && (a + b)[1..] == a[1..] + b;
      var r := Step(c, a[0]);
      if r.end == Alive {
        RunTwice(r.core, a[1..], b);
      }
    }
  }

  /** Once someone has asked for a disconnect or a free, or the context is gone, no command is ever queued
      again, whatever happens. */
  lemma NothingMore(c: Core, a: seq<Op>, b: seq<Op>)
    requires || c.disconnecting || c.freeing || Disconnect in Wishes(c, a) || Free in Wishes(c, a)
             || Run(c, a).end != Alive
    ensures Run(c, a + b).core.registered == Run(c, a).core.registered
  {
    hide Run, Wishes;
    RunTwice(c, a, b);
    QueuedExactly(c, a);
    var r := Run(c, a);
    if r.end == Alive {
      QueuedExactly(r.core, b);
      assert r.core.registered + Ids([]) == r.core.registered;
    }
  }

  // ---------------------------------------------------------------- who has been called

  /** The callbacks called with a reply over a run. */
  function Called(c: Core, ops: seq<Op>): seq<Callback>
    decreases |ops|
  {
    if ops == [] then [] else
    var r := Step(c, ops[0]);
    (if ops[0].Incoming? then Reached(c, |ops[0].avail|) else [])
    + if r.end == Alive then Called(r.core, ops[1..]) else []
  }

  lemma {:induction false} ProcessCalls(c: Core, avail: seq<Reply>, failed: bool)
    ensures var r := Process(c, avail, failed);
            r.end == Alive ==> LeftIds(r.left) == Ids(Reached(c, |avail|))
    decreases |avail|
  {
    if c.queue == [] || avail == [] {
      assert Reached(c, |avail|) == [];
    } else {
      hide Call;
      var d := Next(c);
      if !(c.queue[0].hasFn && d.freeing) {
        ProcessCalls(d, avail[1..], failed);
        assert Reached(c, |avail|) == [c.queue[0]] + Reached(d, |avail| - 1);
      }
    }
  }

  /** While the context lives, the callbacks that have left are those called, in that order. */
  lemma {:induction false} CalledHaveLeft(c: Core, ops: seq<Op>)
    ensures var r := Run(c, ops);
            r.end == Alive ==> LeftIds(r.left) == Ids(Called(c, ops))
    decreases |ops|
  {
    hide Process, Line, Reached;
    if ops != [] {
      var r := Step(c, ops[0]);
      if ops[0].Incoming? {
        ProcessCalls(c, ops[0].avail, ops[0].failed);
      }
      if r.end == Alive {
        CalledHaveLeft(r.core, ops[1..]);
      }
    }
  }

  lemma {:induction false} AskedBy(cbs: seq<Callback>, cb: Callback, a: Action)
    requires cb in cbs && cb.hasFn && a in cb.acts
    ensures a in Asked(cbs)
  {
    if cb != cbs[0] {
      AskedBy(cbs[1..], cb, a);
    }
  }

  lemma {:induction false} CalledAsk(c: Core, ops: seq<Op>, cb: Callback, a: Action)
    requires cb in Called(c, ops) && cb.hasFn && a in cb.acts
    ensures a in Wishes(c, ops)
    decreases |ops|
  {
    hide Step, Line, Reached, Asked;
    var r := Step(c, ops[0]);
    if ops[0].Incoming? && cb in Reached(c, |ops[0].avail|) {
      AskedBy(Reached(c, |ops[0].avail|), cb, a);
    } else {
      CalledAsk(r.core, ops[1..], cb, a);
    }
  }

  /** Once a callback called with its reply has asked for a disconnect or a free, no command is ever
      queued again, whatever happens. */
  lemma NothingAfterCallback(c: Core, a: seq<Op>, b: seq<Op>, cb: Callback)
    requires cb in Called(c, a) && cb.hasFn && (Disconnect in cb.acts || Free in cb.acts)
    ensures Run(c, a + b).core.registered == Run(c, a).core.registered
  {
    hide Run, Wishes, Called;
    CalledAsk(c, a, cb, if Disconnect in cb.acts then Disconnect else Free);
    NothingMore(c, a, b);
  }

  /** The way every small program ends: one command whose callback asks for a disconnect. Once the command
      is written and its reply is there, the context is torn down. */
  lemma {:induction false} DisconnectInCallback(id: nat, bytes: nat, reply: Reply, later: seq<Op>)
    ensures var r := Run(START, [UserCommand(Callback(id, true, [Disconnect]), bytes), Written(bytes),
                                 Incoming([reply], false)] + later);
            r.end == TornDown && r.left == [Leave(id, Some(reply))]
  {
    var cb := Callback(id, true, [Disconnect]);
    var c := Issue(START, cb, bytes);
    var d := c.(out := 0);
    var e := d.(queue := [], disconnecting := true);
    assert d.queue == [cb] && [cb][1..] == [];
    assert [Disconnect][..0] == [];
    assert d.queue[1..] == [];
    assert Acts(d.(queue := []), [Disconnect]) == e;
    assert Next(d) == e;
    assert [reply][1..] == [];
    assert Process(e, [], false) == Result(e, [], TornDown);
    assert Process(d, [reply], false) == Result(e, [Leave(id, Some(reply))], TornDown);
    var ops := [UserCommand(cb, bytes), Written(bytes), Incoming([reply], false)] + later;
    assert ops[0] == UserCommand(cb, bytes) && ops[1..][0] == Written(bytes);
    assert ops[1..][1..][0] == Incoming([reply], false);
    assert Run(d, ops[1..][1..]) == Step(d, Incoming([reply], false));
    assert Run(c, ops[1..]).end == TornDown;
  }
}
