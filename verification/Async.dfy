// The asynchronous connection: a queue of callbacks, replies that are handed to them in order, and
// teardown. What a callback does when it runs (issue commands, ask for a disconnect, free the
// context) is arbitrary.

module Async {
  import opened Bytes
  import opened Resp

  // hasFn: whether the command was issued with a callback function at all.
  datatype Callback = Callback(id: nat, hasFn: bool, acts: seq<Action>)
  datatype Action = Command(cb: Callback, bytes: nat) | Disconnect | Free

  // The parts of a context that callbacks can change, and every command registered so far.
  datatype Core = Core(disconnecting: bool, freeing: bool, queue: seq<Callback>, out: nat, registered: seq<nat>)

  // A callback leaving the queue with its reply; none when the context is torn down.
  datatype Leave = Leave(id: nat, reply: Option<Reply>)

  // Aborted: an assertion of the source has failed.
  datatype End = Alive | TornDown | Aborted

  datatype Result = Result(core: Core, left: seq<Leave>, end: End)

  function Issue(c: Core, cb: Callback, bytes: nat): Core {
    if c.disconnecting || c.freeing then c
    else c.(queue := c.queue + [cb], out := c.out + bytes, registered := c.registered + [cb.id])
  }

  function Act(c: Core, a: Action): Core {
    match a
    case Command(cb, bytes) => Issue(c, cb, bytes)
    case Disconnect => c.(disconnecting := true)
    case Free => c.(freeing := true)
  }

  function Acts(c: Core, acts: seq<Action>): Core {
    if acts == [] then c else Act(Acts(c, acts[..|acts| - 1]), acts[|acts| - 1])
  }

  // Running a callback; one without a function does nothing.
  function Call(c: Core, cb: Callback): Core { if cb.hasFn then Acts(c, cb.acts) else c }

  /** Teardown: every queued callback runs with no reply. */
  function TearDown(c: Core): (r: Result)
    requires c.disconnecting || c.freeing
    ensures r.end == TornDown
    decreases |c.queue|
  {
    if c.queue == [] then Result(c, [], TornDown) else
    var cb := c.queue[0];
    ClosedActs(c.(queue := c.queue[1..]), cb.acts);
    var r := TearDown(Call(c.(queue := c.queue[1..]), cb));
    r.(left := [Leave(cb.id, None)] + r.left)
  }

  /** While a context is being closed no callback can queue a command. */
  lemma {:induction false} ClosedActs(c: Core, acts: seq<Action>)
    requires c.disconnecting || c.freeing
    ensures var d := Acts(c, acts);
            (d.disconnecting || d.freeing) && d.queue == c.queue && d.out == c.out && d.registered == c.registered
  {
    if acts != [] {
      ClosedActs(c, acts[..|acts| - 1]);
    }
  }

  predicate Closes(a: Action) { a == Disconnect || a == Free }

  // What is asked for before anything closes the context.
  function Open(acts: seq<Action>): seq<Action> {
    if acts == [] || Closes(acts[0]) then [] else [acts[0]] + Open(acts[1..])
  }

  function Heard(c: Core, acts: seq<Action>): seq<Action> {
    if c.disconnecting || c.freeing then [] else Open(acts)
  }

  function Comers(acts: seq<Action>): seq<Callback> {
    if acts == [] then [] else
    var last := acts[|acts| - 1];
    Comers(acts[..|acts| - 1]) + if last.Command? then [last.cb] else []
  }

  function BytesOf(acts: seq<Action>): nat {
    if acts == [] then 0 else
    var last := acts[|acts| - 1];
    BytesOf(acts[..|acts| - 1]) + if last.Command? then last.bytes else 0
  }

  lemma {:induction false} OpenLast(acts: seq<Action>, a: Action)
    ensures Open(acts + [a]) ==
            Open(acts) + if Disconnect in acts || Free in acts || Closes(a) then [] else [a]
  {
    if acts == [] {
      assert [a][1..] == [];
    } else {
      assert acts == [acts[0]] + acts[1..] && (acts + [a])[1..] == acts[1..] + [a];
      OpenLast(acts[1..], a);
    }
  }

  // A context after some requests, of which it has heard the given ones.
  function AfterActs(c: Core, acts: seq<Action>, heard: seq<Action>): Core {
    Core(c.disconnecting || Disconnect in acts, c.freeing || Free in acts,
         c.queue + Comers(heard), c.out + BytesOf(heard), c.registered + Ids(Comers(heard)))
  }

  lemma NothingHeard(c: Core)
    ensures AfterActs(c, [], []) == c
  {
    assert Comers([]) == [] && Ids([]) == [];
  }

  lemma HeardOne(c: Core, front: seq<Action>, last: Action, heard: seq<Action>)
    requires !(c.disconnecting || c.freeing || Disconnect in front || Free in front) && !Closes(last)
    ensures AfterActs(c, front + [last], heard + [last]) == Act(AfterActs(c, front, heard), last)
  {
    var more := heard + [last];
    assert more[..|more| - 1] == heard && more[|more| - 1] == last;
    assert Ids(Comers(heard) + [last.cb]) == Ids(Comers(heard)) + [last.cb.id];
  }

  lemma HeardNone(c: Core, front: seq<Action>, last: Action, heard: seq<Action>)
    requires c.disconnecting || c.freeing || Disconnect in front || Free in front || Closes(last)
    ensures AfterActs(c, front + [last], heard) == Act(AfterActs(c, front, heard), last)
  {
  }

  /** What a list of requests comes to: a disconnect or a free anywhere in it is noted, and the commands
      queued are those before the first of them, in order, or none in a context already closing. */
  lemma {:induction false} ActsTell(c: Core, acts: seq<Action>)
    ensures Acts(c, acts) == AfterActs(c, acts, Heard(c, acts))
  {
    hide AfterActs, Act;
    if acts == [] {
      NothingHeard(c);
    } else {
      var front, last := acts[..|acts| - 1], acts[|acts| - 1];
      ActsTell(c, front);
      assert acts == front + [last];
      OpenLast(front, last);
      if c.disconnecting || c.freeing || Disconnect in front || Free in front || Closes(last) {
        assert Heard(c, acts) == Heard(c, front);
        HeardNone(c, front, last, Heard(c, front));
      } else {
        HeardOne(c, front, last, Heard(c, front));
      }
    }
  }

  /** A clean disconnect; pending callbacks at that point fail an assertion. */
  function CleanDisconnect(c: Core): Result
    requires c.disconnecting
  {
    if c.queue == [] then TearDown(c) else Result(c, [], Aborted)
  }

  function Broken(c: Core): Result { TearDown(c.(disconnecting := true)) }

  /** Processing the replies that have arrived; `failed` when an error follows them. */
  function Process(c: Core, avail: seq<Reply>, failed: bool): Result
    decreases |avail|
  {
    if avail == [] then
      if failed then Broken(c)
      else if c.disconnecting && c.out == 0 then CleanDisconnect(c)
      else Result(c, [], Alive)
    else if c.queue == [] then
      if avail[0].Error? then Broken(c) else Result(c, [], Aborted)
    else
      var cb := c.queue[0];
      var d := Call(c.(queue := c.queue[1..]), cb);
      var r := if cb.hasFn && d.freeing then TearDown(d) else Process(d, avail[1..], failed);
      r.(left := [Leave(cb.id, Some(avail[0]))] + r.left)
  }

  // ---------------------------------------------------------------- runs

  // What can happen to a context from outside a callback.
  datatype Op =
    | UserCommand(cb: Callback, bytes: nat)
    | UserDisconnect
    | UserFree
    | Written(n: nat)
    | Failed
    | Incoming(avail: seq<Reply>, failed: bool)

  function Step(c: Core, op: Op): Result {
    match op
    case UserCommand(cb, bytes) => Result(Issue(c, cb, bytes), [], Alive)
    case UserDisconnect =>
      var d := c.(disconnecting := true);
      if c.queue == [] then TearDown(d) else Result(d, [], Alive)
    case UserFree => TearDown(c.(freeing := true))
    case Written(n) => Result(c.(out := if n <= c.out then c.out - n else 0), [], Alive)
    case Failed => Broken(c)
    case Incoming(avail, failed) => Process(c, avail, failed)
  }

  const START := Core(false, false, [], 0, [])

  /** A whole run; once a context is gone nothing more happens to it. */
  function Run(c: Core, ops: seq<Op>): Result
    decreases |ops|
  {
    if ops == [] then Result(c, [], Alive) else
    var r := Step(c, ops[0]);
    if r.end != Alive then r else
    var later := Run(r.core, ops[1..]);
    later.(left := r.left + later.left)
  }

  function Ids(q: seq<Callback>): (r: seq<nat>)
    ensures |r| == |q| && forall i :: 0 <= i < |r| ==> r[i] == q[i].id
  {
    seq(|q|, i requires 0 <= i < |q| => q[i].id)
  }

  function LeftIds(l: seq<Leave>): (r: seq<nat>)
    ensures |r| == |l| && forall i :: 0 <= i < |r| ==> r[i] == l[i].id
  {
    seq(|l|, i requires 0 <= i < |l| => l[i].id)
  }

  /** The replies that reach the context over a run. */
  function Arrived(ops: seq<Op>): seq<Reply> {
    if ops == [] then [] else (if ops[0].Incoming? then ops[0].avail else []) + Arrived(ops[1..])
  }

  // The registrations a result accounts for: what was queued, then what has been added, is what has
  // left, then what is queued; and nothing is left queued in a context that is gone.
  ghost predicate Accounts(c: Core, r: Result) {
    && |c.registered| <= |r.core.registered|
    && r.core.registered[..|c.registered|] == c.registered
    && Ids(c.queue) + r.core.registered[|c.registered|..] == LeftIds(r.left) + Ids(r.core.queue)
    && (r.end == TornDown ==> r.core.queue == [] && (r.core.disconnecting || r.core.freeing))
  }

  // Replies go to callbacks in order: the k-th leaver got the k-th reply, and those that got none
  // come last and only by teardown.
  ghost predicate InOrder(left: seq<Leave>, replies: seq<Reply>, end: End) {
    exists n: nat :: Served(left, replies, end, n)
  }

  ghost predicate Served(left: seq<Leave>, replies: seq<Reply>, end: End, n: nat) {
    && n <= |left| && n <= |replies|
    && (forall k :: 0 <= k < n ==> left[k].reply == Some(replies[k]))
    && (forall k :: n <= k < |left| ==> left[k].reply == None)
    && (n < |left| ==> end == TornDown)
    && (end == Alive ==> n == |replies|)
  }

  lemma {:induction false} ActsAccount(c: Core, acts: seq<Action>)
    ensures var d := Acts(c, acts);
            && |c.registered| <= |d.registered| && d.registered[..|c.registered|] == c.registered
            && Ids(c.queue) + d.registered[|c.registered|..] == Ids(d.queue)
  {
    if acts == [] {
      assert c.registered[|c.registered|..] == [];
    } else {
      ActsAccount(c, acts[..|acts| - 1]);
      var d, a := Acts(c, acts[..|acts| - 1]), acts[|acts| - 1];
      if a.Command? && !d.disconnecting && !d.freeing {
        var e := Act(d, a);
        assert e.registered[|c.registered|..] == d.registered[|c.registered|..] + [a.cb.id];
        assert Ids(e.queue) == Ids(d.queue) + [a.cb.id];
      }
    }
  }

  /** One callback leaves and runs, the rest is accounted for by what follows. */
  lemma AccountsStep(c: Core, r: Result, reply: Option<Reply>)
    requires c.queue != []
    requires Accounts(Call(c.(queue := c.queue[1..]), c.queue[0]), r)
    ensures Accounts(c, r.(left := [Leave(c.queue[0].id, reply)] + r.left))
  {
    hide Acts, Act, Issue;
    var b, id := c.(queue := c.queue[1..]), c.queue[0].id;
    var d := Call(b, c.queue[0]);
    CallAccounts(b, c.queue[0]);
    var x, y := d.registered[|c.registered|..], r.core.registered[|d.registered|..];
    assert r.core.registered[|c.registered|..] == x + y;
    assert Ids(c.queue) == [id] + Ids(b.queue);
    assert LeftIds([Leave(id, reply)] + r.left) == [id] + LeftIds(r.left);
    Shuffle(id, Ids(b.queue), x, y, LeftIds(r.left), Ids(r.core.queue));
  }

  lemma Shuffle(id: nat, q: seq<nat>, x: seq<nat>, y: seq<nat>, left: seq<nat>, rest: seq<nat>)
    requires q + x + y == left + rest
    ensures [id] + q + (x + y) == [id] + left + rest
  {
    ConcatTwice([id] + q, x, y);
    ConcatTwice([id], q, x);
    ConcatTwice([id], q + x, y);
    ConcatTwice([id], left, rest);
  }

  lemma CallAccounts(c: Core, cb: Callback)
    ensures var d := Call(c, cb);
            && |c.registered| <= |d.registered| && d.registered[..|c.registered|] == c.registered
            && Ids(c.queue) + d.registered[|c.registered|..] == Ids(d.queue)
  {
    ActsAccount(c, cb.acts);
    assert c.registered[|c.registered|..] == [];
    assert Ids(c.queue) + [] == Ids(c.queue);
  }

  lemma AccountsNothing(c: Core, d: Core, end: End)
    requires d.queue == c.queue && d.registered == c.registered
    requires end == TornDown ==> d.queue == [] && (d.disconnecting || d.freeing)
    ensures Accounts(c, Result(d, [], end))
  {
    assert c.registered[|c.registered|..] == [];
    assert LeftIds([]) + Ids(c.queue) == Ids(c.queue) + [];
  }

  lemma NoneServed(left: seq<Leave>)
    requires forall k :: 0 <= k < |left| ==> left[k].reply == None
    ensures Served(left, [], TornDown, 0)
  {
  }

  lemma NoneServedTwice(a: seq<Leave>, b: seq<Leave>)
    requires Served(a, [], TornDown, 0) && Served(b, [], TornDown, 0)
    ensures Served(a + b, [], TornDown, 0)
  {
  }

  lemma TearDownStep(c: Core)
    requires (c.disconnecting || c.freeing) && c.queue != []
    ensures var b := c.(queue := c.queue[1..]);
            var d := Call(b, c.queue[0]);
            && (d.disconnecting || d.freeing) && d.queue == b.queue && d.registered == c.registered
            && TearDown(c) == TearDown(d).(left := [Leave(c.queue[0].id, None)] + TearDown(d).left)
  {
    ClosedActs(c.(queue := c.queue[1..]), c.queue[0].acts);
  }

  lemma LeavesFirst(cb: Callback, q: seq<Callback>, reply: Option<Reply>, left: seq<Leave>)
    requires LeftIds(left) == Ids(q)
    ensures LeftIds([Leave(cb.id, reply)] + left) == Ids([cb] + q)
  {
    assert LeftIds([Leave(cb.id, reply)] + left) == [cb.id] + LeftIds(left);
  }

  /** Teardown runs every queued callback exactly once, in order, without a reply. */
  lemma {:induction false} TearDownAccounts(c: Core)
    requires c.disconnecting || c.freeing
    ensures var r := TearDown(c);
            && Accounts(c, r) && r.end == TornDown && r.core.registered == c.registered
            && LeftIds(r.left) == Ids(c.queue)
            && Served(r.left, [], TornDown, 0)
    decreases |c.queue|
  {
    hide Accounts, Call, Served, Ids, LeftIds;
    if c.queue == [] {
      AccountsNothing(c, c, TornDown);
      NoneServed([]);
      assert LeftIds([]) == Ids([]);
    } else {
      hide TearDown;
      TearDownStep(c);
      var d := Call(c.(queue := c.queue[1..]), c.queue[0]);
      TearDownAccounts(d);
      AccountsStep(c, TearDown(d), None);
      assert c.queue == [c.queue[0]] + c.queue[1..];
      LeavesFirst(c.queue[0], c.queue[1..], None, TearDown(d).left);
      NoneServed([Leave(c.queue[0].id, None)]);
      NoneServedTwice([Leave(c.queue[0].id, None)], TearDown(d).left);
    }
  }

  lemma {:induction false} ProcessAccounts(c: Core, avail: seq<Reply>, failed: bool)
    ensures var r := Process(c, avail, failed);
            Accounts(c, r) && InOrder(r.left, avail, r.end)
    decreases |avail|
  {
    hide Accounts, TearDown, Acts;
    var r := Process(c, avail, failed);
    if avail == [] || c.queue == [] {
      if r.end == TornDown {
        TearDownAccounts(c.(disconnecting := true));
        AccountsSame(c, c.(disconnecting := true), r);
        TearDownAccounts(if avail == [] && !failed then c else c.(disconnecting := true));
        assert Served(r.left, avail, r.end, 0);
      } else {
        AccountsNothing(c, c, r.end);
        assert Served(r.left, avail, r.end, 0);
      }
    } else {
      var cb := c.queue[0];
      var d := Call(c.(queue := c.queue[1..]), cb);
      if cb.hasFn && d.freeing {
        TearDownAccounts(d);
        AccountsStep(c, TearDown(d), Some(avail[0]));
        assert Served(r.left, avail, r.end, 1);
      } else {
        ProcessAccounts(d, avail[1..], failed);
        var rest := Process(d, avail[1..], failed);
        AccountsStep(c, rest, Some(avail[0]));
        InOrderStep(Leave(cb.id, Some(avail[0])), rest.left, avail, r.end);
      }
    }
  }

  lemma InOrderStep(l: Leave, left: seq<Leave>, replies: seq<Reply>, end: End)
    requires replies != [] && l.reply == Some(replies[0]) && InOrder(left, replies[1..], end)
    ensures InOrder([l] + left, replies, end)
  {
    var n: nat :| Served(left, replies[1..], end, n);
    assert Served([l] + left, replies, end, n + 1);
  }

  lemma InOrderTwice(a: seq<Leave>, x: seq<Reply>, b: seq<Leave>, y: seq<Reply>, end: End)
    requires InOrder(a, x, Alive) && InOrder(b, y, end)
    ensures InOrder(a + b, x + y, end)
  {
    var n: nat :| Served(a, x, Alive, n);
    var m: nat :| Served(b, y, end, m);
    assert Served(a + b, x + y, end, n + m);
  }

  lemma InOrderMore(a: seq<Leave>, x: seq<Reply>, y: seq<Reply>, end: End)
    requires InOrder(a, x, end) && end != Alive
    ensures InOrder(a, x + y, end)
  {
    var n: nat :| Served(a, x, end, n);
    assert Served(a, x + y, end, n);
  }

  lemma AccountsSame(c: Core, d: Core, r: Result)
    requires d.queue == c.queue && d.registered == c.registered && Accounts(d, r)
    ensures Accounts(c, r)
  {
  }

  lemma StepAccounts(c: Core, op: Op)
    ensures var r := Step(c, op);
            Accounts(c, r) && InOrder(r.left, Arrived([op]), r.end)
  {
    var r := Step(c, op);
    assert Arrived([op]) == if op.Incoming? then op.avail else [];
    match op
    case Incoming(avail, failed) => ProcessAccounts(c, avail, failed);
    case UserCommand(cb, bytes) =>
      ActsAccount(c, [Command(cb, bytes)]);
      assert Acts(c, [Command(cb, bytes)][..0]) == c;
      assert LeftIds([]) + Ids(r.core.queue) == Ids(r.core.queue);
      assert Served(r.left, [], r.end, 0);
    case UserDisconnect =>
      if c.queue == [] {
        Closing(c, c.(disconnecting := true));
      } else {
        AccountsNothing(c, r.core, Alive);
        assert Served(r.left, [], r.end, 0);
      }
    case UserFree => Closing(c, c.(freeing := true));
    case Failed => Closing(c, c.(disconnecting := true));
    case Written(_) =>
      AccountsNothing(c, r.core, Alive);
      assert Served(r.left, [], r.end, 0);
  }

  lemma ArrivedOne(op: Op)
    ensures Arrived([op]) == if op.Incoming? then op.avail else []
  {
  }

  lemma Closing(c: Core, d: Core)
    requires d.queue == c.queue && d.registered == c.registered && (d.disconnecting || d.freeing)
    ensures Accounts(c, TearDown(d)) && InOrder(TearDown(d).left, [], TornDown)
  {
    TearDownAccounts(d);
    AccountsSame(c, d, TearDown(d));
  }

  /** In every run, whatever the callbacks do: callbacks leave the queue in the order of registration,
      each at most once; the k-th gets the k-th reply; the ones that get none are those still queued
      when the context is torn down, and after a teardown none is left. */
  lemma {:induction false} RunInOrder(c: Core, ops: seq<Op>)
    ensures var r := Run(c, ops);
            Accounts(c, r) && InOrder(r.left, Arrived(ops), r.end)
    decreases |ops|
  {
    hide Accounts, Step;
    if ops == [] {
      AccountsNothing(c, c, Alive);
      assert Served([], [], Alive, 0);
    } else {
      var r := Step(c, ops[0]);
      StepAccounts(c, ops[0]);
      var first, rest := Arrived([ops[0]]), Arrived(ops[1..]);
      ArrivedOne(ops[0]);
      assert Arrived(ops) == first + rest;
      if r.end == Alive {
        var later := Run(r.core, ops[1..]);
        RunInOrder(r.core, ops[1..]);
        AccountsTwice(c, r, later);
        InOrderTwice(r.left, first, later.left, rest, later.end);
      } else {
        InOrderMore(r.left, first, rest, r.end);
      }
    }
  }

  lemma AccountsTwice(c: Core, r: Result, later: Result)
    requires Accounts(c, r) && Accounts(r.core, later)
    ensures Accounts(c, later.(left := r.left + later.left))
  {
    var a, b := r.core.registered[|c.registered|..], later.core.registered[|r.core.registered|..];
    assert later.core.registered[|c.registered|..] == a + b;
    assert LeftIds(r.left + later.left) == LeftIds(r.left) + LeftIds(later.left);
    ConcatTwice(Ids(c.queue), a, b);
    ConcatTwice(LeftIds(r.left), Ids(r.core.queue), b);
    ConcatTwice(LeftIds(r.left), LeftIds(later.left), Ids(later.core.queue));
  }

  /** From a new context: what has left is exactly the first commands registered, in order, and all of
      them once the context is torn down. */
  lemma FreshRun(ops: seq<Op>)
    ensures var r := Run(START, ops);
            && LeftIds(r.left) + Ids(r.core.queue) == r.core.registered
            && (r.end == TornDown ==> LeftIds(r.left) == r.core.registered)
            && InOrder(r.left, Arrived(ops), r.end)
  {
    RunInOrder(START, ops);
    var r := Run(START, ops);
    assert Ids([]) + r.core.registered[0..] == r.core.registered;
    assert LeftIds(r.left) + [] == LeftIds(r.left);
  }
}
