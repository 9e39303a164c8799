// When the processing of replies ends at a failed assertion, told from the callbacks and the replies.

module AsyncAborts {
  import opened Resp
  import opened Async

  // How many callbacks there are in a callback, itself and those its commands bring.
  function Size(cb: Callback): nat
    decreases cb, 1
  {
    1 + SizeActs(cb.acts)
  }

  function SizeAct(a: Action): nat
    decreases a, 0
  {
    if a.Command? then Size(a.cb) else 0
  }

  function SizeActs(acts: seq<Action>): nat
    decreases acts, 0
  {
    if acts == [] then 0 else
    SizeActs(acts[..|acts| - 1]) + SizeAct(acts[|acts| - 1])
  }

  function Weight(q: seq<Callback>): nat {
    if q == [] then 0 else Size(q[0]) + Weight(q[1..])
  }

  lemma {:induction false} WeightAppend(q: seq<Callback>, cb: Callback)
    ensures Weight(q + [cb]) == Weight(q) + Size(cb)
  {
    if q == [] {
      assert [cb][1..] == [];
    } else {
      WeightAppend(q[1..], cb);
      assert (q + [cb])[1..] == q[1..] + [cb];
    }
  }

  lemma {:induction false} ActsWeigh(c: Core, acts: seq<Action>)
    ensures Weight(Acts(c, acts).queue) <= Weight(c.queue) + SizeActs(acts)
  {
    hide Size, Weight;
    if acts != [] {
      var front, last := acts[..|acts| - 1], acts[|acts| - 1];
      ActsWeigh(c, front);
      if last.Command? {
        WeightAppend(Acts(c, front).queue, last.cb);
      }
    }
  }

  // The context once the callback at the head of the queue has left and been called.
  function Next(c: Core): (d: Core)
    requires c.queue != []
    ensures Weight(d.queue) < Weight(c.queue)
  {
    ActsWeigh(c.(queue := c.queue[1..]), c.queue[0].acts);
    Call(c.(queue := c.queue[1..]), c.queue[0])
  }

  /** The callbacks waiting and those that will wait, in the order in which they get replies. */
  function Line(c: Core): seq<Callback>
    decreases Weight(c.queue)
  {
    if c.queue == [] then [] else [c.queue[0]] + Line(Next(c))
  }

  /** Everything some callbacks ask for. */
  function Asked(cbs: seq<Callback>): seq<Action> {
    if cbs == [] then [] else (if cbs[0].hasFn then cbs[0].acts else []) + Asked(cbs[1..])
  }

  // One of the callbacks frees the context, or is the first to be called in a context being freed.
  ghost predicate Frees(c: Core, cbs: seq<Callback>) {
    exists i :: 0 <= i < |cbs| && cbs[i].hasFn && (c.freeing || Free in cbs[i].acts)
  }

  // Those of the callbacks in line that get a reply.
  function Reached(c: Core, replies: nat): seq<Callback> {
    if replies <= |Line(c)| then Line(c)[..replies] else Line(c)
  }

  // By what has been asked for, a disconnect is wanted and every byte has been written.
  ghost predicate Due(c: Core, asked: seq<Action>) {
    (c.disconnecting || Disconnect in asked) && c.out == 0 && BytesOf(Heard(c, asked)) == 0
  }

  lemma DueIs(c: Core, asked: seq<Action>)
    ensures var d := Acts(c, asked);
            Due(c, asked) <==> d.disconnecting && d.out == 0
  {
    ActsTell(c, asked);
  }

  /** The situations in which an assertion fails, told from the callbacks in line and the replies: no
      callback that gets a reply frees the context, and either there is one reply too many and it is no
      error, or after the last reply callbacks still wait, a disconnect has been asked for and nothing
      is left to be written. */
  ghost predicate WillAbort(c: Core, avail: seq<Reply>, failed: bool) {
    var n, reached := |Line(c)|, Reached(c, |avail|);
    && !Frees(c, reached)
    && if |avail| > n then !avail[n].Error? else !failed && |avail| < n && Due(c, Asked(reached))
  }

  /** The situations in which the context is torn down: a callback that gets a reply frees it, an error
      comes unasked, reading has failed, or every callback has its reply, a disconnect has been asked for
      and nothing is left to be written. */
  ghost predicate WillTearDown(c: Core, avail: seq<Reply>, failed: bool) {
    var n, reached := |Line(c)|, Reached(c, |avail|);
    || Frees(c, reached)
    || if |avail| > n then avail[n].Error? else failed || (|avail| == n && Due(c, Asked(reached)))
  }

  lemma {:induction false} ActsTwice(c: Core, a: seq<Action>, b: seq<Action>)
    ensures Acts(c, a + b) == Acts(Acts(c, a), b)
  {
    if b == [] {
      assert a + b == a;
    } else {
      var front := b[..|b| - 1];
      ActsTwice(c, a, front);
      assert (a + b)[..|a + b| - 1] == a + front && (a + b)[|a + b| - 1] == b[|b| - 1];
    }
  }

  // The flags and the bytes to be written do not depend on who waits.
  ghost predicate SameBut(c: Core, d: Core) { c.(queue := d.queue, registered := d.registered) == d }

  lemma {:induction false} QueueAside(c: Core, d: Core, acts: seq<Action>)
    requires SameBut(c, d)
    ensures SameBut(Acts(c, acts), Acts(d, acts))
  {
    if acts != [] {
      QueueAside(c, d, acts[..|acts| - 1]);
    }
  }

  lemma FreeingIs(c: Core, acts: seq<Action>)
    ensures Acts(c, acts).freeing <==> c.freeing || Free in acts
  {
    ActsTell(c, acts);
  }

  lemma FreesFirst(c: Core, cb: Callback, rest: seq<Callback>)
    ensures Frees(c, [cb] + rest) <==> (cb.hasFn && Call(c, cb).freeing) || Frees(c, rest)
  {
    FreeingIs(c, cb.acts);
    var all := [cb] + rest;
    if i :| 0 <= i < |rest| && rest[i].hasFn && (c.freeing || Free in rest[i].acts) {
      assert all[i + 1] == rest[i];
    }
    assert all[0] == cb;
    assert forall i :: 0 < i < |all| ==> all[i] == rest[i - 1];
  }

  lemma FreesLater(c: Core, d: Core, cbs: seq<Callback>)
    requires c.freeing == d.freeing
    ensures Frees(c, cbs) == Frees(d, cbs)
  {
  }

  lemma LineStep(c: Core, replies: nat)
    requires c.queue != [] && replies > 0
    ensures var d, cb := Next(c), c.queue[0];
            var reached, rest := Reached(c, replies), Reached(d, replies - 1);
            && |Line(c)| == 1 + |Line(d)|
            && Asked(reached) == (if cb.hasFn then cb.acts else []) + Asked(rest)
            && (Frees(c, reached) <==> (cb.hasFn && d.freeing) || Frees(d, rest))
            && (Due(c, Asked(reached)) <==> Due(d, Asked(rest)))
  {
    hide Acts, Frees, Asked, Due;
    var cb, d := c.queue[0], Next(c);
    var b := c.(queue := c.queue[1..]);
    var rest := Reached(d, replies - 1);
    assert Line(c) == [cb] + Line(d) && Reached(c, replies) == [cb] + rest;
    FreesFirst(c, cb, rest);
    CallAside(c, b, cb);
    AskedFirst(cb, rest);
    ActsTwice(c, if cb.hasFn then cb.acts else [], Asked(rest));
    QueueAside(Call(c, cb), d, Asked(rest));
    CallNothing(c, cb);
    DueIs(c, Asked(Reached(c, replies)));
    DueIs(d, Asked(rest));
    if !(cb.hasFn && d.freeing) {
      FreeingIs(b, cb.acts);
      CallNothing(b, cb);
      FreesLater(c, d, rest);
    }
  }

  lemma CallAside(c: Core, b: Core, cb: Callback)
    requires SameBut(c, b)
    ensures SameBut(Call(c, cb), Call(b, cb))
  {
    QueueAside(c, b, cb.acts);
  }

  lemma CallNothing(c: Core, cb: Callback)
    ensures Acts(c, if cb.hasFn then cb.acts else []) == Call(c, cb)
  {
  }

  lemma AskedFirst(cb: Callback, rest: seq<Callback>)
    ensures Asked([cb] + rest) == (if cb.hasFn then cb.acts else []) + Asked(rest)
  {
    assert ([cb] + rest)[1..] == rest;
  }

  lemma NothingAsked(c: Core)
    ensures Due(c, []) <==> c.disconnecting && c.out == 0
  {
  }

  /** Processing ends at a failed assertion, or with the context torn down, if and only if the callbacks
      in line, what they ask for and the replies say so. */
  lemma {:induction false} EndsExactly(c: Core, avail: seq<Reply>, failed: bool)
    ensures var end := Process(c, avail, failed).end;
            && (end == Aborted <==> WillAbort(c, avail, failed))
            && (end == TornDown <==> WillTearDown(c, avail, failed))
    decreases |avail|
  {
    hide Due, TearDown;
    if c.queue == [] || avail == [] {
      hide Acts;
      assert |Line(c)| > 0 <==> c.queue != [];
      assert Reached(c, |avail|) == [] && !Frees(c, []) && Asked([]) == [];
      NothingAsked(c);
    } else {
      hide Acts, Frees, Asked, Line, Reached;
      LineStep(c, |avail|);
      var d := Next(c);
      if !(c.queue[0].hasFn && d.freeing) {
        EndsExactly(d, avail[1..], failed);
      }
    }
  }

  lemma {:induction false} ClosedLine(c: Core)
    requires c.disconnecting || c.freeing
    ensures Line(c) == c.queue
    decreases |c.queue|
  {
    if c.queue != [] {
      ClosedActs(c.(queue := c.queue[1..]), c.queue[0].acts);
      ClosedLine(Next(c));
    }
  }

  /** When a disconnect has been asked for already, the queue is all there will be: an assertion fails if
      and only if no callback among those that get a reply frees the context, and there is a reply too
      many that is no error, or everything is written and there are replies for too few callbacks. */
  lemma {:induction false} ClosingAbortsExactly(c: Core, avail: seq<Reply>, failed: bool)
    requires c.disconnecting && !c.freeing
    ensures var n := |c.queue|;
            Process(c, avail, failed).end == Aborted <==>
              (forall i :: 0 <= i < |avail| && i < n && c.queue[i].hasFn ==> Free !in c.queue[i].acts)
              && if |avail| > n then !avail[n].Error? else !failed && |avail| < n && c.out == 0
  {
    EndsExactly(c, avail, failed);
    ClosedLine(c);
    var reached := Reached(c, |avail|);
    assert Frees(c, reached) <==> exists i :: 0 <= i < |reached| && reached[i].hasFn && Free in reached[i].acts;
    assert forall i :: 0 <= i < |reached| ==> reached[i] == c.queue[i];
  }

  /** One command, a disconnect, everything written, and a wake-up without a reply: the assertion that no
      callback is pending at a clean disconnect fails, whatever the callback. */
  lemma {:induction false} CleanDisconnectFails(cb: Callback, bytes: nat)
    ensures Run(START, [UserCommand(cb, bytes), UserDisconnect, Written(bytes), Incoming([], false)]).end == Aborted
  {
    var c := Issue(START, cb, bytes);
    var d := c.(disconnecting := true);
    var e := d.(out := 0);
    var last := [Incoming([], false)];
    assert Run(e, last).end == Aborted;
    assert [Written(bytes), Incoming([], false)][1..] == last;
    assert Run(d, [Written(bytes), Incoming([], false)]).end == Aborted;
    var three := [UserDisconnect, Written(bytes), Incoming([], false)];
    assert three[1..] == [Written(bytes), Incoming([], false)];
    assert Run(c, three).end == Aborted;
    var four := [UserCommand(cb, bytes), UserDisconnect, Written(bytes), Incoming([], false)];
    assert four[1..] == three;
  }
}
