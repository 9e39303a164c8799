// The asynchronous context as the program keeps it: flags and a callback queue changed in place, with
// callbacks that re-enter the interface while they run.

module AsyncContext {
  import opened Bytes
  import opened Resp
  import opened Async

  class Context {
    var disconnecting: bool
    var freeing: bool
    var inCallback: bool
    var err: bool
    var replies: seq<Callback>
    var out: nat                   // bytes not yet written
    var end: End
    ghost var registered: seq<nat>
    ghost var left: seq<Leave>

    ghost function View(): Core
      reads this
    {
      Core(disconnecting, freeing, replies, out, registered)
    }

    // The context after something with the given result, nothing running.
    twostate predicate Became(r: Result)
      reads this
    {
      Is(old(left), r)
    }

    ghost predicate Is(before: seq<Leave>, r: Result)
      reads this
    {
      View() == r.core && left == before + r.left && end == r.end && !inCallback && (end == Alive ==> !err)
    }

    constructor ()
      ensures View() == START && left == [] && end == Alive && !inCallback && !err
    {
      disconnecting, freeing, inCallback, err := false, false, false, false;
      replies, out, end, registered, left := [], 0, Alive, [], [];
    }

    /** Queues a command's callback and its bytes, unless the connection is being closed. */
    method AsyncCommand(cb: Callback, bytes: nat) returns (ok: bool)
      requires end == Alive
      modifies this`replies, this`out, this`registered
      ensures View() == Issue(old(View()), cb, bytes)
      ensures ok <==> !disconnecting && !freeing
    {
      if disconnecting || freeing {
        return false;
      }
      replies := replies + [cb];
      registered := registered + [cb.id];
      out := out + bytes;
      return true;
    }

    method ShiftCallback(ghost reply: Option<Reply>) returns (cb: Callback)
      requires replies != []
      modifies this`replies, this`left
      ensures cb == old(replies)[0] && replies == old(replies)[1..]
      ensures left == old(left) + [Leave(cb.id, reply)]
    {
      cb := replies[0];
      replies := replies[1..];
      left := left + [Leave(cb.id, reply)];
    }

    /** Runs a callback with the in-callback flag up: what it asks for is only noted. */
    method RunCallback(cb: Callback)
      requires end == Alive && !inCallback
      modifies this
      ensures View() == Call(old(View()), cb) && Unmoved()
      decreases 1, 0
    {
      if cb.hasFn {
        inCallback := true;
        for i := 0 to |cb.acts|
          invariant View() == Acts(old(View()), cb.acts[..i])
          invariant inCallback && end == Alive && left == old(left) && err == old(err)
        {
          assert cb.acts[..i + 1][..i] == cb.acts[..i];
          match cb.acts[i] {
            case Command(next, bytes) =>
              var _ := AsyncCommand(next, bytes);
            case Disconnect => AsyncDisconnect();
            case Free => AsyncFree();
          }
        }
        assert cb.acts[..|cb.acts|] == cb.acts;
        inCallback := false;
      }
    }

    twostate predicate Unmoved()
      reads this
    {
      left == old(left) && end == old(end) && err == old(err) && inCallback == old(inCallback)
    }

    /** The internal free: pending callbacks run with no reply, then the context is gone. Every path
        into it has a closing flag set, and a context gets here only once. */
    method FreeContext()
      requires (disconnecting || freeing) && !inCallback && end == Alive
      modifies this
      ensures Became(TearDown(old(View())))
      decreases 2, 0
    {
      ghost var gone: seq<Leave> := [];
      assert gone + TearDown(View()).left == TearDown(View()).left;
      while replies != []
        invariant (disconnecting || freeing) && !inCallback && end == Alive
        invariant left == old(left) + gone
        invariant TearDown(old(View())) == After(gone, TearDown(View()))
        decreases |replies|
      {
        ghost var c := View();
        ClosedActs(c.(queue := c.queue[1..]), c.queue[0].acts);
        var cb := ShiftCallback(None);
        RunCallback(cb);
        AfterTwice(gone, [Leave(cb.id, None)], TearDown(View()));
        gone := gone + [Leave(cb.id, None)];
      }
      assert gone + [] == gone;
      end := TornDown;
    }

    method AsyncFree()
      requires end == Alive
      modifies this
      ensures old(inCallback) ==> View() == old(View()).(freeing := true) && Unmoved()
      ensures !old(inCallback) ==> Became(TearDown(old(View()).(freeing := true)))
      decreases if inCallback then 0 else 3, 0
    {
      freeing := true;
      if !inCallback {
        FreeContext();
      }
    }

    /** Closes the connection: after an error any pending callbacks are torn down, without one there
        must be none. */
    method DisconnectContext()
      requires !inCallback && end == Alive && (err || disconnecting)
      modifies this
      ensures Became(if old(err) then Broken(old(View())) else CleanDisconnect(old(View())))
      decreases 3, 0
    {
      if !err {
        if replies != [] {
          end := Aborted;
          return;
        }
      } else {
        disconnecting := true;
      }
      FreeContext();
    }

    method AsyncDisconnect()
      requires end == Alive && (!inCallback ==> !err)
      modifies this
      ensures old(inCallback) ==> View() == old(View()).(disconnecting := true) && Unmoved()
      ensures !old(inCallback) ==> Became(Step(old(View()), UserDisconnect))
      decreases if inCallback then 0 else 4, 0
    {
      disconnecting := true;
      if !inCallback && replies == [] {
        DisconnectContext();
      }
    }

    /** Hands one reply to the callback at the head of the queue. Processing stops when nobody waits
        for a reply, or when the callback has freed the context. */
    method DeliverOne(reply: Reply, ghost rest: seq<Reply>, ghost failed: bool)
      returns (more: bool, ghost leave: seq<Leave>)
      requires end == Alive && !inCallback && !err
      modifies this
      ensures !more ==> Became(Process(old(View()), [reply] + rest, failed))
      ensures more ==> end == Alive && !inCallback && !err && left == old(left) + leave
      ensures more ==> Process(old(View()), [reply] + rest, failed) == After(leave, Process(View(), rest, failed))
    {
      hide Process, TearDown;
      leave := [];
      ProcessOne(View(), [reply] + rest, failed);
      assert ([reply] + rest)[1..] == rest;
      if replies == [] {
        if reply.Error? {
          err := true;
          DisconnectContext();
        } else {
          end := Aborted;
          assert left + [] == left;
        }
        return false, [];
      }
      ghost var before := left;
      var cb := ShiftCallback(Some(reply));
      leave := [Leave(cb.id, Some(reply))];
      if cb.hasFn {
        RunCallback(cb);
        if freeing {
          ghost var r := TearDown(View());
          FreeContext();
          assert before + leave + r.left == before + (leave + r.left);
          return false, leave;
        }
      }
      return true, leave;
    }

    /** Hands the replies that have arrived to the callbacks, then disconnects if that is due. */
    method ProcessCallbacks(avail: seq<Reply>, failed: bool)
      requires end == Alive && !inCallback && !err
      modifies this
      ensures Became(Process(old(View()), avail, failed))
    {
      hide Process, TearDown, After;
      ghost var was, gone: seq<Leave> := left, [];
      AfterNothing(Process(View(), avail, failed));
      assert avail[0..] == avail && was + gone == was;
      for i := 0 to |avail|
        invariant end == Alive && !inCallback && !err && left == was + gone
        invariant Process(old(View()), avail, failed) == After(gone, Process(View(), avail[i..], failed))
      {
        assert avail[i..] == [avail[i]] + avail[i + 1..];
        ghost var r := Process(View(), avail[i..], failed);
        var more, leave := DeliverOne(avail[i], avail[i + 1..], failed);
        if !more {
          CameToBe(was, gone, r);
          return;
        }
        AfterTwice(gone, leave, Process(View(), avail[i + 1..], failed));
        assert was + gone + leave == was + (gone + leave);
        gone := gone + leave;
      }
      assert avail[|avail|..] == [];
      ghost var r := Process(View(), [], failed);
      Finish(failed);
      CameToBe(was, gone, r);
    }

    lemma CameToBe(was: seq<Leave>, gone: seq<Leave>, r: Result)
      requires Is(was + gone, r)
      ensures Is(was, After(gone, r))
    {
      assert was + gone + r.left == was + (gone + r.left);
    }

    /** When no reply is left: disconnect after an error, or cleanly when that was asked for and
        everything has been written. */
    method Finish(failed: bool)
      requires end == Alive && !inCallback && !err
      modifies this
      ensures Became(Process(old(View()), [], failed))
    {
      assert left + [] == left;
      if failed {
        err := true;
        DisconnectContext();
      } else if disconnecting && out == 0 {
        DisconnectContext();
      }
    }

    /** The socket is readable: what it delivers is processed, unless reading fails. */
    method HandleRead(readFails: bool, avail: seq<Reply>, failed: bool)
      requires end == Alive && !inCallback && !err
      modifies this
      ensures Became(Step(old(View()), if readFails then Failed else Incoming(avail, failed)))
    {
      if readFails {
        err := true;
        DisconnectContext();
      } else {
        ProcessCallbacks(avail, failed);
      }
    }

    /** The socket is writable: it takes some bytes, unless writing fails. */
    method HandleWrite(writeFails: bool, n: nat)
      requires end == Alive && !inCallback && !err
      modifies this
      ensures Became(Step(old(View()), if writeFails then Failed else Written(n)))
    {
      assert left + [] == left;
      if writeFails {
        err := true;
        DisconnectContext();
      } else {
        out := if n <= out then out - n else 0;
      }
    }

    /** One thing that happens to the context from outside. */
    method Perform(op: Op)
      requires end == Alive && !inCallback && !err
      modifies this
      ensures Became(Step(old(View()), op))
    {
      assert left + [] == left;
      match op {
        case UserCommand(cb, bytes) =>
          var _ := AsyncCommand(cb, bytes);
        case UserDisconnect => AsyncDisconnect();
        case UserFree => AsyncFree();
        case Written(n) => HandleWrite(false, n);
        case Failed => HandleRead(true, [], false);
        case Incoming(avail, failed) => HandleRead(false, avail, failed);
      }
    }

    /** A whole run; once the context is gone nothing more happens to it. */
    method Drive(ops: seq<Op>)
      requires end == Alive && !inCallback && !err
      modifies this
      ensures Became(Run(old(View()), ops))
    {
      hide Step;
      ghost var was, gone: seq<Leave> := left, [];
      AfterNothing(Run(View(), ops));
      assert ops[0..] == ops && was + gone == was;
      for i := 0 to |ops|
        invariant end == Alive && !inCallback && !err && left == was + gone
        invariant Run(old(View()), ops) == After(gone, Run(View(), ops[i..]))
      {
        ghost var r, later := Step(View(), ops[i]), Run(View(), ops[i..]);
        RunOne(View(), ops[i], ops[i + 1..]);
        assert ops[i..] == [ops[i]] + ops[i + 1..];
        Perform(ops[i]);
        if end != Alive {
          CameToBe(was, gone, later);
          return;
        }
        AfterTwice(gone, r.left, Run(View(), ops[i + 1..]));
        assert was + gone + r.left == was + (gone + r.left);
        gone := gone + r.left;
      }
      assert ops[|ops|..] == [];
      assert left + [] == left;
      CameToBe(was, gone, Run(View(), []));
    }
  }

  // A result preceded by callbacks that had left before.
  function After(gone: seq<Leave>, r: Result): Result { r.(left := gone + r.left) }

  lemma AfterNothing(r: Result)
    ensures After([], r) == r
  {
    assert [] + r.left == r.left;
  }

  lemma AfterTwice(gone: seq<Leave>, l: seq<Leave>, r: Result)
    ensures After(gone, After(l, r)) == After(gone + l, r)
  {
    assert gone + (l + r.left) == gone + l + r.left;
  }

  lemma RunOne(c: Core, op: Op, ops: seq<Op>)
    ensures var r := Step(c, op);
            Run(c, [op] + ops) == if r.end != Alive then r else After(r.left, Run(r.core, ops))
  {
    assert ([op] + ops)[1..] == ops;
  }

  lemma ProcessOne(c: Core, avail: seq<Reply>, failed: bool)
    ensures Process(c, avail, failed) ==
            if avail == [] then
              if failed then Broken(c)
              else if c.disconnecting && c.out == 0 then CleanDisconnect(c)
              else Result(c, [], Alive)
            else if c.queue == [] then
              if avail[0].Error? then Broken(c) else Result(c, [], Aborted)
            else
              var d := Call(c.(queue := c.queue[1..]), c.queue[0]);
              After([Leave(c.queue[0].id, Some(avail[0]))],
                    if c.queue[0].hasFn && d.freeing then TearDown(d) else Process(d, avail[1..], failed))
  {
  }
}
