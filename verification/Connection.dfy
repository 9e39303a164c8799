// One blocking connection: commands wait in an output buffer, the socket takes and delivers whatever
// it likes, and replies come out of the reader in order.

module Connection {
  import opened Bytes
  import opened Resp
  import opened ReaderMachine
  import opened ReaderRoundTrip
  import R = RedisReader

  // What the socket does when it is asked; the end of a list of these is a timeout.
  datatype Write = Wrote(n: nat) | TryLater | WriteFails
  datatype Read = Delivered(chunk: seq<byte>) | NothingYet | ReadFails

  const FRESH_READER: Reader := Live(Start([]))

  lemma {:induction false} RunAppend(r: Reader, ops: seq<Op>, op: Op)
    requires ReaderWf(r)
    ensures var (q, out) := Run(r, ops);
            Run(r, ops + [op]) == (Apply(q, op).0, out + Emission(Apply(q, op).1))
    decreases |ops|
  {
    if ops == [] {
      assert [op][1..] == [];
      assert [] + Emission(Apply(r, op).1) == Emission(Apply(r, op).1) + [];
    } else {
      ApplyKeepsWf(r, ops[0]);
      var (r1, got) := Apply(r, ops[0]);
      RunAppend(r1, ops[1..], op);
      assert (ops + [op])[1..] == ops[1..] + [op];
      var (q, rest) := Run(r1, ops[1..]);
      assert Emission(got) + (rest + Emission(Apply(q, op).1)) == Emission(got) + rest + Emission(Apply(q, op).1);
    }
  }

  lemma {:induction false} OfferedAppend(ops: seq<Op>, op: Op)
    ensures Offered(ops + [op]) == Offered(ops) + if op.FeedBytes? then op.chunk else []
  {
    if ops == [] {
      assert [op][1..] == [];
    } else {
      OfferedAppend(ops[1..], op);
      assert (ops + [op])[1..] == ops[1..] + [op];
    }
  }

  lemma RunFed(ops: seq<Op>, chunk: seq<byte>)
    ensures var (q, out) := Run(FRESH_READER, ops);
            Run(FRESH_READER, ops + [FeedBytes(chunk)]) == (Apply(q, FeedBytes(chunk)).0, out)
  {
    RunAppend(FRESH_READER, ops, FeedBytes(chunk));
    var (q, out) := Run(FRESH_READER, ops);
    assert out + [] == out;
  }

  // ---------------------------------------------------------------- what the socket will do

  // What delivers something, or only keeps the caller waiting.
  predicate Good(read: Read) { !read.ReadFails? && (read.Delivered? ==> read.chunk != []) }

  function Arrived(rs: seq<Read>): seq<byte> {
    if rs == [] then []
    else Arrived(rs[..|rs| - 1]) + if rs[|rs| - 1].Delivered? then rs[|rs| - 1].chunk else []
  }

  // The reader has no reply from these bytes on.
  ghost predicate Silent(r: Reader, bytes: seq<byte>)
    requires ReaderWf(r)
  {
    |Eventually(r, bytes).replies| == 0
  }

  // The first k reads go well, and the bytes they bring complete a reply.
  ghost predicate Brings(r: Reader, rs: seq<Read>, k: int)
    requires ReaderWf(r)
  {
    && 1 <= k <= |rs| && (forall i :: 0 <= i < k ==> Good(rs[i]))
    && !Silent(r, Arrived(rs[..k]))
  }

  function Room(ws: seq<Write>): nat {
    if ws == [] then 0
    else Room(ws[..|ws| - 1]) + if ws[|ws| - 1].Wrote? then ws[|ws| - 1].n else 0
  }

  // The first k writes go well, and take n bytes between them.
  ghost predicate Takes(ws: seq<Write>, n: nat, k: int) {
    0 <= k <= |ws| && (forall i :: 0 <= i < k ==> !ws[i].WriteFails?) && n <= Room(ws[..k])
  }

  lemma {:induction false} RoomGrows(ws: seq<Write>, j: nat, k: nat)
    requires j <= k <= |ws|
    ensures Room(ws[..j]) <= Room(ws[..k])
    decreases k
  {
    if j < k {
      assert ws[..k][..k - 1] == ws[..k - 1];
      RoomGrows(ws, j, k - 1);
    }
  }

  /** What a reader yields only grows with more bytes, and not at all once it is broken. */
  lemma EventuallyGrows(r: Reader, a: seq<byte>, b: seq<byte>)
    requires ReaderWf(r)
    requires a <= b
    ensures Eventually(r, a).replies <= Eventually(r, b).replies
    ensures Eventually(r, a).end.Broken? ==> Eventually(r, b) == Eventually(r, a)
  {
    if r.Live? {
      var more := b[|a|..];
      assert a + more == b;
      assert Feed(r.s, b) == Feed(Feed(r.s, a), more);
      DrainFeed(Feed(r.s, a), more);
    }
  }

  // What `r` yields from these bytes on is what `now` yields, after a reply that has come out.
  ghost predicate Since(r: Reader, bytes: seq<byte>, got: Option<Reply>, now: Reader)
    requires ReaderWf(r) && ReaderWf(now)
  {
    forall more :: Eventually(r, bytes + more) == Then(Emission(got), Eventually(now, more))
  }

  /** Asking a reader: it has a reply if and only if its bytes hold one, and it is the first. */
  lemma Asked(r: Reader, now: Reader, got: Option<Reply>)
    requires ReaderWf(r) && (now, got) == Apply(r, GetReply)
    ensures ReaderWf(now) && Since(r, [], got, now)
    ensures got.Some? <==> !Silent(r, [])
    ensures got.Some? ==> Eventually(r, []).replies[0] == got.value
    ensures now.Dead? ==> got == None && Eventually(r, []).end.Broken?
  {
    ApplyKeepsWf(r, GetReply);
    forall more
      ensures Eventually(r, [] + more) == Then(Emission(got), Eventually(now, more))
    {
      ApplyAccounts(r, GetReply, more);
    }
    if r.Live? {
      PumpIsFirst(r.s);
      assert Feed(r.s, []) == r.s;
    }
  }

  /** One more read, and asking again. */
  lemma ReadAndAsked(r: Reader, bytes: seq<byte>, was: Reader, chunk: seq<byte>, fed: Reader, now: Reader,
                     got: Option<Reply>)
    requires ReaderWf(r) && ReaderWf(was) && Since(r, bytes, None, was)
    requires fed == Apply(was, FeedBytes(chunk)).0 && ReaderWf(fed) && (now, got) == Apply(fed, GetReply)
    ensures ReaderWf(now) && Since(r, bytes + chunk, got, now)
    ensures got.Some? <==> !Silent(r, bytes + chunk)
    ensures got.Some? ==> Eventually(r, bytes + chunk).replies[0] == got.value
    ensures now.Dead? ==> got == None && Eventually(r, bytes + chunk).end.Broken?
  {
    hide Eventually, Apply;
    Asked(fed, now, got);
    forall more
      ensures Eventually(r, bytes + chunk + more) == Eventually(fed, more)
    {
      ApplyAccounts(was, FeedBytes(chunk), more);
      FedNothingOut(was, chunk);
      assert Offered([FeedBytes(chunk)]) + more == chunk + more;
      assert bytes + chunk + more == bytes + (chunk + more);
      assert Eventually(r, bytes + (chunk + more)) == Then(Emission(None), Eventually(was, chunk + more));
    }
    assert bytes + chunk + [] == bytes + chunk;
    forall more
      ensures Eventually(r, bytes + chunk + more) == Then(Emission(got), Eventually(now, more))
    {
      assert [] + more == more;
      assert Eventually(fed, [] + more) == Then(Emission(got), Eventually(now, more));
    }
  }

  lemma FedNothingOut(r: Reader, chunk: seq<byte>)
    requires ReaderWf(r)
    ensures Apply(r, FeedBytes(chunk)).1 == None
    ensures Offered([FeedBytes(chunk)]) == chunk
    ensures Apply(r, FeedBytes([])).0 == r
  {
    assert chunk + Offered([]) == chunk;
    if r.Live? {
      assert r.s.input + [] == r.s.input;
    }
  }

  /** After reads that brought no reply, none of the beginnings of what they brought held one. */
  lemma NothingBefore(r: Reader, arriving: seq<Read>, i: nat)
    requires ReaderWf(r) && i <= |arriving| && Silent(r, Arrived(arriving[..i]))
    ensures forall k :: k <= i ==> !Brings(r, arriving, k)
  {
    forall k: nat | k <= i
      ensures !Brings(r, arriving, k)
    {
      ArrivedGrows(arriving, k, i);
      EventuallyGrows(r, Arrived(arriving[..k]), Arrived(arriving[..i]));
    }
  }

  lemma {:induction false} ArrivedGrows(arriving: seq<Read>, j: nat, k: nat)
    requires j <= k <= |arriving|
    ensures Arrived(arriving[..j]) <= Arrived(arriving[..k])
    decreases k
  {
    if j < k {
      assert arriving[..k][..k - 1] == arriving[..k - 1];
      ArrivedGrows(arriving, j, k - 1);
    }
  }

  /** A reader that is broken brings nothing more, and neither do reads after a failure. */
  lemma NothingAfter(r: Reader, arriving: seq<Read>, i: nat)
    requires ReaderWf(r) && i <= |arriving| && Silent(r, Arrived(arriving[..i]))
    requires Eventually(r, Arrived(arriving[..i])).end.Broken? || i == |arriving| || !Good(arriving[i])
    ensures forall k :: !Brings(r, arriving, k)
  {
    NothingBefore(r, arriving, i);
    forall k: nat | i < k <= |arriving|
      ensures !Brings(r, arriving, k)
    {
      ArrivedGrows(arriving, i, k);
      EventuallyGrows(r, Arrived(arriving[..i]), Arrived(arriving[..k]));
    }
  }

  // The first reply that completes is the same whichever later moment it is looked at.
  lemma SameFirst(r: Reader, arriving: seq<Read>, j: nat, k: nat)
    requires ReaderWf(r) && Brings(r, arriving, j) && Brings(r, arriving, k)
    ensures Eventually(r, Arrived(arriving[..j])).replies[0] == Eventually(r, Arrived(arriving[..k])).replies[0]
  {
    var a, b := if j <= k then j else k, if j <= k then k else j;
    ArrivedGrows(arriving, a, b);
    EventuallyGrows(r, Arrived(arriving[..a]), Arrived(arriving[..b]));
  }

  /** A write that fails, or the end of the writes, with bytes left over: they are never all taken. */
  lemma NeverTaken(accepting: seq<Write>, n: nat, i: nat)
    requires i <= |accepting| && Room(accepting[..i]) < n && (i == |accepting| || accepting[i].WriteFails?)
    ensures forall k :: !Takes(accepting, n, k)
  {
    forall k: nat | k <= |accepting| && Takes(accepting, n, k)
      ensures false
    {
      if k <= i {
        RoomGrows(accepting, k, i);
      }
    }
  }

  // The socket will take n bytes.
  ghost predicate CanSend(accepting: seq<Write>, n: nat) { exists k :: Takes(accepting, n, k) }

  // The reads will bring a reply.
  ghost predicate CanBring(r: Reader, arriving: seq<Read>)
    requires ReaderWf(r)
  {
    exists k :: Brings(r, arriving, k)
  }

  // Where waiting for a reply stands after i reads: `now` is the reader, `got` what it has given.
  ghost predicate Progress(first: Reader, all: seq<Read>, i: int, got: Option<Reply>, now: Reader)
    requires ReaderWf(first)
  {
    && 0 <= i <= |all| && (forall j :: 0 <= j < i ==> Good(all[j]))
    && ReaderWf(now) && Since(first, Arrived(all[..i]), got, now)
    && if got == None then Silent(first, Arrived(all[..i]))
       else Brings(first, all, i) && Eventually(first, Arrived(all[..i])).replies[0] == got.value
  }

  lemma ProgressBegins(first: Reader, all: seq<Read>, now: Reader)
    requires ReaderWf(first) && ReaderWf(now) && Since(first, [], None, now) && Silent(first, [])
    ensures Progress(first, all, 0, None, now)
  {
    assert all[..0] == [];
  }

  lemma ProgressStep(first: Reader, all: seq<Read>, i: nat, was: Reader, fed: Reader, now: Reader, got: Option<Reply>)
    requires ReaderWf(first) && Progress(first, all, i, None, was) && i < |all| && Good(all[i])
    requires fed == if all[i].Delivered? then Apply(was, FeedBytes(all[i].chunk)).0 else was
    requires ReaderWf(fed) && (now, got) == Apply(fed, GetReply)
    ensures Progress(first, all, i + 1, got, now)
    ensures now.Dead? ==> got == None && !CanBring(first, all)
  {
    hide Eventually, Apply, Since;
    assert all[..i + 1][..i] == all[..i];
    var chunk := if all[i].Delivered? then all[i].chunk else [];
    FedNothingOut(was, chunk);
    ReadAndAsked(first, Arrived(all[..i]), was, chunk, fed, now, got);
    if now.Dead? {
      NothingAfter(first, all, i + 1);
    }
  }

  lemma NeverBrings(r: Reader, arriving: seq<Read>)
    requires ReaderWf(r) && forall k :: !Brings(r, arriving, k)
    ensures !CanBring(r, arriving)
  {
  }

  lemma ProgressStops(first: Reader, all: seq<Read>, i: nat, was: Reader)
    requires ReaderWf(first) && Progress(first, all, i, None, was) && (i == |all| || !Good(all[i]))
    ensures !CanBring(first, all)
  {
    NothingAfter(first, all, i);
  }

  lemma ProgressEnds(first: Reader, all: seq<Read>, i: nat, got: Option<Reply>, now: Reader)
    requires ReaderWf(first) && Progress(first, all, i, got, now) && got.Some?
    ensures CanBring(first, all)
    ensures forall k :: Brings(first, all, k) ==> got == Some(Eventually(first, Arrived(all[..k])).replies[0])
  {
    forall k | Brings(first, all, k)
      ensures got == Some(Eventually(first, Arrived(all[..k])).replies[0])
    {
      SameFirst(first, all, i, k);
    }
  }

  class RedisContext {
    var err: bool
    var obuf: seq<byte>
    const reader: R.RedisReader
    var accepting: seq<Write>
    var arriving: seq<Read>
    ghost var appended: seq<byte>  // every command byte so far
    ghost var sent: seq<byte>      // what the socket has taken
    ghost var ops: seq<Op>         // what the reader has been through
    ghost var replies: seq<Reply>  // what has been handed out

    ghost predicate Valid()
      reads this, reader, reader.rstack
    {
      && reader.Valid() && appended == sent + obuf
      && Run(FRESH_READER, ops) == (reader.View(), replies)
    }

    constructor (accepting: seq<Write>, arriving: seq<Read>)
      ensures Valid() && !err && appended == [] && replies == [] && ops == []
      ensures this.accepting == accepting && this.arriving == arriving
      ensures fresh(reader) && fresh(reader.rstack)
    {
      err, obuf, this.accepting, this.arriving := false, [], accepting, arriving;
      appended, sent, ops, replies := [], [], [], [];
      reader := new R.RedisReader();
    }

    method AppendFormattedCommand(cmd: seq<byte>)
      requires Valid()
      modifies this`obuf, this`appended
      ensures Valid() && appended == old(appended) + cmd && obuf == old(obuf) + cmd
    {
      obuf := obuf + cmd;
      appended := appended + cmd;
    }

    /** Offers the output buffer to the socket, which takes a prefix of it. */
    method BufferWrite() returns (ok: bool, done: bool)
      requires Valid()
      modifies this`err, this`obuf, this`accepting, this`sent
      ensures Valid() && (ok <==> !err)
      ensures ok <==> !old(err) && (old(obuf) == [] || (old(accepting) != [] && !old(accepting)[0].WriteFails?))
      ensures var taken := if ok && old(obuf) != [] && old(accepting)[0].Wrote? then old(accepting)[0].n else 0;
              sent == old(sent) + old(obuf)[..if taken <= |old(obuf)| then taken else |old(obuf)|]
      ensures ok ==> (done <==> obuf == [])
      ensures accepting == if ok && old(obuf) != [] then old(accepting)[1..] else old(accepting)
    {
      if err {
        return false, false;
      }
      if |obuf| > 0 {
        if accepting == [] || accepting[0].WriteFails? {
          err := true;
          return false, false;
        }
        if accepting[0].Wrote? {
          var n := if accepting[0].n <= |obuf| then accepting[0].n else |obuf|;
          sent := sent + obuf[..n];
          obuf := if n == |obuf| then [] else obuf[n..];
        }
        accepting := accepting[1..];
      }
      return true, |obuf| == 0;
    }

    /** Feeds the reader what the socket delivers. */
    method BufferRead() returns (ok: bool)
      requires Valid()
      modifies this`err, this`arriving, this`ops, reader
      ensures Valid() && (ok <==> !err)
      ensures ok <==> !old(err) && old(arriving) != [] && Good(old(arriving)[0])
                      && (old(arriving)[0].Delivered? ==> old(reader.View()).Live?)
      ensures arriving == if ok then old(arriving)[1..] else old(arriving)
      ensures var fed := && !old(err) && old(arriving) != []
                         && old(arriving)[0].Delivered? && old(arriving)[0].chunk != [];
              && ops == (if fed then old(ops) + [FeedBytes(old(arriving)[0].chunk)] else old(ops))
              && reader.View() == if fed then Apply(old(reader.View()), FeedBytes(old(arriving)[0].chunk)).0
                                  else old(reader.View())
    {
      hide Run, Apply, R.RedisReader.Valid, R.RedisReader.View;
      if err {
        return false;
      }
      if arriving == [] || arriving[0].ReadFails? || (arriving[0].Delivered? && arriving[0].chunk == []) {
        err := true;
        return false;
      }
      if arriving[0].Delivered? {
        RunFed(ops, arriving[0].chunk);
        ops := ops + [FeedBytes(arriving[0].chunk)];
        var fed := reader.Feed(arriving[0].chunk);
        if !fed {
          err := true;
          return false;
        }
      }
      arriving := arriving[1..];
      return true;
    }

    method GetReplyFromReader() returns (ok: bool, aux: Option<Reply>)
      requires Valid()
      modifies this`err, this`ops, this`replies, reader, reader.rstack
      ensures Valid() && (!ok ==> err) && (ok ==> err == old(err))
      ensures replies == old(replies) + Emission(aux)
      ensures (reader.View(), aux) == Apply(old(reader.View()), ReaderMachine.GetReply)
      ensures ok <==> reader.View().Live?
    {
      RunAppend(FRESH_READER, ops, ReaderMachine.GetReply);
      ops := ops + [ReaderMachine.GetReply];
      ok, aux := reader.GetReply();
      replies := replies + Emission(aux);
      if !ok {
        err := true;
      }
    }

    /** Sends the output buffer until it is empty. */
    method Flush() returns (ok: bool)
      requires Valid()
      modifies this`err, this`obuf, this`accepting, this`sent
      ensures Valid() && (ok <==> !err)
      ensures ok <==> !old(err) && CanSend(old(accepting), |old(obuf)|)
      ensures ok ==> obuf == []
    {
      var done := false;
      ghost var i, n, all := 0, |obuf|, accepting;
      assert all[..0] == [] && all[0..] == all;
      while !done
        invariant Valid() && 0 <= i <= |all| && accepting == all[i..] && (err <==> old(err))
        invariant forall j :: 0 <= j < i ==> !all[j].WriteFails?
        invariant |obuf| == if n <= Room(all[..i]) then 0 else n - Room(all[..i])
        invariant done ==> obuf == [] && !err && Takes(all, n, i)
        decreases |accepting|, !done
      {
        assert i < |all| ==> all[..i + 1][..i] == all[..i] && all[i..][0] == all[i] && all[i..][1..] == all[i + 1..];
        ghost var left := |obuf|;
        var wrote;
        wrote, done := BufferWrite();
        if !wrote {
          if !old(err) {
            NeverTaken(all, n, i);
          }
          return false;
        }
        if left > 0 {
          i := i + 1;
        }
        assert done ==> Takes(all, n, i);
      }
      return true;
    }

    // Reads until a reply is complete.
    method Await(ghost first: Reader) returns (ok: bool, aux: Option<Reply>)
      requires Valid() && !err && obuf == [] && reader.View().Live? && ReaderWf(first)
      requires Since(first, [], None, reader.View()) && Silent(first, [])
      modifies this`err, this`arriving, this`ops, this`replies, reader, reader.rstack
      ensures Valid() && (ok <==> !err) && (ok <==> aux.Some?)
      ensures replies == old(replies) + Emission(aux) && |arriving| <= |old(arriving)|
      ensures ok <==> CanBring(first, old(arriving))
      ensures ok ==> forall k :: Brings(first, old(arriving), k) ==>
                aux == Some(Eventually(first, Arrived(old(arriving)[..k])).replies[0])
    {
      hide Run, Eventually, Apply, Progress, Brings, Since, CanBring;
      aux := None;
      ghost var i: nat, all := 0, arriving;
      ProgressBegins(first, all, reader.View());
      assert all[0..] == all;
      while aux == None
        invariant Valid() && !err && obuf == [] && reader.View().Live? && i <= |all| && arriving == all[i..]
        invariant Progress(first, all, i, aux, reader.View()) && replies == old(replies) + Emission(aux)
        decreases |arriving|, aux == None
      {
        ghost var was := reader.View();
        assert i < |all| ==> all[i..][0] == all[i] && all[i..][1..] == all[i + 1..];
        var got := BufferRead();
        if !got {
          ProgressStops(first, all, i, was);
          return false, None;
        }
        ghost var fed := reader.View();
        ok, aux := GetReplyFromReader();
        ProgressStep(first, all, i, was, fed, reader.View(), aux);
        i := i + 1;
        if !ok {
          return false, None;
        }
      }
      ProgressEnds(first, all, i, aux, reader.View());
      return true, aux;
    }

    /** The next reply: one that the reader can complete, or else, once everything appended has been sent,
        the first that the bytes to come complete. There is one exactly when the reader holds it already, or
        there is no error, the socket takes the whole output buffer, and a beginning of what it delivers
        completes a reply before anything fails. */
    method GetReply() returns (ok: bool, reply: Option<Reply>)
      requires Valid()
      modifies this`err, this`obuf, this`accepting, this`arriving, this`sent, this`ops, this`replies, reader,
        reader.rstack
      ensures Valid() && (!ok ==> err) && (ok ==> reply.Some? && replies == old(replies) + [reply.value])
      ensures |arriving| < |old(arriving)| ==> sent == appended
      ensures ok ==> |arriving| <= |old(arriving)|
      ensures ok <==> !Silent(old(reader.View()), [])
                      || (!old(err) && CanSend(old(accepting), |old(obuf)|)
                          && CanBring(old(reader.View()), old(arriving)))
      ensures ok && !Silent(old(reader.View()), []) ==>
                reply == Some(Eventually(old(reader.View()), []).replies[0]) && arriving == old(arriving)
      ensures ok && Silent(old(reader.View()), []) ==>
                forall k :: Brings(old(reader.View()), old(arriving), k) ==>
                  reply == Some(Eventually(old(reader.View()), Arrived(old(arriving)[..k])).replies[0])
    {
      hide Run, Eventually, Apply, Since, CanBring, CanSend;
      ghost var first := reader.View();
      assert Arrived(arriving[..0]) == [];
      var aux;
      ok, aux := GetReplyFromReader();
      Asked(first, reader.View(), aux);
      if !ok {
        NothingAfter(first, arriving, 0);
        NeverBrings(first, arriving);
        return false, None;
      }
      if aux == None {
        ok := Flush();
        if !ok {
          return false, None;
        }
        ok, aux := Await(first);
      }
      return ok, aux;
    }
  }

  /** Whatever the socket does, what it has taken is a prefix of the commands appended, and when it has
      delivered a prefix of what the server printed, the replies handed out are the server's first
      ones, in order. */
  lemma RepliesInOrder(c: RedisContext, printed: seq<Reply>, later: seq<byte>)
    requires c.Valid() && PrintableAll(printed) && DepthAll(printed) <= MAX_OPEN
    requires Offered(c.ops) + later == PrintAll(printed)
    ensures c.replies <= printed && c.sent <= c.appended
  {
    hide Run, Apply, Eventually, R.RedisReader.Valid, R.RedisReader.View, Drain, PrintAll;
    var ops := c.ops + [FeedBytes(later)];
    RunFed(c.ops, later);
    OfferedAppend(c.ops, FeedBytes(later));
    RunAccountsForAll(FRESH_READER, ops);
    PrintedEventually(printed);
    assert printed == c.replies + Eventually(Run(FRESH_READER, ops).0, []).replies;
  }

  lemma PrintedEventually(printed: seq<Reply>)
    requires PrintableAll(printed) && DepthAll(printed) <= MAX_OPEN
    ensures Eventually(FRESH_READER, PrintAll(printed)).replies == printed
  {
    StreamRoundTrip(printed);
    assert [] + PrintAll(printed) == PrintAll(printed);
  }
}
