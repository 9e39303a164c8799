// The bounded retry loop around one command: MOVED, ASK and the transient cluster errors.

module Redirect {
  import opened Bytes
  import opened Resp
  import opened Sds

  datatype ErrorType = NotErr | Moved | Ask | TryAgain | CrossSlot | ClusterDown | OtherErr

  const MOVED: seq<byte> := [77, 79, 86, 69, 68]
  const ASK: seq<byte> := [65, 83, 75]
  const TRYAGAIN: seq<byte> := [84, 82, 89, 65, 71, 65, 73, 78]
  const CROSSSLOT: seq<byte> := [67, 82, 79, 83, 83, 83, 76, 79, 84]
  const CLUSTERDOWN: seq<byte> := [67, 76, 85, 83, 84, 69, 82, 68, 79, 87, 78]

  // The text is longer than the word and begins with it.
  predicate Begins(text: seq<byte>, word: seq<byte>) {
    |word| < |text| && text[..|word|] == word
  }

  function ErrorTypeOf(r: Reply): (t: ErrorType)
    ensures t == NotErr <==> !r.Error?
  {
    if !r.Error? then NotErr
    else if Begins(r.text, MOVED) then Moved
    else if Begins(r.text, ASK) then Ask
    else if Begins(r.text, TRYAGAIN) then TryAgain
    else if Begins(r.text, CROSSSLOT) then CrossSlot
    else if Begins(r.text, CLUSTERDOWN) then ClusterDown
    else OtherErr
  }

  function Word(t: ErrorType): seq<byte>
    requires Redirecting(t)
  {
    match t
    case Moved => MOVED
    case Ask => ASK
    case TryAgain => TRYAGAIN
    case CrossSlot => CROSSSLOT
    case ClusterDown => CLUSTERDOWN
  }

  predicate Spells(word: seq<byte>, text: string) {
    |word| == |text| && forall i :: 0 <= i < |word| ==> text[i] as int == word[i]
  }

  lemma WordsSpelled()
    ensures Spells(Word(Moved), "MOVED") && Spells(Word(Ask), "ASK") && Spells(Word(TryAgain), "TRYAGAIN")
    ensures Spells(Word(CrossSlot), "CROSSSLOT") && Spells(Word(ClusterDown), "CLUSTERDOWN")
  {
  }

  /** An error is of a redirecting class exactly when its text is the word of that class with more after
      it, in whatever order the words are looked for. */
  lemma ErrorWords(r: Reply, t: ErrorType)
    requires Redirecting(t)
    ensures ErrorTypeOf(r) == t <==> r.Error? && exists rest :: rest != [] && r.text == Word(t) + rest
  {
    var w := Word(t);
    if r.Error? && Begins(r.text, w) {
      assert r.text[0] == w[0] && r.text[1] == w[1] && r.text[2] == w[2];
      assert r.text == w + r.text[|w|..];
    }
    if rest :| rest != [] && r.Error? && r.text == w + rest {
      assert r.text[..|w|] == w;
      assert r.text[0] == w[0] && r.text[1] == w[1] && r.text[2] == w[2];
    }
  }

  predicate Redirecting(t: ErrorType) { t != NotErr && t != OtherErr }

  type Address = seq<byte>

  /** The address in "ASK slot host:port". */
  function AskTarget(text: seq<byte>): Option<Address> {
    var part := Split(text, SPACE);
    if |part| == 3 && |Split(part[2], COLON)| == 2 then Some(part[2]) else None
  }

  /** The address is the one the server printed after the slot. */
  lemma AskTargetReads(slot: seq<byte>, host: seq<byte>, port: seq<byte>)
    requires SPACE !in slot && SPACE !in host && SPACE !in port && COLON !in host && COLON !in port
    ensures AskTarget(ASK + [SPACE] + slot + [SPACE] + host + [COLON] + port) == Some(host + [COLON] + port)
    ensures ErrorTypeOf(Error(ASK + [SPACE] + slot + [SPACE] + host + [COLON] + port)) == Ask
  {
    hide SplitAll;
    var addr := host + [COLON] + port;
    var text := ASK + [SPACE] + slot + [SPACE] + host + [COLON] + port;
    JoinThree(ASK, slot, addr);
    assert text == ASK + [SPACE] + (slot + [SPACE] + addr);
    SplitJoin([ASK, slot, addr], SPACE);
    JoinTwo(host, port, COLON);
    SplitJoin([host, port], COLON);
    assert text[..3] == ASK && text[0] == 65;
  }

  /** The form of a text that names an address: three fields between single spaces, the last of them two
      parts around a colon. */
  ghost predicate Names(text: seq<byte>, t: Address, first: seq<byte>, slot: seq<byte>,
                        host: seq<byte>, port: seq<byte>)
  {
    && SPACE !in first && SPACE !in slot && SPACE !in t && COLON !in host && COLON !in port
    && text == first + [SPACE] + (slot + [SPACE] + t) && t == host + [COLON] + port
  }

  /** A text names an address exactly when it has that form. */
  lemma AskTargetForm(text: seq<byte>, t: Address)
    ensures AskTarget(text) == Some(t) <==> exists first, slot, host, port :: Names(text, t, first, slot, host, port)
  {
    hide SplitAll, Join;
    var part := SplitAll(text, SPACE);
    JoinSplit(text, SPACE);
    if AskTarget(text) == Some(t) {
      var ends := SplitAll(t, COLON);
      JoinSplit(t, COLON);
      assert part == [part[0], part[1], t] && ends == [ends[0], ends[1]];
      JoinThree(part[0], part[1], t);
      JoinTwo(ends[0], ends[1], COLON);
      assert Names(text, t, part[0], part[1], ends[0], ends[1]);
    }
    if first, slot, host, port :| Names(text, t, first, slot, host, port) {
      JoinThree(first, slot, t);
      SplitJoin([first, slot, t], SPACE);
      JoinTwo(host, port, COLON);
      SplitJoin([host, port], COLON);
    }
  }

  lemma JoinThree(a: seq<byte>, b: seq<byte>, c: seq<byte>)
    ensures Join([a, b, c], SPACE) == a + [SPACE] + (b + [SPACE] + c)
  {
    assert [a, b, c][1..] == [b, c];
    JoinTwo(b, c, SPACE);
  }

  // What one command puts on the wire and gets back.
  datatype Event = Sent(conn: Address, id: nat) | Asking(conn: Address) | Got(reply: Reply)

  /** What may come directly after what while one command is being executed: after an ASK reply the
      client announces itself with ASKING on the connection the reply names, and the command
      follows on that same connection; after any other redirecting reply the command is resent. */
  predicate Follows(a: Event, b: Event, id: nat) {
    match a
    case Sent(_, _) => b.Got?
    case Asking(c) => b == Sent(c, id)
    case Got(r) =>
      match ErrorTypeOf(r)
      case Ask => b.Asking? && AskTarget(r.text) == Some(b.conn)
      case NotErr => false
      case OtherErr => false
      case _ => b.Sent? && b.id == id
  }

  predicate Orderly(log: seq<Event>, id: nat) {
    && (log != [] ==> log[0].Sent? && log[0].id == id)
    && forall i :: 0 <= i < |log| - 1 ==> Follows(log[i], log[i + 1], id)
  }

  // An event that may continue the log.
  predicate Next(log: seq<Event>, e: Event, id: nat) {
    if log == [] then e.Sent? && e.id == id else Follows(log[|log| - 1], e, id)
  }

  function Sends(log: seq<Event>): nat {
    if log == [] then 0 else Sends(log[..|log| - 1]) + (if log[|log| - 1].Sent? then 1 else 0)
  }

  lemma SendsAppend(log: seq<Event>, e: Event)
    ensures Sends(log + [e]) == Sends(log) + (if e.Sent? then 1 else 0)
  {
    assert (log + [e])[..|log|] == log;
  }

  lemma {:induction false} SendsConcat(a: seq<Event>, b: seq<Event>)
    ensures Sends(a + b) == Sends(a) + Sends(b)
  {
    if b == [] {
      assert a + b == a;
    } else {
      assert (a + b)[..|a + b| - 1] == a + b[..|b| - 1];
      SendsConcat(a, b[..|b| - 1]);
    }
  }

  /** The whole log of a call, from those of its fragments. */
  function Joined(parts: seq<seq<Event>>): seq<Event> {
    if parts == [] then [] else Joined(parts[..|parts| - 1]) + parts[|parts| - 1]
  }

  lemma JoinedAppend(parts: seq<seq<Event>>, part: seq<Event>)
    ensures Joined(parts + [part]) == Joined(parts) + part
  {
    assert (parts + [part])[..|parts|] == parts;
  }

  predicate EndsIn(log: seq<Event>, r: Reply) { log != [] && log[|log| - 1] == Got(r) }

  lemma NothingYet(id: nat)
    ensures Orderly([], id) && Sends([]) == 0
  {
  }

  // What the network has in store for one attempt: the connection of the slot's node and whether it is
  // broken, a node that answers a ping and whether it can be reached, the answer to the command, whether
  // a new route can be had, and whether the node an ASK reply names can be reached and answers ASKING.
  datatype Turn = Turn(node: Option<Address>, broken: bool, other: Option<Address>, reachable: bool,
                       answer: Option<Reply>, routed: bool, connected: bool, answered: bool)

  // The slot's node has a broken connection and another node is tried.
  predicate Falls(t: Turn) { t.node.Some? && t.broken && t.other.Some? }

  // There is no connection to be had; `spent` is how much of the redirection budget is gone.
  predicate Unconnected(t: Turn, spent: int, max: int) {
    t.node == None || (t.broken && (t.other == None || !t.reachable || spent + 1 > max))
  }

  // The last word on a request: an answer that is no redirection.
  predicate Final(log: seq<Event>) {
    log != [] && log[|log| - 1].Got? && !Redirecting(ErrorTypeOf(log[|log| - 1].reply))
  }

  /** What an attempt's events say agrees with what the network had in store, and the call goes on only
      where it can. */
  predicate Happened(log: seq<Event>, i: nat, net: nat -> Turn)
    requires i < |log|
  {
    var n := Sends(log[..i]);
    match log[i]
    case Sent(c, _) =>
      (i > 0 && log[i - 1].Asking?) || Some(c) == if net(n).broken then net(n).other else net(n).node
    case Got(r) =>
      n > 0 && net(n - 1).answer == Some(r) && (i < |log| - 1 && ErrorTypeOf(r) == Moved ==> net(n - 1).routed)
    case Asking(_) => n > 0 && net(n - 1).connected && (i < |log| - 1 ==> net(n - 1).answered)
  }

  ghost predicate True(log: seq<Event>, net: nat -> Turn) {
    forall i :: 0 <= i < |log| ==> Happened(log, i, net)
  }

  /** What a log costs of the redirection budget: every redirection and every fallback. */
  function Cost(log: seq<Event>, net: nat -> Turn): nat {
    if log == [] then 0 else
    var n := |log| - 1;
    Cost(log[..n], net)
    + match log[n]
      case Sent(_, _) => if (n == 0 || !log[n - 1].Asking?) && Falls(net(Sends(log[..n]))) then 1 else 0
      case Got(r) => if Redirecting(ErrorTypeOf(r)) then 1 else 0
      case Asking(_) => 0
  }

  /** Why a call ends without a reply: no connection, no answer, the budget spent, no new route, or an ASK
      that cannot be followed. After the other redirections only a missing connection ends it. */
  predicate GivesUp(log: seq<Event>, net: nat -> Turn, before: int, max: int) {
    var n, spent := Sends(log), before + Cost(log, net);
    if log == [] then Unconnected(net(0), spent, max)
    else match log[|log| - 1]
    case Sent(_, _) => n > 0 && net(n - 1).answer == None
    case Asking(_) => n > 0 && !net(n - 1).answered
    case Got(r) =>
      n > 0 && match ErrorTypeOf(r)
      case Moved => spent > max || !net(n - 1).routed || Unconnected(net(n), spent, max)
      case Ask => spent > max || AskTarget(r.text) == None || !net(n - 1).connected
      case TryAgain => spent > max || Unconnected(net(n), spent, max)
      case CrossSlot => spent > max || Unconnected(net(n), spent, max)
      case ClusterDown => spent > max || Unconnected(net(n), spent, max)
      case _ => false
  }

  lemma TrueMore(log: seq<Event>, e: Event, net: nat -> Turn)
    requires True(log, net)
    requires Happened(log + [e], |log|, net)
    requires log != [] ==> match log[|log| - 1]
                           case Got(r) => ErrorTypeOf(r) == Moved ==> net(TurnOf(log)).routed
                           case Asking(_) => net(TurnOf(log)).answered
                           case Sent(_, _) => true
    ensures True(log + [e], net)
  {
    var longer := log + [e];
    forall i | 0 <= i < |longer|
      ensures Happened(longer, i, net)
    {
      assert i <= |log| ==> longer[..i] == log[..i];
      if i < |log| {
        assert Happened(log, i, net);
      }
      if i == |log| - 1 {
        assert log[..i] + [log[i]] == log;
        SendsAppend(log[..i], log[i]);
      }
    }
  }

  // The attempt the end of a log belongs to.
  function TurnOf(log: seq<Event>): nat { if Sends(log) == 0 then 0 else Sends(log) - 1 }

  lemma CostMore(log: seq<Event>, e: Event, net: nat -> Turn)
    ensures Cost(log + [e], net) == Cost(log, net)
              + match e
                case Sent(_, _) => if (log == [] || !log[|log| - 1].Asking?) && Falls(net(Sends(log))) then 1 else 0
                case Got(r) => if Redirecting(ErrorTypeOf(r)) then 1 else 0
                case Asking(_) => 0
  {
    hide ErrorTypeOf, Falls, Sends;
    var longer := log + [e];
    assert longer[..|log|] == log && longer[|log|] == e;
    assert log != [] ==> longer[|log| - 1] == log[|log| - 1];
  }

  lemma NothingTold(net: nat -> Turn)
    ensures True([], net) && Cost([], net) == 0
  {
  }

  // The state of a call between attempts; `conn` is set when an ASK reply chose the connection.
  ghost predicate Between(log: seq<Event>, conn: Option<Address>, id: nat, net: nat -> Turn)
  {
    && Orderly(log, id) && True(log, net)
    && if log == [] then conn == None
       else match log[|log| - 1]
       case Asking(c) => conn == Some(c) && net(TurnOf(log)).answered && Sends(log) > 0
       case Got(r) => conn == None && Sends(log) > 0 && Redirecting(ErrorTypeOf(r)) && ErrorTypeOf(r) != Ask
                      && (ErrorTypeOf(r) == Moved ==> net(TurnOf(log)).routed)
       case Sent(_, _) => false
  }

  /** One attempt: the command goes out on the right connection and is answered. */
  lemma SentOut(log: seq<Event>, conn: Option<Address>, c: Address, id: nat, net: nat -> Turn)
    requires Between(log, conn, id, net)
    requires conn == Some(c)
             || (conn == None && Some(c) == var t := net(Sends(log)); if t.broken then t.other else t.node)
    ensures Next(log, Sent(c, id), id) && True(log + [Sent(c, id)], net)
    ensures Cost(log + [Sent(c, id)], net) == Cost(log, net) + if conn == None && Falls(net(Sends(log))) then 1 else 0
  {
    hide ErrorTypeOf, Falls, Cost, Sends;
    var e := Sent(c, id);
    assert (log + [e])[..|log|] == log && (log + [e])[|log|] == e;
    assert log != [] ==> (log + [e])[|log| - 1] == log[|log| - 1];
    if log != [] {
      Continues(log, conn, c, id, net);
    }
    TrueMore(log, e, net);
    CostMore(log, e, net);
  }

  lemma Continues(log: seq<Event>, conn: Option<Address>, c: Address, id: nat, net: nat -> Turn)
    requires Between(log, conn, id, net) && log != [] && (conn == Some(c) || conn == None)
    ensures Follows(log[|log| - 1], Sent(c, id), id)
  {
  }

  lemma GotBack(log: seq<Event>, r: Reply, id: nat, net: nat -> Turn)
    requires Orderly(log, id) && True(log, net) && log != [] && log[|log| - 1].Sent?
    requires Sends(log) > 0 && net(Sends(log) - 1).answer == Some(r)
    ensures Next(log, Got(r), id) && True(log + [Got(r)], net)
    ensures Cost(log + [Got(r)], net) == Cost(log, net) + if Redirecting(ErrorTypeOf(r)) then 1 else 0
  {
    hide ErrorTypeOf, Cost, Sends;
    var e := Got(r);
    assert (log + [e])[..|log|] == log && (log + [e])[|log|] == e;
    TrueMore(log, e, net);
    CostMore(log, e, net);
  }

  lemma AskedFor(log: seq<Event>, c: Address, net: nat -> Turn)
    requires True(log, net) && log != [] && log[|log| - 1].Got? && Sends(log) > 0
    requires ErrorTypeOf(log[|log| - 1].reply) == Ask && net(Sends(log) - 1).connected
    ensures True(log + [Asking(c)], net) && Cost(log + [Asking(c)], net) == Cost(log, net)
    ensures Sends(log + [Asking(c)]) == Sends(log)
  {
    hide ErrorTypeOf, Cost;
    var e := Asking(c);
    assert (log + [e])[..|log|] == log && (log + [e])[|log|] == e;
    TrueMore(log, e, net);
    CostMore(log, e, net);
  }

  // A request that was answered: its log ends in the reply, which is no redirection.
  ghost predicate Done(log: seq<Event>, id: nat, net: nat -> Turn, r: Reply) {
    Orderly(log, id) && True(log, net) && EndsIn(log, r) && Final(log) && !Redirecting(ErrorTypeOf(r))
  }

  // A request that was given up, for a reason.
  ghost predicate Missed(log: seq<Event>, id: nat, net: nat -> Turn, before: int, max: int) {
    Orderly(log, id) && True(log, net) && !Final(log) && GivesUp(log, net, before, max)
  }

  /** What the fragments of a call have cost together. */
  function CostAll(parts: seq<seq<Event>>, nets: nat -> nat -> Turn): nat {
    if parts == [] then 0
    else CostAll(parts[..|parts| - 1], nets) + Cost(parts[|parts| - 1], nets(|parts| - 1))
  }

  lemma NoneYet(nets: nat -> nat -> Turn)
    ensures CostAll([], nets) == 0 && Sends([]) == 0 && Joined([]) == []
  {
  }

  lemma CostAllAppend(parts: seq<seq<Event>>, part: seq<Event>, nets: nat -> nat -> Turn)
    ensures CostAll(parts + [part], nets) == CostAll(parts, nets) + Cost(part, nets(|parts|))
  {
    assert (parts + [part])[..|parts|] == parts;
  }

  // How a call that began with `before` of the budget spent has ended, with `after` of it spent.
  ghost predicate Ended(reply: Option<Reply>, log: seq<Event>, id: nat, net: nat -> Turn, before: int, after: int,
                        max: int)
  {
    && Orderly(log, id) && True(log, net) && before <= after <= max + 1
    && (reply.Some? <==> Final(log)) && (reply.Some? ==> after <= max && log[|log| - 1] == Got(reply.value))
    && (reply == None ==> GivesUp(log, net, before, max))
    && (after == before + Cost(log, net)
        || (reply == None && Falls(net(Sends(log))) && after == before + Cost(log, net) + 1))
    && Sends(log) <= 1 + after - before && Sends(log) <= 1 + max - before
  }

  // A call under way: `spent` of the budget is gone, and the next attempt is the `turn`-th.
  ghost predicate UnderWay(log: seq<Event>, conn: Option<Address>, id: nat, net: nat -> Turn, before: int, spent: int,
                           max: int, turn: nat)
  {
    && before <= spent <= max && turn == Sends(log) <= spent - before
    && Between(log, conn, id, net) && spent == before + Cost(log, net)
  }

  lemma CallBegins(id: nat, net: nat -> Turn, before: int, max: int)
    requires before <= max
    ensures UnderWay([], None, id, net, before, before, max, 0)
  {
    NothingYet(id);
    NothingTold(net);
  }

  lemma NoneToSend(log: seq<Event>, id: nat, net: nat -> Turn, before: int, spent: int, max: int, turn: nat)
    requires UnderWay(log, None, id, net, before, spent, max, turn) && Unconnected(net(turn), spent, max)
    ensures Ended(None, log, id, net, before, spent + if Falls(net(turn)) then 1 else 0, max)
  {
    NothingYet(id);
    hide Orderly, True, Cost, Sends, ErrorTypeOf, AskTarget;
  }

  // A command on its way: sent in the `turn`-th attempt.
  ghost predicate Out(log: seq<Event>, id: nat, net: nat -> Turn, before: int, spent: int, max: int, turn: nat) {
    && Orderly(log, id) && True(log, net) && log != [] && log[|log| - 1].Sent?
    && Sends(log) == turn + 1 && before <= spent <= max && turn <= spent - before && spent == before + Cost(log, net)
  }

  lemma GoesOut(log: seq<Event>, conn: Option<Address>, c: Address, id: nat, net: nat -> Turn, before: int, spent: int,
                max: int, turn: nat)
    requires UnderWay(log, conn, id, net, before, spent, max, turn)
    requires conn == Some(c)
             || (conn == None && Some(c) == if net(turn).broken then net(turn).other else net(turn).node)
    requires conn == None ==> !Unconnected(net(turn), spent, max)
    ensures var cost := if conn == None && Falls(net(turn)) then 1 else 0;
            Next(log, Sent(c, id), id) && Out(log + [Sent(c, id)], id, net, before, spent + cost, max, turn)
  {
    hide True, Cost, Sends, ErrorTypeOf;
    SentOut(log, conn, c, id, net);
    SendsAppend(log, Sent(c, id));
    OrderlyMore(log, Sent(c, id), id);
  }

  lemma OrderlyMore(log: seq<Event>, e: Event, id: nat)
    requires Orderly(log, id) && Next(log, e, id)
    ensures Orderly(log + [e], id)
  {
  }

  lemma Unanswered(log: seq<Event>, id: nat, net: nat -> Turn, before: int, spent: int, max: int, turn: nat)
    requires Out(log, id, net, before, spent, max, turn) && net(turn).answer == None
    ensures Ended(None, log, id, net, before, spent, max)
  {
  }

  /** An answer ends the call unless it is a redirection, and that ends it too when the budget is spent. */
  lemma Answers(log: seq<Event>, r: Reply, id: nat, net: nat -> Turn, before: int, spent: int, max: int, turn: nat)
    requires Out(log, id, net, before, spent, max, turn) && net(turn).answer == Some(r)
    ensures Next(log, Got(r), id) && Orderly(log + [Got(r)], id)
    ensures !Redirecting(ErrorTypeOf(r)) ==> Ended(Some(r), log + [Got(r)], id, net, before, spent, max)
    ensures Redirecting(ErrorTypeOf(r)) && spent + 1 > max ==>
              Ended(None, log + [Got(r)], id, net, before, spent + 1, max)
    ensures Redirecting(ErrorTypeOf(r)) && spent + 1 <= max ==>
              Told(log + [Got(r)], r, id, net, before, spent + 1, max, turn)
  {
    hide True, Cost, Sends, ErrorTypeOf, AskTarget;
    GotBack(log, r, id, net);
    OrderlyMore(log, Got(r), id);
    SendsAppend(log, Got(r));
  }

  // A redirection that the budget allows.
  ghost predicate Told(log: seq<Event>, r: Reply, id: nat, net: nat -> Turn, before: int, spent: int, max: int,
                       turn: nat)
  {
    && Orderly(log, id) && True(log, net) && log != [] && log[|log| - 1] == Got(r) && Redirecting(ErrorTypeOf(r))
    && Sends(log) == turn + 1 <= spent - before && before <= spent <= max && spent == before + Cost(log, net)
  }

  /** Following a redirection: there is a next attempt, or the call gives up. */
  lemma Followed(log: seq<Event>, r: Reply, id: nat, net: nat -> Turn, before: int, spent: int, max: int, turn: nat)
    requires Told(log, r, id, net, before, spent, max, turn)
    ensures var t := net(turn);
            var asked := ErrorTypeOf(r) == Ask && AskTarget(r.text).Some? && t.connected;
            var longer := if asked then log + [Asking(AskTarget(r.text).value)] else log;
            var ok := if ErrorTypeOf(r) == Ask then asked && t.answered else ErrorTypeOf(r) == Moved ==> t.routed;
            if ok then
              UnderWay(longer, if asked then AskTarget(r.text) else None, id, net, before, spent, max, turn + 1)
            else Ended(None, longer, id, net, before, spent, max)
  {
    hide True, Cost, Sends, ErrorTypeOf, AskTarget;
    if ErrorTypeOf(r) == Ask && AskTarget(r.text).Some? && net(turn).connected {
      var c := AskTarget(r.text).value;
      AskedFor(log, c, net);
      OrderlyMore(log, Asking(c), id);
    }
  }

  class Cluster {
    var retryCount: int
    const maxRedirect: int

    constructor (max: int)
      requires max > 0
      ensures retryCount == 0 && maxRedirect == max
    {
      retryCount, maxRedirect := 0, max;
    }

    /** The connection of the slot's node or, when that is broken, of any node that answers a ping;
        falling back counts as a redirection. */
    method PickConnection(t: Turn) returns (c: Option<Address>)
      requires 0 <= retryCount <= maxRedirect
      modifies this`retryCount
      ensures retryCount == old(retryCount) + if Falls(t) then 1 else 0
      ensures c == None <==> Unconnected(t, old(retryCount), maxRedirect)
      ensures c.Some? ==> retryCount <= maxRedirect && c == if t.broken then t.other else t.node
    {
      if t.node == None || !t.broken {
        return t.node;
      }
      if t.other == None {
        return None;
      }
      retryCount := retryCount + 1;
      if retryCount > maxRedirect || !t.reachable {
        return None;
      }
      return t.other;
    }

    /** What a redirecting reply asks for: a new route, an ASKING on the connection it names, or just
        another try. `conn` is set when the connection is given. */
    method FollowRedirect(r: Reply, log: seq<Event>, id: nat, t: Turn)
      returns (ok: bool, conn: Option<Address>, longer: seq<Event>)
      requires Orderly(log, id) && log != [] && log[|log| - 1] == Got(r) && Redirecting(ErrorTypeOf(r))
      ensures Orderly(longer, id) && Sends(longer) == Sends(log)
      ensures ok ==> forall c :: conn == None || conn == Some(c) ==> Next(longer, Sent(c, id), id)
      ensures var asked := ErrorTypeOf(r) == Ask && AskTarget(r.text).Some? && t.connected;
              && longer == (if asked then log + [Asking(AskTarget(r.text).value)] else log)
              && conn == (if asked then AskTarget(r.text) else None)
              && ok == if ErrorTypeOf(r) == Ask then asked && t.answered
                       else ErrorTypeOf(r) == Moved ==> t.routed
    {
      conn, longer := None, log;
      match ErrorTypeOf(r) {
        case Moved =>
          ok := t.routed;
        case Ask =>
          var target := AskTarget(r.text);
          if target == None || !t.connected {
            return false, None, log;
          }
          longer := Record(log, Asking(target.value), id);
          return t.answered, target, longer;
        case _ =>
          ok := true;
      }
    }

    static method Record(log: seq<Event>, e: Event, ghost id: nat) returns (longer: seq<Event>)
      requires Orderly(log, id) && Next(log, e, id)
      ensures longer == log + [e] && Sends(longer) == Sends(log) + (if e.Sent? then 1 else 0)
      ensures Orderly(longer, id)
    {
      SendsAppend(log, e);
      return log + [e];
    }

    // The attempts of one command.
    method Attempts(id: nat, net: nat -> Turn) returns (reply: Option<Reply>, log: seq<Event>)
      requires 0 <= retryCount <= maxRedirect
      modifies this`retryCount
      ensures Ended(reply, log, id, net, old(retryCount), retryCount, maxRedirect)
    {
      hide Orderly, ErrorTypeOf, Sends, True, Cost, Falls, AskTarget, Told, Out, UnderWay, Unconnected,
        Ended;
      ghost var before := retryCount;
      log := [];
      NothingYet(id);
      CallBegins(id, net, before, maxRedirect);
      var turn: nat, conn: Option<Address> := 0, None;  // conn is set when an ASK reply chose the connection
      while true
        invariant before <= retryCount <= maxRedirect && Orderly(log, id)
        invariant UnderWay(log, conn, id, net, before, retryCount, maxRedirect, turn)
        decreases maxRedirect - retryCount
      {
        ghost var chosen, spent := conn, retryCount;
        if conn == None {
          conn := PickConnection(net(turn));
          if conn == None {
            NoneToSend(log, id, net, before, spent, maxRedirect, turn);
            return None, log;
          }
        }
        GoesOut(log, chosen, conn.value, id, net, before, spent, maxRedirect, turn);
        log := Record(log, Sent(conn.value, id), id);
        var r := net(turn).answer;
        if r == None {
          Unanswered(log, id, net, before, retryCount, maxRedirect, turn);
          return None, log;
        }
        Answers(log, r.value, id, net, before, retryCount, maxRedirect, turn);
        log := Record(log, Got(r.value), id);
        if !Redirecting(ErrorTypeOf(r.value)) {
          return r, log;
        }
        retryCount := retryCount + 1;
        if retryCount > maxRedirect {
          return None, log;
        }
        Followed(log, r.value, id, net, before, retryCount, maxRedirect, turn);
        var ok;
        ok, conn, log := FollowRedirect(r.value, log, id, net(turn));
        if !ok {
          return None, log;
        }
        turn := turn + 1;
      }
    }

    /** Sends one command until a reply that is no redirection comes back, or gives up. `log` is what
        went over the wire. There is a reply exactly when the last thing that came is no redirection. */
    method CommandExecute(id: nat, net: nat -> Turn) returns (reply: Option<Reply>, log: seq<Event>)
      requires 0 <= retryCount <= maxRedirect
      modifies this`retryCount
      ensures old(retryCount) <= retryCount <= maxRedirect + 1
      ensures reply.Some? ==> retryCount <= maxRedirect && !Redirecting(ErrorTypeOf(reply.value))
      ensures reply.Some? ==> log != [] && log[|log| - 1] == Got(reply.value)
      ensures reply.Some? <==> Final(log)
      ensures reply == None ==> GivesUp(log, net, old(retryCount), maxRedirect)
      ensures Orderly(log, id) && True(log, net)
      ensures retryCount == old(retryCount) + Cost(log, net)
              || (reply == None && Falls(net(Sends(log))) && retryCount == old(retryCount) + Cost(log, net) + 1)
      ensures Sends(log) <= 1 + retryCount - old(retryCount) && Sends(log) <= 1 + maxRedirect - old(retryCount)
    {
      hide Orderly, ErrorTypeOf, Sends, True, Cost, Falls, GivesUp;
      reply, log := Attempts(id, net);
    }

    // One command of several.
    method ExecuteOne(id: nat, net: nat -> Turn) returns (reply: Option<Reply>, log: seq<Event>)
      requires 0 <= retryCount <= maxRedirect
      modifies this`retryCount
      ensures if reply.Some? then Done(log, id, net, reply.value)
              else Missed(log, id, net, old(retryCount), maxRedirect)
      ensures Sends(log) <= 1 + retryCount - old(retryCount) && Sends(log) <= 1 + maxRedirect - old(retryCount)
      ensures old(retryCount) <= retryCount
      ensures reply.Some? ==> retryCount <= maxRedirect && retryCount == old(retryCount) + Cost(log, net)
    {
      hide Orderly, ErrorTypeOf, Sends, True, Cost, GivesUp;
      reply, log := CommandExecute(id, net);
    }

    /** One synchronous call with its fragments: they share one retry budget, which is restored at the
        end. An error reply or a missing one ends the call early, and nothing else does. */
    method FormattedCommand(ids: seq<nat>, nets: nat -> nat -> Turn)
      returns (replies: seq<Reply>, log: seq<Event>, ghost parts: seq<seq<Event>>)
      requires 0 <= retryCount <= maxRedirect
      modifies this`retryCount
      ensures retryCount == 0
      ensures Sends(log) <= |ids| + maxRedirect - old(retryCount)
      ensures |replies| <= |parts| <= |ids| && log == Joined(parts)
      ensures forall k :: 0 <= k < |replies| ==> Done(parts[k], ids[k], nets(k), replies[k])
      ensures forall k :: 0 <= k < |replies| - 1 ==> !replies[k].Error?
      ensures |replies| < |ids| ==>
                if |replies| == |parts| then replies != [] && replies[|replies| - 1].Error?
                else |parts| == |replies| + 1 && (forall r :: r in replies ==> !r.Error?)
                     && Missed(parts[|replies|], ids[|replies|], nets(|replies|),
                               old(retryCount) + CostAll(parts[..|replies|], nets), maxRedirect)
    {
      hide Orderly, ErrorTypeOf, Sends, True, Cost, CostAll, GivesUp, Final, Joined, EndsIn, Done, Missed, Falls;
      NoneYet(nets);
      replies, log, parts := [], [], [];
      for i := 0 to |ids|
        invariant old(retryCount) <= retryCount <= maxRedirect
        invariant Sends(log) <= i + retryCount - old(retryCount) && retryCount == old(retryCount) + CostAll(parts, nets)
        invariant |replies| == |parts| == i && log == Joined(parts)
        invariant forall k :: 0 <= k < i ==> Done(parts[k], ids[k], nets(k), replies[k]) && !replies[k].Error?
      {
        var reply, part := ExecuteOne(ids[i], nets(i));
        JoinedAppend(parts, part);
        CostAllAppend(parts, part, nets);
        assert (parts + [part])[..i] == parts;
        parts := parts + [part];
        SendsConcat(log, part);
        log := log + part;
        if reply == None {
          break;
        }
        replies := replies + [reply.value];
        if reply.value.Error? {
          break;
        }
      }
      retryCount := 0;
    }
  }
}
