// Multi-key commands pipelined over several nodes: every reply handed out is the one the command would
// have got from a single server that ran all of them in turn.

module PipelinedCommands {
  import opened Bytes
  import opened Resp
  import opened Formatter
  import opened CommandRoundTrip
  import opened KeySlot
  import opened Fragments
  import opened FragmentBuilder
  import opened Gather
  import opened ScatterGather
  import opened ClusterCommand
  import opened Pipeline

  datatype Call = Call(kind: Kind, argv: seq<seq<byte>>)

  ghost predicate Proper(call: Call) {
    MultiKey(call.kind, call.argv) && KindOf(call.argv[0]) == Some(call.kind)
  }

  ghost predicate AllProper(calls: seq<Call>) {
    forall k :: 0 <= k < |calls| ==> Proper(calls[k])
  }

  /** What one server holding everything does with the commands, one after the other. */
  function ServeAll(calls: seq<Call>, whole: Store): (Store, seq<Reply>) {
    if calls == [] then (whole, []) else
    var (store, reply) := Serve(calls[0].argv, whole);
    var (last, replies) := ServeAll(calls[1..], store);
    (last, [reply] + replies)
  }

  // ---------------------------------------------------------------- what is sent

  // A request on the wire with its bytes.
  datatype Wire = Wire(part: Part, bytes: seq<byte>)

  /** The requests a command is sent as: itself, or its fragments. */
  function Sent(call: Call): seq<Fragment>
    requires MultiKey(call.kind, call.argv)
  {
    if InOneSlot(call.kind, call.argv)
    then [Fragment(Slot(KeyAt(call.kind, call.argv, KeyCount(call.kind, call.argv) - 1)), Format(call.argv))]
    else FragmentsFrom(call.kind, call.argv, 0)
  }

  /** Consecutive identities from `base` on. */
  function Number(frags: seq<Fragment>, base: nat): (r: seq<Wire>)
    ensures |r| == |frags|
  {
    if frags == [] then [] else [Wire(Part(frags[0].slot, base), frags[0].bytes)] + Number(frags[1..], base + 1)
  }

  function PartsOf(wires: seq<Wire>): (r: seq<Part>)
    ensures |r| == |wires|
  {
    if wires == [] then [] else [wires[0].part] + PartsOf(wires[1..])
  }

  function SlotList(call: Call): (r: seq<nat>)
    requires MultiKey(call.kind, call.argv)
    ensures SlotsOf(r, call.kind, call.argv)
  {
    seq(KeyCount(call.kind, call.argv), j requires 0 <= j < KeyCount(call.kind, call.argv) =>
      Slot(KeyAt(call.kind, call.argv, j)))
  }

  /** The command as the list of pending requests holds it. */
  function RequestOf(call: Call, base: nat): Request
    requires MultiKey(call.kind, call.argv)
  {
    var parts := PartsOf(Number(Sent(call), base));
    if InOneSlot(call.kind, call.argv) then Single(parts[0]) else Multi(call.kind, parts, SlotList(call))
  }

  function Requests(calls: seq<Call>, base: nat): (r: seq<Request>)
    requires forall k :: 0 <= k < |calls| ==> MultiKey(calls[k].kind, calls[k].argv)
    ensures |r| == |calls|
  {
    if calls == [] then [] else [RequestOf(calls[0], base)] + Requests(calls[1..], base + |Sent(calls[0])|)
  }

  /** Everything that is sent, in the order the commands are appended. */
  function Wires(calls: seq<Call>, base: nat): seq<Wire>
    requires forall k :: 0 <= k < |calls| ==> MultiKey(calls[k].kind, calls[k].argv)
  {
    if calls == [] then []
    else Number(Sent(calls[0]), base) + Wires(calls[1..], base + |Sent(calls[0])|)
  }

  // ---------------------------------------------------------------- what the nodes do

  /** The stores of the slots after the requests were run in the given order. */
  function After(wires: seq<Wire>, stores: seq<Store>): (r: seq<Store>)
    requires |stores| == SLOTS
    ensures |r| == SLOTS
  {
    if wires == [] then stores else
    var w := wires[0];
    After(wires[1..], stores[w.part.slot := Server(w.bytes, stores[w.part.slot]).0])
  }

  // Run in the given order, request `id` is answered with `answer(id)`.
  ghost predicate Answers(answer: nat -> Reply, wires: seq<Wire>, stores: seq<Store>)
    requires |stores| == SLOTS
  {
    wires == [] ||
    var w := wires[0];
    var (store, reply) := Server(w.bytes, stores[w.part.slot]);
    answer(w.part.id) == reply && Answers(answer, wires[1..], stores[w.part.slot := store])
  }

  function AtSlot(wires: seq<Wire>, slot: nat): seq<Wire> {
    if wires == [] then []
    else (if wires[0].part.slot == slot then [wires[0]] else []) + AtSlot(wires[1..], slot)
  }

  function AtNode(table: seq<Option<Node>>, wires: seq<Wire>, node: Node): seq<Wire>
    requires |table| == SLOTS
  {
    if wires == [] then []
    else (if table[wires[0].part.slot] == Some(node) then [wires[0]] else []) + AtNode(table, wires[1..], node)
  }

  // Every node runs its requests in the order in which they were put into its buffer; nothing is said
  // about the order between nodes.
  ghost predicate InNodeOrder(table: seq<Option<Node>>, order: seq<Wire>, wires: seq<Wire>)
    requires |table| == SLOTS
  {
    (forall node :: AtNode(table, order, node) == AtNode(table, wires, node))
    && (forall i :: 0 <= i < |order| ==> table[order[i].part.slot].Some?)
  }

  lemma {:induction false} NodeHoldsSlot(table: seq<Option<Node>>, wires: seq<Wire>, slot: SlotNo)
    requires |table| == SLOTS && table[slot].Some?
    ensures AtSlot(AtNode(table, wires, table[slot].value), slot) == AtSlot(wires, slot)
  {
    if wires != [] {
      NodeHoldsSlot(table, wires[1..], slot);
      var rest := AtNode(table, wires[1..], table[slot].value);
      assert ([wires[0]] + rest)[1..] == rest;
      assert [] + rest == rest;
    }
  }

  lemma {:induction false} OnlyMappedSlots(table: seq<Option<Node>>, wires: seq<Wire>, slot: SlotNo)
    requires |table| == SLOTS && table[slot] == None
    requires forall i :: 0 <= i < |wires| ==> table[wires[i].part.slot].Some?
    ensures AtSlot(wires, slot) == []
  {
    if wires != [] {
      OnlyMappedSlots(table, wires[1..], slot);
    }
  }

  /** What a slot's requests do depends on nothing but that slot's store. */
  lemma {:induction false} OnlyItsSlot(answer: nat -> Reply, wires: seq<Wire>, slot: SlotNo, a: seq<Store>,
                                       b: seq<Store>)
    requires |a| == |b| == SLOTS && a[slot] == b[slot] && Answers(answer, wires, a)
    ensures Answers(answer, AtSlot(wires, slot), b)
    ensures After(wires, a)[slot] == After(AtSlot(wires, slot), b)[slot]
  {
    hide Server;
    if wires != [] {
      var w := wires[0];
      var store := Server(w.bytes, a[w.part.slot]).0;
      var rest := AtSlot(wires[1..], slot);
      if w.part.slot == slot {
        OnlyItsSlot(answer, wires[1..], slot, a[slot := store], b[slot := store]);
        assert ([w] + rest)[1..] == rest;
      } else {
        OnlyItsSlot(answer, wires[1..], slot, a[w.part.slot := store], b);
        assert [] + rest == rest;
      }
    }
  }

  lemma {:induction false} SlotsDecide(answer: nat -> Reply, wires: seq<Wire>, stores: seq<Store>)
    requires |stores| == SLOTS && forall slot: SlotNo :: Answers(answer, AtSlot(wires, slot), stores)
    ensures Answers(answer, wires, stores)
  {
    hide Server;
    if wires != [] {
      var w, rest := wires[0], wires[1..];
      var (store, reply) := Server(w.bytes, stores[w.part.slot]);
      var next := stores[w.part.slot := store];
      assert Answers(answer, AtSlot(wires, w.part.slot), stores);
      assert [w] + rest == wires;
      forall slot: SlotNo
        ensures Answers(answer, AtSlot(rest, slot), next)
      {
        assert Answers(answer, AtSlot(wires, slot), stores);
        HeadAtSlot(w, rest, slot);
        if slot != w.part.slot {
          OnlyItsSlot(answer, AtSlot(rest, slot), slot, stores, next);
          TwiceAtSlot(rest, slot);
        }
      }
      HeadAtSlot(w, rest, w.part.slot);
      SlotsDecide(answer, rest, next);
    }
  }

  lemma HeadAtSlot(w: Wire, rest: seq<Wire>, slot: nat)
    ensures AtSlot([w] + rest, slot) == if w.part.slot == slot then [w] + AtSlot(rest, slot) else AtSlot(rest, slot)
    ensures w.part.slot == slot ==> ([w] + AtSlot(rest, slot))[1..] == AtSlot(rest, slot)
  {
    assert ([w] + rest)[1..] == rest;
  }

  lemma {:induction false} TwiceAtSlot(wires: seq<Wire>, slot: nat)
    ensures AtSlot(AtSlot(wires, slot), slot) == AtSlot(wires, slot)
  {
    if wires != [] {
      TwiceAtSlot(wires[1..], slot);
      HeadAtSlot(wires[0], AtSlot(wires[1..], slot), slot);
    }
  }

  /** The order between nodes does not matter: each request gets the same answer, and each slot ends with
      the same store, as when everything is run in the order it was sent. */
  lemma {:induction false} OrderBetweenNodes(answer: nat -> Reply, table: seq<Option<Node>>, order: seq<Wire>,
                                             wires: seq<Wire>, stores: seq<Store>)
    requires |table| == |stores| == SLOTS && InNodeOrder(table, order, wires) && Answers(answer, order, stores)
    requires forall i :: 0 <= i < |wires| ==> table[wires[i].part.slot].Some?
    ensures Answers(answer, wires, stores) && After(order, stores) == After(wires, stores)
  {
    forall slot: SlotNo
      ensures AtSlot(order, slot) == AtSlot(wires, slot)
    {
      if table[slot].Some? {
        NodeHoldsSlot(table, order, slot);
        NodeHoldsSlot(table, wires, slot);
      } else {
        OnlyMappedSlots(table, order, slot);
        OnlyMappedSlots(table, wires, slot);
      }
    }
    forall slot: SlotNo
      ensures Answers(answer, AtSlot(wires, slot), stores)
    {
      OnlyItsSlot(answer, order, slot, stores, stores);
    }
    SlotsDecide(answer, wires, stores);
    forall s | 0 <= s < SLOTS
      ensures After(order, stores)[s] == After(wires, stores)[s]
    {
      var slot: SlotNo := s;
      OnlyItsSlot(answer, order, slot, stores, stores);
      OnlyItsSlot(answer, wires, slot, stores, stores);
    }
  }

  // ---------------------------------------------------------------- one command, all commands

  lemma {:induction false} AnswersSplit(answer: nat -> Reply, a: seq<Wire>, b: seq<Wire>, stores: seq<Store>)
    requires |stores| == SLOTS && Answers(answer, a + b, stores)
    ensures Answers(answer, a, stores) && Answers(answer, b, After(a, stores))
    ensures After(a + b, stores) == After(b, After(a, stores))
  {
    hide Server;
    if a == [] {
      assert a + b == b;
    } else {
      assert (a + b)[0] == a[0] && (a + b)[1..] == a[1..] + b;
      var w := a[0];
      AnswersSplit(answer, a[1..], b, stores[w.part.slot := Server(w.bytes, stores[w.part.slot]).0]);
    }
  }

  /** A command's requests, one after the other, are its fragments run in list order. */
  lemma {:induction false} SentRuns(answer: nat -> Reply, frags: seq<Fragment>, base: nat, stores: seq<Store>)
    requires |stores| == SLOTS && Answers(answer, Number(frags, base), stores)
    ensures RunFragments(frags, stores)
         == (After(Number(frags, base), stores), SubRepliesOf(PartsOf(Number(frags, base)), answer))
  {
    hide Server;
    if frags == [] {
    } else {
      var f := frags[0];
      var (store, reply) := Server(f.bytes, stores[f.slot]);
      var wires := Number(frags[1..], base + 1);
      var w := Wire(Part(f.slot, base), f.bytes);
      assert ([w] + wires)[1..] == wires;
      SentRuns(answer, frags[1..], base + 1, stores[f.slot := store]);
      assert SubRepliesOf(PartsOf([w] + wires), answer)
          == [SubReply(f.slot, Some(reply))] + SubRepliesOf(PartsOf(wires), answer);
    }
  }

  /** One command among the others: its reply, and what it leaves at the slots, are the undivided command's. */
  lemma CallIsWhole(answer: nat -> Reply, call: Call, base: nat, whole: Store, stores: seq<Store>)
    requires Proper(call) && |stores| == SLOTS && Holds(whole, stores)
    requires Answers(answer, Number(Sent(call), base), stores)
    ensures Holds(Serve(call.argv, whole).0, After(Number(Sent(call), base), stores))
    ensures ReplyTo(RequestOf(call, base), answer) == Some(Serve(call.argv, whole).1)
  {
    hide Slot, KeyAt, Serve, Server, FragmentsFrom, KindOf, Holds, Format;
    var kind, argv := call.kind, call.argv;
    SentRuns(answer, Sent(call), base, stores);
    if InOneSlot(kind, argv) {
      var slot := Slot(KeyAt(kind, argv, KeyCount(kind, argv) - 1));
      OneSlotIsWhole(kind, argv, whole, stores, slot);
      ServerRuns(kind, argv, stores[slot]);
    } else {
      ScatterGatherIsWhole(kind, argv, whole, stores, SlotList(call));
    }
  }

  lemma {:induction false} InTurnIsWhole(answer: nat -> Reply, calls: seq<Call>, base: nat, whole: Store,
                                         stores: seq<Store>)
    requires AllProper(calls) && |stores| == SLOTS && Holds(whole, stores)
    requires Answers(answer, Wires(calls, base), stores)
    ensures Holds(ServeAll(calls, whole).0, After(Wires(calls, base), stores))
    ensures |ServeAll(calls, whole).1| == |calls|
    ensures forall k :: 0 <= k < |calls| ==>
              ReplyTo(Requests(calls, base)[k], answer) == Some(ServeAll(calls, whole).1[k])
  {
    hide Serve, Sent, RequestOf, Holds, ReplyTo, Number, KindOf, Answers;
    if calls != [] {
      var call := calls[0];
      assert Proper(call);
      var mine := Number(Sent(call), base);
      AnswersSplit(answer, mine, Wires(calls[1..], base + |Sent(call)|), stores);
      CallIsWhole(answer, call, base, whole, stores);
      InTurnIsWhole(answer, calls[1..], base + |Sent(call)|, Serve(call.argv, whole).0, After(mine, stores));
    }
  }

  /** Pipelining preserves meaning: when each node runs its requests in the order they were put into its
      buffer, whatever the nodes do relative to each other, every pending command's reply is the one it
      gets from a single server that runs the commands in turn, and the slots end with that server's keys. */
  lemma PipelinedIsWhole(answer: nat -> Reply, table: seq<Option<Node>>, calls: seq<Call>, base: nat,
                         order: seq<Wire>, whole: Store, stores: seq<Store>)
    requires AllProper(calls) && |table| == |stores| == SLOTS && Holds(whole, stores)
    requires forall i :: 0 <= i < |Wires(calls, base)| ==> table[Wires(calls, base)[i].part.slot].Some?
    requires InNodeOrder(table, order, Wires(calls, base)) && Answers(answer, order, stores)
    ensures Holds(ServeAll(calls, whole).0, After(order, stores))
    ensures |ServeAll(calls, whole).1| == |calls|
    ensures forall k :: 0 <= k < |calls| ==>
              ReplyTo(Requests(calls, base)[k], answer) == Some(ServeAll(calls, whole).1[k])
  {
    hide Holds, ReplyTo, ServeAll, Requests, Wires;
    OrderBetweenNodes(answer, table, order, Wires(calls, base), stores);
    InTurnIsWhole(answer, calls, base, whole, stores);
  }

  // ---------------------------------------------------------------- while commands come and go

  // Every node has run a beginning of what was put into its buffer.
  ghost predicate RunsInOrder(table: seq<Option<Node>>, order: seq<Wire>, wires: seq<Wire>)
    requires |table| == SLOTS
  {
    (forall node :: AtNode(table, order, node) <= AtNode(table, wires, node))
    && (forall i :: 0 <= i < |order| ==> table[order[i].part.slot].Some?)
  }

  ghost predicate HasRun(order: seq<Wire>, part: Part) { exists i :: 0 <= i < |order| && order[i].part == part }

  ghost predicate AllRun(order: seq<Wire>, r: Request) {
    forall j :: 0 <= j < |Parts(r)| ==> HasRun(order, Parts(r)[j])
  }

  /** The answers when everything is run in the given order. */
  function InTurn(wires: seq<Wire>, stores: seq<Store>, id: nat): Reply
    requires |stores| == SLOTS
  {
    if wires == [] then Nil else
    var w := wires[0];
    var (store, reply) := Server(w.bytes, stores[w.part.slot]);
    if w.part.id == id then reply else InTurn(wires[1..], stores[w.part.slot := store], id)
  }

  function InTurnAll(wires: seq<Wire>, stores: seq<Store>): nat -> Reply
    requires |stores| == SLOTS
  {
    (id: nat) => InTurn(wires, stores, id)
  }

  // The requests are numbered one after the other.
  ghost predicate Numbered(wires: seq<Wire>, base: nat) {
    forall i :: 0 <= i < |wires| ==> wires[i].part.id == base + i
  }

  lemma {:induction false} NumberNumbers(frags: seq<Fragment>, base: nat)
    ensures Numbered(Number(frags, base), base)
  {
    if frags != [] {
      NumberNumbers(frags[1..], base + 1);
    }
  }

  lemma {:induction false} WiresNumbered(calls: seq<Call>, base: nat)
    requires forall k :: 0 <= k < |calls| ==> MultiKey(calls[k].kind, calls[k].argv)
    ensures Numbered(Wires(calls, base), base)
  {
    hide Sent;
    if calls != [] {
      NumberNumbers(Sent(calls[0]), base);
      WiresNumbered(calls[1..], base + |Sent(calls[0])|);
    }
  }

  lemma {:induction false} AnswersSame(f: nat -> Reply, g: nat -> Reply, wires: seq<Wire>, stores: seq<Store>)
    requires |stores| == SLOTS && Answers(f, wires, stores)
    requires forall i :: 0 <= i < |wires| ==> f(wires[i].part.id) == g(wires[i].part.id)
    ensures Answers(g, wires, stores)
  {
    hide Server;
    if wires != [] {
      var w := wires[0];
      AnswersSame(f, g, wires[1..], stores[w.part.slot := Server(w.bytes, stores[w.part.slot]).0]);
    }
  }

  lemma {:induction false} InTurnAnswers(wires: seq<Wire>, base: nat, stores: seq<Store>)
    requires |stores| == SLOTS && Numbered(wires, base)
    ensures Answers(InTurnAll(wires, stores), wires, stores)
  {
    hide Server;
    if wires != [] {
      var w := wires[0];
      var next := stores[w.part.slot := Server(w.bytes, stores[w.part.slot]).0];
      InTurnAnswers(wires[1..], base + 1, next);
      AnswersSame(InTurnAll(wires[1..], next), InTurnAll(wires, stores), wires[1..], next);
    }
  }

  /** What has been run of a list of requests was answered as it is in any run of the whole list. */
  lemma {:induction false} BeginningAgrees(f: nat -> Reply, g: nat -> Reply, a: seq<Wire>, b: seq<Wire>,
                                           stores: seq<Store>)
    requires |stores| == SLOTS && a <= b && Answers(f, a, stores) && Answers(g, b, stores)
    ensures forall i :: 0 <= i < |a| ==> f(a[i].part.id) == g(a[i].part.id)
  {
    hide Server;
    if a != [] {
      var w := a[0];
      BeginningAgrees(f, g, a[1..], b[1..], stores[w.part.slot := Server(w.bytes, stores[w.part.slot]).0]);
      forall i | 0 < i < |a|
        ensures f(a[i].part.id) == g(a[i].part.id)
      {
        assert a[i] == a[1..][i - 1];
      }
    }
  }

  lemma {:induction false} AtSlotBegins(a: seq<Wire>, b: seq<Wire>, slot: nat)
    requires a <= b
    ensures AtSlot(a, slot) <= AtSlot(b, slot)
  {
    if a != [] {
      AtSlotBegins(a[1..], b[1..], slot);
    }
  }

  lemma {:induction false} InAtSlot(wires: seq<Wire>, i: nat)
    requires i < |wires|
    ensures wires[i] in AtSlot(wires, wires[i].part.slot)
  {
    if i > 0 {
      InAtSlot(wires[1..], i - 1);
    }
  }

  /** A request that has been run has got the answer it gets when everything is run in turn. */
  lemma RunIsInTurn(answer: nat -> Reply, g: nat -> Reply, table: seq<Option<Node>>, order: seq<Wire>,
                    wires: seq<Wire>, stores: seq<Store>, i: nat)
    requires |table| == |stores| == SLOTS && RunsInOrder(table, order, wires) && i < |order|
    requires Answers(answer, order, stores) && Answers(g, wires, stores)
    ensures answer(order[i].part.id) == g(order[i].part.id)
  {
    hide Answers;
    var slot := order[i].part.slot;
    var node := table[slot].value;
    assert AtNode(table, order, node) <= AtNode(table, wires, node);
    NodeHoldsSlot(table, order, slot);
    NodeHoldsSlot(table, wires, slot);
    AtSlotBegins(AtNode(table, order, node), AtNode(table, wires, node), slot);
    OnlyItsSlot(answer, order, slot, stores, stores);
    OnlyItsSlot(g, wires, slot, stores, stores);
    BeginningAgrees(answer, g, AtSlot(order, slot), AtSlot(wires, slot), stores);
    InAtSlot(order, i);
  }

  lemma ReplySame(r: Request, f: nat -> Reply, g: nat -> Reply)
    requires forall j :: 0 <= j < |Parts(r)| ==> f(Parts(r)[j].id) == g(Parts(r)[j].id)
    ensures ReplyTo(r, f) == ReplyTo(r, g)
  {
    if r.Single? {
      assert Parts(r)[0] == r.part;
    } else {
      var a, b := SubRepliesOf(r.parts, f), SubRepliesOf(r.parts, g);
      forall j | 0 <= j < |r.parts|
        ensures a[j] == b[j]
      {
        assert r.parts[j] == Parts(r)[j];
      }
      assert a == b;
    }
  }

  /** The same at any moment, with each node having run whatever beginning of its buffer: a command whose
      requests have all been run gets the single server's reply, no matter what else is under way. */
  lemma RunningIsWhole(answer: nat -> Reply, table: seq<Option<Node>>, calls: seq<Call>, base: nat,
                       order: seq<Wire>, whole: Store, stores: seq<Store>, k: nat)
    requires AllProper(calls) && |table| == |stores| == SLOTS && Holds(whole, stores) && k < |calls|
    requires RunsInOrder(table, order, Wires(calls, base)) && Answers(answer, order, stores)
    requires AllRun(order, Requests(calls, base)[k])
    ensures |ServeAll(calls, whole).1| == |calls|
    ensures ReplyTo(Requests(calls, base)[k], answer) == Some(ServeAll(calls, whole).1[k])
  {
    hide Holds, ReplyTo, ServeAll, Requests, Wires, Answers, RunsInOrder;
    var wires, r := Wires(calls, base), Requests(calls, base)[k];
    var g := InTurnAll(wires, stores);
    WiresNumbered(calls, base);
    InTurnAnswers(wires, base, stores);
    InTurnIsWhole(g, calls, base, whole, stores);
    forall j | 0 <= j < |Parts(r)|
      ensures answer(Parts(r)[j].id) == g(Parts(r)[j].id)
    {
      assert HasRun(order, Parts(r)[j]);
      var i :| 0 <= i < |order| && order[i].part == Parts(r)[j];
      RunIsInTurn(answer, g, table, order, wires, stores, i);
    }
    ReplySame(r, answer, g);
  }

  // ---------------------------------------------------------------- the client

  // The command's fragments come out as they should, and each has a node to go to.
  ghost predicate Sendable(table: seq<Option<Node>>, call: Call)
    requires |table| == SLOTS && Proper(call)
  {
    (KeyCount(call.kind, call.argv) > 1 ==> AllNumeralsSafe(call.kind, call.argv))
    && AllMapped(table, PartsOf(Number(Sent(call), 0)))
  }

  lemma {:induction false} MappedWhateverNumbers(table: seq<Option<Node>>, frags: seq<Fragment>, a: nat, b: nat)
    requires |table| == SLOTS
    ensures |PartsOf(Number(frags, a))| == |PartsOf(Number(frags, b))|
    ensures forall i :: 0 <= i < |frags| ==> PartsOf(Number(frags, a))[i].slot == PartsOf(Number(frags, b))[i].slot
    ensures AllMapped(table, PartsOf(Number(frags, a))) ==> AllMapped(table, PartsOf(Number(frags, b)))
  {
    if frags != [] {
      MappedWhateverNumbers(table, frags[1..], a + 1, b + 1);
      var x, y := PartsOf(Number(frags, a)), PartsOf(Number(frags, b));
      var p, q := PartsOf(Number(frags[1..], a + 1)), PartsOf(Number(frags[1..], b + 1));
      assert x == [x[0]] + p && y == [y[0]] + q;
      forall i | 0 <= i < |frags|
        ensures x[i].slot == y[i].slot
      {
        if i > 0 {
          assert x[i] == p[i - 1] && y[i] == q[i - 1];
        }
      }
    }
  }

  lemma SomethingSent(call: Call, base: nat)
    requires MultiKey(call.kind, call.argv)
    ensures Parts(RequestOf(call, base)) == PartsOf(Number(Sent(call), base)) != []
  {
    hide FragmentsFrom, Slot, KeyAt;
    var n := KeyCount(call.kind, call.argv);
    var last := Slot(KeyAt(call.kind, call.argv, n - 1));
    PicksPartition(call.kind, call.argv, last, n);
    assert n - 1 in Picks(call.kind, call.argv, last, n);
    FragmentPerSlot(call.kind, call.argv, 0, last, last);
  }

  /** Formats a command, cuts it by slot and appends it, its requests numbered from `base`. */
  method AppendCommandArgv(context: Context, call: Call, base: nat) returns (ok: bool, next: nat)
    requires context.Valid() && Proper(call) && Fits32(call.argv)
    modifies context
    ensures ok <==> Sendable(context.table, call)
    ensures next == base + |Sent(call)|
    ensures ok ==> context.Valid() && context.returned == old(context.returned)
                   && context.appended == old(context.appended) + [RequestOf(call, base)]
                   && context.Pending() == old(context.Pending()) + [RequestOf(call, base)]
  {
    hide Slot, KeyAt, FragmentsFrom, KindOf, Format, AllNumeralsSafe, AllMapped, ReplyTo, Flatten, Pipeline.InStep;
    MappedWhateverNumbers(context.table, Sent(call), 0, base);
    MappedWhateverNumbers(context.table, Sent(call), base, 0);
    var cmd, cut := CommandFormatBySlot(call.kind, call.argv);
    var request;
    match cut {
      case Overrun => return false, base + |Sent(call)|;
      case OneSlot(slot) => request := Single(Part(slot, base));
      case Many(fragments, fragSeq) =>
        request := Multi(call.kind, PartsOf(Number(fragments, base)), fragSeq);
        assert fragSeq == SlotList(call);
    }
    assert request == RequestOf(call, base);
    SomethingSent(call, base);
    ok := context.AppendFormattedCommand(request);
    next := base + |Sent(call)|;
  }

  // What the user of a context does: appends a command, or asks for a reply.
  datatype Event = Append(call: Call) | Get

  function CallsIn(script: seq<Event>): seq<Call> {
    if script == [] then []
    else (if script[0].Append? then [script[0].call] else []) + CallsIn(script[1..])
  }

  /** How many replies are handed out, with so many commands pending before. */
  function Replies(script: seq<Event>, pending: nat): nat {
    if script == [] then 0
    else if script[0].Append? then Replies(script[1..], pending + 1)
    else if pending == 0 then Replies(script[1..], 0)
    else 1 + Replies(script[1..], pending - 1)
  }

  lemma {:induction false} RepliesFewer(script: seq<Event>, pending: nat)
    ensures Replies(script, pending) <= pending + |CallsIn(script)|
  {
    if script != [] {
      var rest := script[1..];
      if script[0].Append? {
        RepliesFewer(rest, pending + 1);
      } else {
        RepliesFewer(rest, if pending == 0 then 0 else pending - 1);
      }
    }
  }

  /** Appends commands and asks for replies in any order: every reply handed out is that of a single
      server which runs all the commands in turn, whatever beginnings of their buffers the nodes have run,
      as long as they include what has been answered. Commands are refused exactly when they cannot be
      sent. */
  method Pipelined(table: seq<Option<Node>>, answer: nat -> Reply, script: seq<Event>, ghost order: seq<Wire>,
                   ghost whole: Store, ghost stores: seq<Store>)
    returns (ok: bool, replies: seq<Option<Reply>>)
    requires AllProper(CallsIn(script)) && |table| == |stores| == SLOTS && Holds(whole, stores)
    requires forall k :: 0 <= k < |CallsIn(script)| ==> Fits32(CallsIn(script)[k].argv)
    requires RunsInOrder(table, order, Wires(CallsIn(script), 0)) && Answers(answer, order, stores)
    requires forall k :: 0 <= k < Replies(script, 0) && k < |CallsIn(script)| ==>
               AllRun(order, Requests(CallsIn(script), 0)[k])
    ensures ok <==> forall k :: 0 <= k < |CallsIn(script)| ==> Sendable(table, CallsIn(script)[k])
    ensures ok ==> |replies| == Replies(script, 0) <= |CallsIn(script)| == |ServeAll(CallsIn(script), whole).1|
                   && forall k :: 0 <= k < |replies| ==> replies[k] == Some(ServeAll(CallsIn(script), whole).1[k])
  {
    hide Holds, Fits32, RunsInOrder, Answers, ServeAll, Wires, ReplyTo, AllRun;
    ghost var calls := CallsIn(script);
    RepliesFewer(script, 0);
    var context := new Context(table, answer);
    ok, replies := Play(context, script);
    if ok {
      LengthOfAll(calls, whole);
      forall k | 0 <= k < |replies|
        ensures replies[k] == Some(ServeAll(calls, whole).1[k])
      {
        RunningIsWhole(answer, table, calls, 0, order, whole, stores, k);
      }
    }
  }

  lemma {:induction false} LengthOfAll(calls: seq<Call>, whole: Store)
    ensures |ServeAll(calls, whole).1| == |calls|
  {
    hide Serve;
    if calls != [] {
      LengthOfAll(calls[1..], Serve(calls[0].argv, whole).0);
    }
  }

  // What has been appended with the rest of the script to come; the next request gets the number `base`.
  ghost predicate Midway(calls: seq<Call>, rest: seq<Event>, appended: seq<Request>, base: nat)
    requires AllProper(calls)
  {
    && |appended| <= |calls| && calls[|appended|..] == CallsIn(rest)
    && appended + Requests(calls[|appended|..], base) == Requests(calls, 0)
  }

  lemma MidwayStep(calls: seq<Call>, rest: seq<Event>, appended: seq<Request>, base: nat)
    requires AllProper(calls) && rest != [] && Midway(calls, rest, appended, base)
    ensures if rest[0].Append? then
              |appended| < |calls| && calls[|appended|] == rest[0].call && Proper(rest[0].call)
              && Midway(calls, rest[1..], appended + [RequestOf(rest[0].call, base)], base + |Sent(rest[0].call)|)
            else Midway(calls, rest[1..], appended, base)
  {
    hide RequestOf, Sent;
    if rest[0].Append? {
      var n := |appended|;
      assert calls[n..][0] == rest[0].call && calls[n..][1..] == calls[n + 1..] == CallsIn(rest[1..]);
      assert Proper(calls[n]);
    }
  }

  method Play(context: Context, script: seq<Event>) returns (ok: bool, replies: seq<Option<Reply>>)
    requires context.Valid() && context.returned == [] && context.appended == [] && AllProper(CallsIn(script))
    requires forall k :: 0 <= k < |CallsIn(script)| ==> Fits32(CallsIn(script)[k].argv)
    modifies context
    ensures ok <==> forall k :: 0 <= k < |CallsIn(script)| ==> Sendable(context.table, CallsIn(script)[k])
    ensures ok ==> |replies| == Replies(script, 0) <= |CallsIn(script)|
                   && forall k :: 0 <= k < |replies| ==>
                        replies[k] == ReplyTo(Requests(CallsIn(script), 0)[k], context.answer)
  {
    hide Sendable, Fits32, RequestOf, Sent, ReplyTo, Covers, Pipeline.InStep, Flatten, Midway, Requests, Proper,
      CallsIn;
    ghost var calls := CallsIn(script);
    var pending: nat, base: nat := 0, 0;
    replies := [];
    RepliesFewer(script, 0);
    MidwayEnds(calls, script, context.appended);
    assert script[0..] == script;
    for i := 0 to |script|
      invariant context.Valid() && context.returned == replies && |context.Pending()| == pending
      invariant Midway(calls, script[i..], context.appended, base)
      invariant |replies| + Replies(script[i..], pending) == Replies(script, 0)
      invariant forall k :: 0 <= k < |context.appended| && k < |calls| ==> Sendable(context.table, calls[k])
    {
      assert script[i..][0] == script[i] && script[i..][1..] == script[i + 1..];
      MidwayStep(calls, script[i..], context.appended, base);
      match script[i] {
        case Append(call) =>
          ok, base := AppendCommandArgv(context, call, base);
          if !ok {
            return;
          }
          pending := pending + 1;
        case Get =>
          var got, reply := context.GetReply();
          if pending > 0 {
            pending, replies := pending - 1, replies + [reply];
          }
      }
    }
    MidwayEnds(calls, [], context.appended);
    ok := true;
  }

  lemma MidwayEnds(calls: seq<Call>, rest: seq<Event>, appended: seq<Request>)
    requires AllProper(calls)
    ensures appended == [] && calls == CallsIn(rest) ==> Midway(calls, rest, appended, 0)
    ensures forall base :: Midway(calls, [], appended, base) ==> appended == Requests(calls, 0)
  {
    assert calls[0..] == calls;
    forall base: nat | Midway(calls, [], appended, base)
      ensures appended == Requests(calls, 0)
    {
      assert calls[|appended|..] == [];
    }
  }
}
