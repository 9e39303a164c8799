// Pipelined commands over several connections: replies are matched to commands by the order in which
// each node was sent its share.

module Pipeline {
  import opened Bytes
  import opened Resp
  import opened KeySlot
  import opened Fragments
  import opened Gather

  type Node = nat

  // One request on the wire: the slot it is sent to and its identity.
  datatype Part = Part(slot: SlotNo, id: nat)

  // An appended command: a single request, or the fragments of a multi-key command with the slot of
  // each of its keys.
  datatype Request = Single(part: Part) | Multi(kind: Kind, parts: seq<Part>, fragSeq: seq<nat>)

  function Parts(r: Request): seq<Part> { if r.Single? then [r.part] else r.parts }

  function Flatten(rs: seq<Request>): seq<Part> {
    if rs == [] then [] else Parts(rs[0]) + Flatten(rs[1..])
  }

  lemma {:induction false} FlattenAppend(rs: seq<Request>, r: Request)
    ensures Flatten(rs + [r]) == Flatten(rs) + Parts(r)
  {
    if rs == [] {
      assert [r][1..] == [];
      assert rs + [r] == [r];
    } else {
      FlattenAppend(rs[1..], r);
      assert (rs + [r])[1..] == rs[1..] + [r];
      ConcatTwice(Parts(rs[0]), Flatten(rs[1..]), Parts(r));
    }
  }

  /** The identities of the requests that go to a node, in order. */
  function Project(table: seq<Option<Node>>, parts: seq<Part>, node: Node): seq<nat>
    requires |table| == SLOTS
  {
    if parts == [] then []
    else (if table[parts[0].slot] == Some(node) then [parts[0].id] else []) + Project(table, parts[1..], node)
  }

  lemma {:induction false} ProjectAppend(table: seq<Option<Node>>, a: seq<Part>, b: seq<Part>, node: Node)
    requires |table| == SLOTS
    ensures Project(table, a + b, node) == Project(table, a, node) + Project(table, b, node)
  {
    if a == [] {
      assert a + b == b;
    } else {
      ProjectAppend(table, a[1..], b, node);
      assert (a + b)[1..] == a[1..] + b && (a + b)[0] == a[0];
      var head := if table[a[0].slot] == Some(node) then [a[0].id] else [];
      var x, y := Project(table, a[1..], node), Project(table, b, node);
      assert head + (x + y) == head + x + y;
    }
  }

  // The outstanding requests of a node; a connection that was never used has none.
  function Queue(queues: map<Node, seq<nat>>, node: Node): seq<nat> {
    if node in queues then queues[node] else []
  }

  // Every node owes exactly the replies to its share of the given requests, in their order.
  ghost predicate InStep(table: seq<Option<Node>>, queues: map<Node, seq<nat>>, parts: seq<Part>)
    requires |table| == SLOTS
  {
    forall node :: Queue(queues, node) == Project(table, parts, node)
  }

  /** How many of the parts come before the first whose slot has no node. */
  function Mapped(table: seq<Option<Node>>, parts: seq<Part>): (n: nat)
    requires |table| == SLOTS
    ensures n <= |parts| && AllMapped(table, parts[..n]) && (n < |parts| ==> table[parts[n].slot] == None)
  {
    if parts == [] || table[parts[0].slot] == None then 0
    else
      var n := Mapped(table, parts[1..]);
      assert parts[..n + 1] == [parts[0]] + parts[1..][..n];
      1 + n
  }

  predicate AllMapped(table: seq<Option<Node>>, parts: seq<Part>)
    requires |table| == SLOTS
  {
    forall i :: 0 <= i < |parts| ==> table[parts[i].slot].Some?
  }

  /** What a request's own reply is, given what each part is answered with. */
  function ReplyTo(r: Request, answer: nat -> Reply): Option<Reply> {
    match r
    case Single(part) => Some(answer(part.id))
    case Multi(kind, parts, fragSeq) => Merged(kind, SubRepliesOf(parts, answer), fragSeq)
  }

  function SubRepliesOf(parts: seq<Part>, answer: nat -> Reply): (r: seq<SubReply>)
    ensures |r| == |parts|
  {
    seq(|parts|, i requires 0 <= i < |parts| => SubReply(parts[i].slot, Some(answer(parts[i].id))))
  }

  // Sending the parts puts each behind what its node owes already.
  ghost predicate Sends(table: seq<Option<Node>>, before: map<Node, seq<nat>>, parts: seq<Part>,
                        after: map<Node, seq<nat>>)
    requires |table| == SLOTS
  {
    forall node :: Queue(after, node) == Queue(before, node) + Project(table, parts, node)
  }

  lemma SendsNothing(table: seq<Option<Node>>, queues: map<Node, seq<nat>>)
    requires |table| == SLOTS
    ensures Sends(table, queues, [], queues)
  {
  }

  lemma SendsOneMore(table: seq<Option<Node>>, before: map<Node, seq<nat>>, parts: seq<Part>,
                     after: map<Node, seq<nat>>, part: Part)
    requires |table| == SLOTS && Sends(table, before, parts, after) && table[part.slot].Some?
    ensures var n := table[part.slot].value;
            Sends(table, before, parts + [part], after[n := Queue(after, n) + [part.id]])
  {
    var n := table[part.slot].value;
    forall node
      ensures Queue(after[n := Queue(after, n) + [part.id]], node)
           == Queue(before, node) + Project(table, parts + [part], node)
    {
      assert Queue(after, node) == Queue(before, node) + Project(table, parts, node);
      ProjectAppend(table, parts, [part], node);
      assert [part][1..] == [];
    }
  }

  lemma SendsInStep(table: seq<Option<Node>>, before: map<Node, seq<nat>>, pending: seq<Part>, parts: seq<Part>,
                    after: map<Node, seq<nat>>)
    requires |table| == SLOTS && InStep(table, before, pending) && Sends(table, before, parts, after)
    ensures InStep(table, after, pending + parts)
  {
    forall node
      ensures Queue(after, node) == Project(table, pending + parts, node)
    {
      ProjectAppend(table, pending, parts, node);
      assert Queue(before, node) == Project(table, pending, node);
    }
  }

  /** How many replies a node owes beyond its share of the pending requests. */
  function SurplusOf(table: seq<Option<Node>>, queues: map<Node, seq<nat>>, pending: seq<Part>, node: Node): int
    requires |table| == SLOTS
  {
    |Queue(queues, node)| - |Project(table, pending, node)|
  }

  // There is a reply to come for every pending request, if not always its own.
  ghost predicate Covers(table: seq<Option<Node>>, queues: map<Node, seq<nat>>, pending: seq<Part>)
    requires |table| == SLOTS
  {
    AllMapped(table, pending) && forall node :: SurplusOf(table, queues, pending, node) >= 0
  }

  /** What sending does to the surplus: the parts that become pending do not add to it, others do. */
  lemma SendsSurplus(table: seq<Option<Node>>, before: map<Node, seq<nat>>, pending: seq<Part>, parts: seq<Part>,
                    after: map<Node, seq<nat>>, node: Node)
    requires |table| == SLOTS && Sends(table, before, parts, after)
    ensures SurplusOf(table, after, pending + parts, node) == SurplusOf(table, before, pending, node)
    ensures SurplusOf(table, after, pending, node)
         == SurplusOf(table, before, pending, node) + |Project(table, parts, node)|
  {
    ProjectAppend(table, pending, parts, node);
    assert Queue(after, node) == Queue(before, node) + Project(table, parts, node);
  }

  // The connections once the next reply was taken off the one of a slot's node.
  function Taken(table: seq<Option<Node>>, queues: map<Node, seq<nat>>, part: Part): map<Node, seq<nat>>
    requires |table| == SLOTS && table[part.slot].Some? && Queue(queues, table[part.slot].value) != []
  {
    var n := table[part.slot].value;
    queues[n := Queue(queues, n)[1..]]
  }

  lemma TakeOne(table: seq<Option<Node>>, queues: map<Node, seq<nat>>, part: Part, rest: seq<Part>)
    requires |table| == SLOTS && Covers(table, queues, [part] + rest)
    ensures table[part.slot].Some? && Queue(queues, table[part.slot].value) != []
    ensures Covers(table, Taken(table, queues, part), rest)
    ensures forall node :: SurplusOf(table, Taken(table, queues, part), rest, node)
                        == SurplusOf(table, queues, [part] + rest, node)
  {
    var all := [part] + rest;
    assert all[0] == part && all[1..] == rest;
    MappedSplits(table, [part], rest);
    assert [part][0] == part;
    var n := table[part.slot].value;
    assert SurplusOf(table, queues, all, n) >= 0;
    forall node
      ensures SurplusOf(table, Taken(table, queues, part), rest, node) == SurplusOf(table, queues, all, node) >= 0
    {
      assert SurplusOf(table, queues, all, node) >= 0;
    }
  }

  lemma TakeInStep(table: seq<Option<Node>>, queues: map<Node, seq<nat>>, part: Part, rest: seq<Part>)
    requires |table| == SLOTS && InStep(table, queues, [part] + rest) && table[part.slot].Some?
    ensures var n := table[part.slot].value;
            Queue(queues, n) != [] && Queue(queues, n)[0] == part.id
            && InStep(table, Taken(table, queues, part), rest)
  {
    var n := table[part.slot].value;
    assert ([part] + rest)[1..] == rest;
    assert Queue(queues, n) == Project(table, [part] + rest, n);
    forall node
      ensures Queue(Taken(table, queues, part), node) == Project(table, rest, node)
    {
      assert Queue(queues, node) == Project(table, [part] + rest, node);
    }
  }

  /** Taking one reply per part: what is left, and what each part gets, its own reply or not. */
  ghost function Take(table: seq<Option<Node>>, queues: map<Node, seq<nat>>, parts: seq<Part>, answer: nat -> Reply)
    : (r: (map<Node, seq<nat>>, seq<SubReply>))
    requires |table| == SLOTS && Covers(table, queues, parts)
    ensures |r.1| == |parts|
    decreases |parts|
  {
    if parts == [] then (queues, []) else
    assert [parts[0]] + parts[1..] == parts;
    TakeOne(table, queues, parts[0], parts[1..]);
    var (after, subs) := Take(table, Taken(table, queues, parts[0]), parts[1..], answer);
    (after, [SubReply(parts[0].slot, Some(answer(Queue(queues, table[parts[0].slot].value)[0])))] + subs)
  }

  lemma CoversFront(table: seq<Option<Node>>, queues: map<Node, seq<nat>>, parts: seq<Part>, later: seq<Part>)
    requires |table| == SLOTS && Covers(table, queues, parts + later)
    ensures Covers(table, queues, parts)
  {
    MappedSplits(table, parts, later);
    forall node
      ensures SurplusOf(table, queues, parts, node) >= 0
    {
      ProjectAppend(table, parts, later, node);
      assert SurplusOf(table, queues, parts + later, node) >= 0;
    }
  }

  /** Taking the replies of the first parts leaves the surplus of every node as it was. */
  lemma {:induction false} TakeKeeps(table: seq<Option<Node>>, queues: map<Node, seq<nat>>, parts: seq<Part>,
                                     later: seq<Part>, answer: nat -> Reply)
    requires |table| == SLOTS && Covers(table, queues, parts + later)
    ensures Covers(table, queues, parts)
    ensures var after := Take(table, queues, parts, answer).0;
            && Covers(table, after, later)
            && forall node :: SurplusOf(table, after, later, node) == SurplusOf(table, queues, parts + later, node)
    decreases |parts|
  {
    CoversFront(table, queues, parts, later);
    if parts == [] {
      assert parts + later == later;
    } else {
      var part, rest := parts[0], parts[1..];
      assert [part] + rest == parts && [part] + (rest + later) == parts + later;
      TakeOne(table, queues, part, rest + later);
      TakeKeeps(table, Taken(table, queues, part), rest, later, answer);
    }
  }

  /** While nodes and pending requests are in step, every part gets its own reply. */
  lemma {:induction false} TakeOwn(table: seq<Option<Node>>, queues: map<Node, seq<nat>>, parts: seq<Part>,
                                   later: seq<Part>, answer: nat -> Reply)
    requires |table| == SLOTS && InStep(table, queues, parts + later) && Covers(table, queues, parts)
    ensures Take(table, queues, parts, answer).1 == SubRepliesOf(parts, answer)
    ensures InStep(table, Take(table, queues, parts, answer).0, later)
    decreases |parts|
  {
    hide InStep, Covers, Project, Queue;
    if parts == [] {
      assert parts + later == later;
    } else {
      var part, rest := parts[0], parts[1..];
      assert [part] + rest == parts && [part] + (rest + later) == parts + later;
      TakeOne(table, queues, part, rest);
      TakeInStep(table, queues, part, rest + later);
      TakeOwn(table, Taken(table, queues, part), rest, later, answer);
      assert SubRepliesOf(parts, answer) == [SubReply(part.slot, Some(answer(part.id)))] + SubRepliesOf(rest, answer);
    }
  }

  /** The reply a request gets from what its nodes have to send, its own or not. */
  ghost function Drawn(table: seq<Option<Node>>, queues: map<Node, seq<nat>>, r: Request, answer: nat -> Reply)
    : Option<Reply>
    requires |table| == SLOTS && Covers(table, queues, Parts(r))
  {
    var subs := Take(table, queues, Parts(r), answer).1;
    match r
    case Single(part) => subs[0].reply
    case Multi(kind, parts, fragSeq) => Merged(kind, subs, fragSeq)
  }

  lemma DrawnOwn(table: seq<Option<Node>>, queues: map<Node, seq<nat>>, r: Request, later: seq<Part>,
                 answer: nat -> Reply)
    requires |table| == SLOTS && InStep(table, queues, Parts(r) + later) && Covers(table, queues, Parts(r))
    ensures Drawn(table, queues, r, answer) == ReplyTo(r, answer)
    ensures InStep(table, Take(table, queues, Parts(r), answer).0, later)
  {
    TakeOwn(table, queues, Parts(r), later, answer);
  }

  /** The reply of a command of which a fragment failed is the failure of the first that did. */
  lemma FragmentFails(r: Request, answer: nat -> Reply)
    ensures r.Multi? ==>
              forall k :: FirstUnusable(r.kind, SubRepliesOf(r.parts, answer), k) ==>
                ReplyTo(r, answer) == Failure(Some(answer(r.parts[k].id)))
  {
    if r.Multi? {
      FailsFirst(r.kind, SubRepliesOf(r.parts, answer), r.fragSeq);
    }
  }

  // Whether a reply cannot be merged when all the pending requests are answered one after the other.
  ghost predicate DrainFails(table: seq<Option<Node>>, queues: map<Node, seq<nat>>, rs: seq<Request>,
                             answer: nat -> Reply)
    requires |table| == SLOTS && Covers(table, queues, Flatten(rs))
    decreases |rs|
  {
    rs != [] &&
    (TakeKeeps(table, queues, Parts(rs[0]), Flatten(rs[1..]), answer);
     Drawn(table, queues, rs[0], answer) == None
     || DrainFails(table, Take(table, queues, Parts(rs[0]), answer).0, rs[1..], answer))
  }

  // What the nodes owe once all the pending requests are answered one after the other.
  ghost function Drain(table: seq<Option<Node>>, queues: map<Node, seq<nat>>, rs: seq<Request>, answer: nat -> Reply)
    : map<Node, seq<nat>>
    requires |table| == SLOTS && Covers(table, queues, Flatten(rs))
    decreases |rs|
  {
    if rs == [] then queues else
    TakeKeeps(table, queues, Parts(rs[0]), Flatten(rs[1..]), answer);
    Drain(table, Take(table, queues, Parts(rs[0]), answer).0, rs[1..], answer)
  }

  // The commands returned so far and the pending ones are those appended.
  ghost predicate Tallies(appended: seq<Request>, returned: seq<Option<Reply>>, pending: seq<Request>) {
    |returned| + |pending| == |appended| && appended[|returned|..] == pending
  }

  // Every reply is the one of its command.
  ghost predicate Answered(appended: seq<Request>, returned: seq<Option<Reply>>, answer: nat -> Reply) {
    |returned| <= |appended| && forall k :: 0 <= k < |returned| ==> returned[k] == ReplyTo(appended[k], answer)
  }

  lemma OneMore(appended: seq<Request>, returned: seq<Option<Reply>>, pending: seq<Request>, r: Request,
                answer: nat -> Reply)
    requires Tallies(appended, returned, pending)
    ensures Tallies(appended + [r], returned, pending + [r])
    ensures Answered(appended, returned, answer) ==> Answered(appended + [r], returned, answer)
  {
    assert (appended + [r])[|returned|..] == appended[|returned|..] + [r];
  }

  lemma OneReturned(appended: seq<Request>, returned: seq<Option<Reply>>, pending: seq<Request>,
                    reply: Option<Reply>, answer: nat -> Reply)
    requires Tallies(appended, returned, pending) && pending != []
    ensures |returned| < |appended| && pending[0] == appended[|returned|]
    ensures Tallies(appended, returned + [reply], pending[1..])
    ensures Answered(appended, returned, answer) && reply == ReplyTo(pending[0], answer) ==>
              Answered(appended, returned + [reply], answer)
  {
    hide ReplyTo;
    assert appended[|returned| + 1..] == appended[|returned|..][1..];
  }

  // A cluster context used for pipelining. The route does not change and connections do not fail;
  // each node answers its requests in order, request `id` with `answer(id)`.
  class Context {
    const table: seq<Option<Node>>
    const answer: nat -> Reply
    var err: bool
    var requests: Option<seq<Request>>
    var queues: map<Node, seq<nat>>
    ghost var appended: seq<Request>         // since the last reset
    ghost var returned: seq<Option<Reply>>

    ghost function Pending(): seq<Request>
      reads this
    {
      if requests == None then [] else requests.value
    }

    // How many replies a node owes beyond its share of the pending commands.
    ghost function Surplus(node: Node): int
      requires |table| == SLOTS
      reads this
    {
      SurplusOf(table, queues, Flatten(Pending()), node)
    }

    /** The commands returned and the pending ones are those appended, and there is a reply to come for
        every pending one. All operations keep this. */
    ghost predicate Covered()
      reads this
    {
      && |table| == SLOTS
      && Tallies(appended, returned, Pending())
      && Covers(table, queues, Flatten(Pending()))
    }

    /** The replies returned so far answer the commands appended first, one by one and in order; each
        node owes exactly its share of the remaining ones. */
    ghost predicate Valid()
      reads this
    {
      && Covered()
      && Answered(appended, returned, answer)
      && InStep(table, queues, Flatten(Pending()))
    }

    // What the nodes have to send for the oldest pending command, and what they owe after that.
    ghost function Next(): (map<Node, seq<nat>>, Option<Reply>)
      requires Covered() && Pending() != []
      reads this
    {
      var r := Pending()[0];
      CoversFront(table, queues, Parts(r), Flatten(Pending()[1..]));
      (Take(table, queues, Parts(r), answer).0, Drawn(table, queues, r, answer))
    }

    // What the nodes owe once the pending commands have been answered.
    ghost function Drained(): map<Node, seq<nat>>
      requires Covered()
      reads this
    {
      Drain(table, queues, Pending(), answer)
    }

    // A reset closes the connections: an error is noted, nothing was ever appended, or a reply cannot be
    // merged while the pending commands are drained.
    ghost predicate Closes()
      requires Covered()
      reads this
    {
      err || requests == None || DrainFails(table, queues, Pending(), answer)
    }

    constructor (table: seq<Option<Node>>, answer: nat -> Reply)
      requires |table| == SLOTS
      ensures Valid() && this.table == table && this.answer == answer && appended == []
      ensures requests == None && queues == map[] && !err
    {
      this.table, this.answer := table, answer;
      err, requests, queues, appended, returned := false, None, map[], [], [];
    }

    /** Puts one request into the output buffer of its slot's node. */
    method AppendCommand(part: Part) returns (ok: bool)
      requires |table| == SLOTS
      modifies this`queues, this`err
      ensures ok <==> table[part.slot].Some?
      ensures ok ==> err == old(err)
                     && queues == old(queues)[table[part.slot].value := Queue(old(queues),
                       table[part.slot].value) + [part.id]]
      ensures !ok ==> err && queues == old(queues)
    {
      var node := table[part.slot];
      if node == None {
        err := true;
        return false;
      }
      queues := queues[node.value := Queue(queues, node.value) + [part.id]];
      return true;
    }

    /** Sends the parts to their nodes up to the first that has none. */
    method AppendParts(parts: seq<Part>) returns (ok: bool)
      requires |table| == SLOTS
      modifies this`queues, this`err
      ensures ok <==> AllMapped(table, parts)
      ensures ok ==> err == old(err) && Mapped(table, parts) == |parts|
      ensures !ok ==> err && Mapped(table, parts) < |parts|
      ensures Sends(table, old(queues), parts[..Mapped(table, parts)], queues)
    {
      hide Queue, Project, Sends, Mapped;
      ghost var before := queues;
      SendsNothing(table, queues);
      assert parts[..0] == [];
      for i := 0 to |parts|
        invariant AllMapped(table, parts[..i]) && Sends(table, before, parts[..i], queues) && err == old(err)
      {
        assert parts[..i + 1] == parts[..i] + [parts[i]];
        if table[parts[i].slot].Some? {
          SendsOneMore(table, before, parts[..i], queues, parts[i]);
        }
        ok := AppendCommand(parts[i]);
        if !ok {
          MappedIs(table, parts, i);
          return false;
        }
      }
      assert parts[..|parts|] == parts;
      MappedIs(table, parts, |parts|);
      return true;
    }

    /** Appends a command, fragment by fragment. When a fragment has no node the command is dropped,
        but the fragments before it stay with their nodes: each adds to its node's surplus, and the
        replies are out of step from then on, unless it was the first fragment that failed. */
    method AppendFormattedCommand(r: Request) returns (ok: bool)
      requires Covered() && Parts(r) != []
      modifies this
      ensures Covered() && requests.Some?
      ensures ok <==> AllMapped(table, Parts(r))
      ensures appended == (if ok then old(appended) + [r] else old(appended)) && returned == old(returned)
      ensures Pending() == if ok then old(Pending()) + [r] else old(Pending())
      ensures ok ==> err == old(err)
      ensures !ok ==> err
      ensures Sends(table, old(queues), Parts(r)[..Mapped(table, Parts(r))], queues)
      ensures forall node :: Surplus(node) == old(Surplus(node))
                + if ok then 0 else |Project(table, Parts(r)[..Mapped(table, Parts(r))], node)|
      ensures old(Valid()) ==> (Valid() <==> ok || table[Parts(r)[0].slot] == None)
    {
      hide Queue, Project, Covers, InStep, Sends, SurplusOf, Tallies, Answered, Mapped, AllMapped, Flatten;
      if requests == None {
        requests := Some([]);
      }
      var parts := Parts(r);
      ghost var before, was := Flatten(requests.value), queues;
      ok := AppendParts(parts);
      ghost var n := Mapped(table, parts);
      Grown(table, was, before, parts, queues);
      if InStep(table, was, before) {
        GrownInStep(table, was, before, parts, queues);
      }
      if ok {
        assert parts[..n] == parts;
        FlattenAppend(requests.value, r);
        OneMore(appended, returned, requests.value, r, answer);
        requests := Some(requests.value + [r]);
        appended := appended + [r];
      }
    }

    /** Takes the next reply off the connection of a slot's node. */
    method ReadReply(part: Part) returns (reply: Reply)
      requires |table| == SLOTS && table[part.slot].Some? && Queue(queues, table[part.slot].value) != []
      modifies this`queues
      ensures queues == Taken(table, old(queues), part)
      ensures reply == answer(Queue(old(queues), table[part.slot].value)[0])
    {
      var node := table[part.slot].value;
      var queue := Queue(queues, node);
      queues := queues[node := queue[1..]];
      return answer(queue[0]);
    }

    /** One reply per fragment, in list order. */
    method ReadReplies(parts: seq<Part>) returns (subs: seq<SubReply>)
      requires |table| == SLOTS && Covers(table, queues, parts)
      modifies this`queues
      ensures (queues, subs) == Take(table, old(queues), parts, answer)
    {
      hide Covers, Queue, SubRepliesOf;
      subs := [];
      ghost var was := queues;
      assert parts[0..] == parts;
      for i := 0 to |parts|
        invariant Covers(table, queues, parts[i..])
        invariant Take(table, queues, parts[i..], answer).0 == Take(table, was, parts, answer).0
        invariant subs + Take(table, queues, parts[i..], answer).1 == Take(table, was, parts, answer).1
      {
        assert parts[i..] == [parts[i]] + parts[i + 1..] && parts[i..][1..] == parts[i + 1..];
        TakeOne(table, queues, parts[i], parts[i + 1..]);
        var sub := ReadReply(parts[i]);
        subs := subs + [SubReply(parts[i].slot, Some(sub))];
      }
      assert parts[|parts|..] == [] && subs + [] == subs;
    }

    // The reply of one command, merged when it has fragments.
    method ReadRequest(r: Request) returns (reply: Option<Reply>)
      requires |table| == SLOTS && Covers(table, queues, Parts(r))
      modifies this`queues
      ensures queues == Take(table, old(queues), Parts(r), answer).0
      ensures reply == Drawn(table, old(queues), r, answer)
    {
      hide Project, Covers, SurplusOf, Merged, AllMapped;
      match r {
        case Single(part) =>
          assert Parts(r) == [part] + [];
          TakeOne(table, queues, part, []);
          var got := ReadReply(part);
          reply := Some(got);
        case Multi(kind, parts, fragSeq) =>
          var subs := ReadReplies(parts);
          reply := CommandPostFragment(kind, subs, fragSeq);
      }
    }

    /** Returns a reply for the oldest pending command: for a multi-key command the fragments' replies
        are read in list order and merged. The reply is that command's own while nodes and commands are
        in step; in any case no node's surplus changes. No reply and no error means that nothing is
        pending. */
    method GetReply() returns (ok: bool, reply: Option<Reply>)
      requires Covered()
      modifies this
      ensures Covered() && appended == old(appended)
      ensures forall node :: Surplus(node) == old(Surplus(node))
      ensures err <==> old(Pending()) != [] && reply == None
      ensures old(requests) == None ==> !ok && reply == None && returned == old(returned) && requests == None
      ensures old(requests) == Some([]) ==> ok && reply == None && returned == old(returned) && requests == Some([])
      ensures old(Pending()) == [] ==> queues == old(queues)
      ensures old(Pending()) != [] ==>
                && old(Pending())[0] == appended[|old(returned)|] && returned == old(returned) + [reply]
                && (queues, reply) == old(Next()) && (ok <==> reply.Some?)
                && requests == Some(old(Pending())[1..])
      ensures old(Valid()) ==> Valid()
      ensures old(Valid()) && old(Pending()) != [] ==> reply == ReplyTo(old(Pending())[0], answer)
      ensures old(Valid()) && old(Pending()) != [] && old(Pending())[0].Multi? ==>
                var r := old(Pending())[0];
                forall k :: FirstUnusable(r.kind, SubRepliesOf(r.parts, answer), k) ==>
                  var failed := answer(r.parts[k].id);
                  reply == if failed.Error? then Some(failed) else None
    {
      hide Queue, Project, Covers, InStep, SurplusOf, ReplyTo, Take, Drawn, Tallies, Answered;
      err := false;
      if requests == None {
        return false, None;
      }
      if |requests.value| == 0 {
        return true, None;
      }
      var r, rest := requests.value[0], requests.value[1..];
      ghost var later := Flatten(rest);
      TakeKeeps(table, queues, Parts(r), later, answer);
      if InStep(table, queues, Flatten(requests.value)) {
        DrawnOwn(table, queues, r, later, answer);
      }
      FragmentFails(r, answer);
      reply := ReadRequest(r);
      OneReturned(appended, returned, requests.value, reply, answer);
      requests := Some(rest);
      returned := returned + [reply];
      ok := reply.Some?;
      err := !ok;
    }

    /** Closes every connection: whatever was outstanding is gone. */
    method ClearAll()
      modifies this`queues, this`err
      ensures queues == map[] && !err
    {
      queues, err := map[], false;
    }

    /** Closes the connections when an error is noted, and otherwise reads the replies of the pending
        commands. What a node owes beyond them stays, unless the connections are closed. */
    method Reset()
      requires Covered()
      modifies this
      ensures Covered() && requests == None && appended == []
      ensures queues == if old(Closes()) then map[] else old(Drained())
      ensures forall node :: |Queue(queues, node)| == if old(Closes()) then 0 else old(Surplus(node))
      ensures (forall node :: Queue(queues, node) == []) <==> old(Closes()) || forall node :: old(Surplus(node)) == 0
      ensures Valid() <==> forall node :: Queue(queues, node) == []
    {
      ghost var closed, drained := Closes(), Drained();
      if err {
        ClearAll();
      } else {
        var more := true;
        while more
          invariant Covered() && !err && (more ==> closed == Closes() && drained == Drained())
          invariant more || !closed ==> forall node :: Surplus(node) == old(Surplus(node))
          invariant !more ==> queues == (if closed then map[] else drained) && (closed || Pending() == [])
          decreases more, |Pending()|
        {
          var ok, reply := GetReply();
          if !ok {
            ClearAll();
            break;
          }
          more := reply != None;
        }
      }
      requests, appended, returned := None, [], [];
    }
  }

  /** A reset does not repair what a failed append has left behind once a get-reply has cleared the error:
      the node of the first fragment still owes its reply. */
  method LeftBehind(table: seq<Option<Node>>, answer: nat -> Reply, kind: Kind, a: SlotNo, b: SlotNo)
    returns (context: Context)
    requires |table| == SLOTS && table[a].Some? && table[b] == None
    ensures fresh(context) && context.Covered() && context.table == table && context.answer == answer
    ensures context.requests == None && Queue(context.queues, table[a].value) == [0]
  {
    hide Covers, SurplusOf, Drawn, InStep, Flatten;
    var node, parts := table[a].value, [Part(a, 0), Part(b, 1)];
    OneMapped(table, parts);
    context := new Context(table, answer);
    var done := context.AppendFormattedCommand(Multi(kind, parts, [a, b]));
    assert Queue(context.queues, node) == [0];
    var ok, nothing := context.GetReply();
    assert !context.err && context.requests == Some([]);
    context.Reset();
  }

  /** The next command on that node gets the reply of the abandoned fragment. */
  method StaleReply(table: seq<Option<Node>>, answer: nat -> Reply, kind: Kind, a: SlotNo, b: SlotNo)
    returns (reply: Option<Reply>)
    requires |table| == SLOTS && table[a].Some? && table[b] == None
    ensures reply == Some(answer(0))
  {
    hide Covers, SurplusOf, Drawn, InStep, DrainFails;
    var context := LeftBehind(table, answer, kind, a, b);
    var part := Part(a, 2);
    OneMapped(table, [part]);
    var done := context.AppendFormattedCommand(Single(part));
    assert Queue(context.queues, table[a].value) == [0] + [2];
    DrawnAlone(table, context.queues, part, answer);
    assert context.Next().1 == Some(answer(0));
    var ok;
    ok, reply := context.GetReply();
  }

  lemma DrawnAlone(table: seq<Option<Node>>, queues: map<Node, seq<nat>>, part: Part, answer: nat -> Reply)
    requires |table| == SLOTS && Covers(table, queues, Flatten([Single(part)])) && table[part.slot].Some?
    ensures Covers(table, queues, [part]) && Queue(queues, table[part.slot].value) != []
    ensures Drawn(table, queues, Single(part), answer) == Some(answer(Queue(queues, table[part.slot].value)[0]))
  {
    assert Flatten([Single(part)]) == [part] + Flatten([]) == [part];
    assert [part] == [part] + [];
    TakeOne(table, queues, part, []);
  }

  lemma OneMapped(table: seq<Option<Node>>, parts: seq<Part>)
    requires |table| == SLOTS && parts != [] && table[parts[0].slot].Some?
    requires |parts| > 1 ==> table[parts[1].slot] == None
    ensures Mapped(table, parts) == 1
    ensures Project(table, parts[..1], table[parts[0].slot].value) == [parts[0].id]
  {
    MappedIs(table, parts, 1);
    assert parts[..1][1..] == [];
  }

  // What sending up to the first part without a node does, for every node.
  ghost predicate Grew(table: seq<Option<Node>>, before: map<Node, seq<nat>>, pending: seq<Part>, parts: seq<Part>,
                       after: map<Node, seq<nat>>)
    requires |table| == SLOTS
  {
    var sent := parts[..Mapped(table, parts)];
    && Covers(table, after, pending)
    && (forall node ::
          SurplusOf(table, after, pending, node)
            == SurplusOf(table, before, pending, node) + |Project(table, sent, node)|)
    && Covers(table, after, pending + sent)
    && (forall node :: SurplusOf(table, after, pending + sent, node) == SurplusOf(table, before, pending, node))
  }

  lemma Grown(table: seq<Option<Node>>, before: map<Node, seq<nat>>, pending: seq<Part>, parts: seq<Part>,
              after: map<Node, seq<nat>>)
    requires |table| == SLOTS && Covers(table, before, pending)
    requires Sends(table, before, parts[..Mapped(table, parts)], after)
    ensures Grew(table, before, pending, parts, after)
  {
    hide Project, Mapped, Queue, Sends;
    var sent := parts[..Mapped(table, parts)];
    forall node
      ensures SurplusOf(table, after, pending, node)
           == SurplusOf(table, before, pending, node) + |Project(table, sent, node)|
      ensures SurplusOf(table, after, pending + sent, node) == SurplusOf(table, before, pending, node)
      ensures SurplusOf(table, before, pending, node) >= 0
    {
      hide SurplusOf;
      SendsSurplus(table, before, pending, sent, after, node);
    }
  }

  /** Whether sending leaves nodes and pending requests in step. */
  lemma GrownInStep(table: seq<Option<Node>>, before: map<Node, seq<nat>>, pending: seq<Part>, parts: seq<Part>,
                    after: map<Node, seq<nat>>)
    requires |table| == SLOTS && InStep(table, before, pending) && parts != []
    requires Sends(table, before, parts[..Mapped(table, parts)], after)
    ensures InStep(table, after, pending + parts[..Mapped(table, parts)])
    ensures !AllMapped(table, parts) ==> (InStep(table, after, pending) <==> table[parts[0].slot] == None)
  {
    var n := Mapped(table, parts);
    SendsInStep(table, before, pending, parts[..n], after);
    if n > 0 {
      OutOfStep(table, after, pending, parts[..n]);
    } else {
      assert pending + parts[..0] == pending;
    }
  }

  lemma {:induction false} MappedIs(table: seq<Option<Node>>, parts: seq<Part>, n: nat)
    requires |table| == SLOTS && n <= |parts| && AllMapped(table, parts[..n])
    requires n < |parts| ==> table[parts[n].slot] == None
    ensures Mapped(table, parts) == n
  {
    if n > 0 {
      assert table[parts[..n][0].slot].Some?;
      assert parts[1..][..n - 1] == parts[..n][1..];
      MappedIs(table, parts[1..], n - 1);
    }
  }

  lemma MappedSplits(table: seq<Option<Node>>, a: seq<Part>, b: seq<Part>)
    requires |table| == SLOTS && AllMapped(table, a + b)
    ensures AllMapped(table, a) && AllMapped(table, b)
  {
    forall i | 0 <= i < |b|
      ensures table[b[i].slot].Some?
    {
      assert (a + b)[|a| + i] == b[i];
    }
    forall i | 0 <= i < |a|
      ensures table[a[i].slot].Some?
    {
      assert (a + b)[i] == a[i];
    }
  }

  /** Fragments left behind at their nodes leave some node with a reply too many. */
  lemma OutOfStep(table: seq<Option<Node>>, queues: map<Node, seq<nat>>, before: seq<Part>, extra: seq<Part>)
    requires |table| == SLOTS && extra != [] && AllMapped(table, extra)
    requires InStep(table, queues, before + extra)
    ensures !InStep(table, queues, before)
  {
    var node := table[extra[0].slot].value;
    ProjectAppend(table, before, extra, node);
    assert Queue(queues, node) == Project(table, before + extra, node);
    assert |Project(table, extra, node)| > 0;
  }
}
