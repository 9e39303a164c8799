// Merging the replies of a cut command: keys are walked backwards and each takes the last element
// left in its fragment's reply.

module Gather {
  import opened Bytes
  import opened Resp
  import opened Fragments

  const OK: seq<byte> := [79, 75]

  // A fragment that has been run: its slot and the reply that came back, if one did.
  datatype SubReply = SubReply(slot: nat, reply: Option<Reply>)

  datatype Check = Fine | Stop(result: Option<Reply>)

  predicate TypeFits(kind: Kind, r: Reply) {
    match kind
    case Mget => r.Array?
    case Del => r.Integer?
    case Mset => r == Status(OK)
  }

  /** The first fragment without a usable reply decides: an error reply is the result, anything else is no result. */
  function CheckReplies(kind: Kind, subs: seq<SubReply>): Check {
    if subs == [] then Fine
    else if subs[0].reply == None then Stop(None)
    else if subs[0].reply.value.Error? then Stop(subs[0].reply)
    else if !TypeFits(kind, subs[0].reply.value) then Stop(None)
    else CheckReplies(kind, subs[1..])
  }

  // A reply the merge can use: there is one, and it is of the command's type.
  predicate Usable(kind: Kind, reply: Option<Reply>) {
    reply.Some? && if kind == Mget then reply.value.Array?
                   else if kind == Del then reply.value.Integer?
                   else reply.value.Status? && reply.value.text == [79, 75]
  }

  // The k-th fragment is the first without a usable reply.
  ghost predicate FirstUnusable(kind: Kind, subs: seq<SubReply>, k: int) {
    && 0 <= k < |subs| && !Usable(kind, subs[k].reply)
    && forall j :: 0 <= j < k ==> Usable(kind, subs[j].reply)
  }

  ghost predicate AllUsable(kind: Kind, subs: seq<SubReply>) {
    forall j :: 0 <= j < |subs| ==> Usable(kind, subs[j].reply)
  }

  // What a fragment without a usable reply makes of the whole command: its error, or no reply.
  function Failure(reply: Option<Reply>): Option<Reply> {
    if reply.Some? && reply.value.Error? then reply else None
  }

  /** The merge fails with the first fragment that failed; when none did it is not stopped. */
  lemma {:induction false} FailsFirst(kind: Kind, subs: seq<SubReply>, fragSeq: seq<nat>)
    ensures forall k :: FirstUnusable(kind, subs, k) ==> Merged(kind, subs, fragSeq) == Failure(subs[k].reply)
    ensures AllUsable(kind, subs) ==> CheckReplies(kind, subs).Fine?
  {
    forall k | FirstUnusable(kind, subs, k)
      ensures CheckReplies(kind, subs) == Stop(Failure(subs[k].reply))
    {
      StopsAt(kind, subs, k);
    }
    if AllUsable(kind, subs) {
      NeverStops(kind, subs);
    }
  }

  lemma {:induction false} StopsAt(kind: Kind, subs: seq<SubReply>, k: nat)
    requires FirstUnusable(kind, subs, k)
    ensures CheckReplies(kind, subs) == Stop(Failure(subs[k].reply))
    decreases k
  {
    if k > 0 {
      assert Usable(kind, subs[0].reply);
      StopsAt(kind, subs[1..], k - 1);
    }
  }

  lemma {:induction false} NeverStops(kind: Kind, subs: seq<SubReply>)
    requires AllUsable(kind, subs)
    ensures CheckReplies(kind, subs).Fine?
  {
    if subs != [] {
      assert Usable(kind, subs[0].reply);
      NeverStops(kind, subs[1..]);
    }
  }

  function Total(subs: seq<SubReply>): int {
    if subs == [] then 0
    else Total(subs[..|subs| - 1])
         + (match subs[|subs| - 1].reply case Some(Integer(n)) => n case _ => 0)
  }

  /** How many of the first n keys went to a slot. */
  function Count(fragSeq: seq<nat>, slot: nat, n: nat): (c: nat)
    requires n <= |fragSeq|
    ensures c <= n
  {
    if n == 0 then 0 else Count(fragSeq, slot, n - 1) + (if fragSeq[n - 1] == slot then 1 else 0)
  }

  lemma {:induction false} CountMonotone(fragSeq: seq<nat>, slot: nat, i: nat, n: nat)
    requires i <= n <= |fragSeq|
    ensures Count(fragSeq, slot, i) <= Count(fragSeq, slot, n)
    decreases n - i
  {
    if i < n {
      CountMonotone(fragSeq, slot, i, n - 1);
    }
  }

  function Elements(subs: seq<SubReply>, slot: nat): seq<Reply> {
    if subs == [] then []
    else if subs[0].slot == slot && subs[0].reply.Some? && subs[0].reply.value.Array? then subs[0].reply.value.elems
    else Elements(subs[1..], slot)
  }

  predicate EnoughElements(subs: seq<SubReply>, fragSeq: seq<nat>) {
    forall i :: 0 <= i < |fragSeq| ==> |Elements(subs, fragSeq[i])| >= Count(fragSeq, fragSeq[i], |fragSeq|)
  }

  /** Key i gets the element of its fragment's reply that has as many of the slot's keys before it
      as key i has, counted from the first element that is taken at all. */
  function Picked(subs: seq<SubReply>, fragSeq: seq<nat>, i: nat): Reply
    requires i < |fragSeq| && EnoughElements(subs, fragSeq)
  {
    var s := fragSeq[i];
    CountMonotone(fragSeq, s, i + 1, |fragSeq|);
    Elements(subs, s)[|Elements(subs, s)| - Count(fragSeq, s, |fragSeq|) + Count(fragSeq, s, i)]
  }

  function Merged(kind: Kind, subs: seq<SubReply>, fragSeq: seq<nat>): Option<Reply> {
    match CheckReplies(kind, subs)
    case Stop(result) => result
    case Fine =>
      match kind
      case Del => Some(Integer(Total(subs)))
      case Mset => Some(Status(OK))
      case Mget =>
        if !EnoughElements(subs, fragSeq) then None
        else Some(Array(seq(|fragSeq|, i requires 0 <= i < |fragSeq| => Picked(subs, fragSeq, i))))
  }

  // ---------------------------------------------------------------- the code

  /** Walks the list of fragments: a missing reply, an error or a reply of the wrong type ends it. */
  method CheckAll(kind: Kind, subs: seq<SubReply>) returns (check: Check, count: int)
    ensures check == CheckReplies(kind, subs)
    ensures check.Fine? <==> AllUsable(kind, subs)
    ensures forall k :: FirstUnusable(kind, subs, k) ==> check == Stop(Failure(subs[k].reply))
    ensures check.Fine? && kind == Del ==> count == Total(subs)
  {
    count := 0;
    for k := 0 to |subs|
      invariant forall j :: 0 <= j < k ==> Usable(kind, subs[j].reply)
      invariant CheckReplies(kind, subs[k..]) == CheckReplies(kind, subs)
      invariant kind == Del ==> count == Total(subs[..k])
    {
      assert subs[k..][1..] == subs[k + 1..] && subs[..k + 1][..k] == subs[..k];
      match subs[k].reply {
        case None => return Stop(None), count;
        case Some(reply) =>
          if reply.Error? {
            return Stop(Some(reply)), count;
          }
          if !TypeFits(kind, reply) {
            return Stop(None), count;
          }
          if kind == Del {
            count := count + reply.n;
          }
      }
    }
    assert subs[|subs|..] == [] && subs[..|subs|] == subs;
    return Fine, count;
  }

  // What is left of a fragment's elements once keys i.. have taken theirs.
  function Left(subs: seq<SubReply>, fragSeq: seq<nat>, slot: nat, i: nat): int
    requires i <= |fragSeq|
  {
    |Elements(subs, slot)| - (Count(fragSeq, slot, |fragSeq|) - Count(fragSeq, slot, i))
  }

  // Every fragment still holds a prefix of its elements.
  ghost predicate PoolOk(pool: map<nat, seq<Reply>>, subs: seq<SubReply>, fragSeq: seq<nat>, i: nat)
    requires i <= |fragSeq|
  {
    && (forall k :: 0 <= k < |fragSeq| ==> fragSeq[k] in pool)
    && (forall s :: s in pool ==>
          0 <= Left(subs, fragSeq, s, i) <= |Elements(subs, s)|
          && pool[s] == Elements(subs, s)[..Left(subs, fragSeq, s, i)])
  }

  // Element r is what key k has to get.
  ghost predicate TakenFrom(subs: seq<SubReply>, fragSeq: seq<nat>, k: nat, r: Reply)
    requires k < |fragSeq|
  {
    var s := fragSeq[k];
    var at := Left(subs, fragSeq, s, k);
    0 <= at < |Elements(subs, s)| && r == Elements(subs, s)[at]
  }

  lemma PopOne(pool: map<nat, seq<Reply>>, subs: seq<SubReply>, fragSeq: seq<nat>, i: nat)
    requires i < |fragSeq| && PoolOk(pool, subs, fragSeq, i + 1)
    ensures var s := fragSeq[i];
            var sub := pool[s];
            if |sub| == 0 then !EnoughElements(subs, fragSeq)
            else PoolOk(pool[s := sub[..|sub| - 1]], subs, fragSeq, i) && TakenFrom(subs, fragSeq, i, sub[|sub| - 1])
  {
    var s := fragSeq[i];
    CountMonotone(fragSeq, s, 0, i);
    assert Left(subs, fragSeq, s, i) == Left(subs, fragSeq, s, i + 1) - 1;
    assert forall t :: t != s ==> Left(subs, fragSeq, t, i) == Left(subs, fragSeq, t, i + 1);
  }

  lemma PoolFull(subs: seq<SubReply>, fragSeq: seq<nat>, pool: map<nat, seq<Reply>>)
    requires pool == map s: nat | s in fragSeq :: Elements(subs, s)
    ensures PoolOk(pool, subs, fragSeq, |fragSeq|)
  {
  }

  lemma PoolHolds(pool: map<nat, seq<Reply>>, subs: seq<SubReply>, fragSeq: seq<nat>, i: nat, k: nat)
    requires i <= |fragSeq| && PoolOk(pool, subs, fragSeq, i) && k < |fragSeq|
    ensures fragSeq[k] in pool
  {
  }

  lemma PoolEnds(pool: map<nat, seq<Reply>>, subs: seq<SubReply>, fragSeq: seq<nat>)
    requires PoolOk(pool, subs, fragSeq, 0)
    ensures EnoughElements(subs, fragSeq)
  {
    forall k | 0 <= k < |fragSeq|
      ensures |Elements(subs, fragSeq[k])| >= Count(fragSeq, fragSeq[k], |fragSeq|)
    {
      assert Left(subs, fragSeq, fragSeq[k], 0) >= 0;
    }
  }

  /** The backwards loop. `pool` holds the elements still in each fragment's reply. */
  method PopFromTails(subs: seq<SubReply>, fragSeq: seq<nat>)
    returns (done: bool, elements: seq<Reply>, pool: map<nat, seq<Reply>>)
    ensures done <==> EnoughElements(subs, fragSeq)
    ensures done ==> |elements| == |fragSeq| && PoolOk(pool, subs, fragSeq, 0)
    ensures done ==> forall k :: 0 <= k < |elements| ==> TakenFrom(subs, fragSeq, k, elements[k])
  {
    hide PoolOk, TakenFrom;
    pool := map s: nat | s in fragSeq :: Elements(subs, s);
    PoolFull(subs, fragSeq, pool);
    var n := |fragSeq|;
    var element := new Reply[n](_ => Nil);
    var i := n;
    while i > 0
      invariant 0 <= i <= n && PoolOk(pool, subs, fragSeq, i)
      invariant forall k :: i <= k < n ==> TakenFrom(subs, fragSeq, k, element[k])
      decreases i
    {
      PopOne(pool, subs, fragSeq, i - 1);
      PoolHolds(pool, subs, fragSeq, i, i - 1);
      i := i - 1;
      var sub := pool[fragSeq[i]];
      if |sub| == 0 {
        return false, [], pool;
      }
      element[i] := sub[|sub| - 1];
      pool := pool[fragSeq[i] := sub[..|sub| - 1]];
    }
    PoolEnds(pool, subs, fragSeq);
    return true, element[..], pool;
  }

  /** When each fragment answered exactly its keys, the loop leaves every fragment's reply empty. */
  lemma NothingLeft(subs: seq<SubReply>, fragSeq: seq<nat>, pool: map<nat, seq<Reply>>)
    requires PoolOk(pool, subs, fragSeq, 0)
    requires forall i :: 0 <= i < |fragSeq| ==> |Elements(subs, fragSeq[i])| == Count(fragSeq, fragSeq[i], |fragSeq|)
    ensures forall i :: 0 <= i < |fragSeq| ==> pool[fragSeq[i]] == []
  {
    forall i | 0 <= i < |fragSeq|
      ensures pool[fragSeq[i]] == []
    {
      assert Left(subs, fragSeq, fragSeq[i], 0) == 0;
    }
  }

  method CommandPostFragment(kind: Kind, subs: seq<SubReply>, fragSeq: seq<nat>) returns (reply: Option<Reply>)
    ensures reply == Merged(kind, subs, fragSeq)
    ensures forall k :: FirstUnusable(kind, subs, k) ==>
              reply == if subs[k].reply.Some? && subs[k].reply.value.Error? then subs[k].reply else None
    ensures AllUsable(kind, subs) ==>
              match kind
              case Del => reply == Some(Integer(Total(subs)))
              case Mset => reply == Some(Status([79, 75]))
              case Mget =>
                if !EnoughElements(subs, fragSeq) then reply == None
                else reply.Some? && reply.value.Array? && |reply.value.elems| == |fragSeq|
                     && forall k :: 0 <= k < |fragSeq| ==> TakenFrom(subs, fragSeq, k, reply.value.elems[k])
  {
    FailsFirst(kind, subs, fragSeq);
    var check, count := CheckAll(kind, subs);
    match check {
      case Stop(result) => return result;
      case Fine =>
    }
    match kind {
      case Del => return Some(Integer(count));
      case Mset => return Some(Status(OK));
      case Mget =>
        var done, elements, _ := PopFromTails(subs, fragSeq);
        if !done {
          return None;
        }
        assert elements == Merged(kind, subs, fragSeq).value.elems;
        return Some(Array(elements));
    }
  }
}
