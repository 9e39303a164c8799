// A multi-key command from argument vector to merged reply, through every stage of the client.

module ClusterCommand {
  import opened Bytes
  import opened Resp
  import opened Formatter
  import opened Command
  import opened CommandParser
  import opened CommandRoundTrip
  import opened KeySlot
  import opened Fragments
  import opened FragmentBuilder
  import opened Gather
  import opened ScatterGather

  /** Sends every fragment to the store of its slot, in list order. */
  function RunFragments(frags: seq<Fragment>, stores: seq<Store>): (seq<Store>, seq<SubReply>)
    requires |stores| == SLOTS
  {
    if frags == [] then (stores, []) else
    var (store, reply) := Server(frags[0].bytes, stores[frags[0].slot]);
    var (after, replies) := RunFragments(frags[1..], stores[frags[0].slot := store]);
    (after, [SubReply(frags[0].slot, Some(reply))] + replies)
  }

  /** The replies the fragments get, slot by slot. */
  function SubReplies(kind: Kind, argv: seq<seq<byte>>, stores: seq<Store>, slot: nat): seq<SubReply>
    requires MultiKey(kind, argv) && |stores| == SLOTS
    decreases SLOTS - slot
  {
    if slot >= SLOTS then [] else
    (if Picks(kind, argv, slot, KeyCount(kind, argv)) == [] then []
     else [SubReply(slot, Some(ReplyOf(kind, SlotEffect(kind, argv, stores, slot, KeyCount(kind, argv)))))])
    + SubReplies(kind, argv, stores, slot + 1)
  }

  lemma {:induction false} SubRepliesSame(kind: Kind, argv: seq<seq<byte>>, a: seq<Store>, b: seq<Store>, slot: nat)
    requires MultiKey(kind, argv) && |a| == |b| == SLOTS
    requires forall t :: slot <= t < SLOTS ==> a[t] == b[t]
    ensures SubReplies(kind, argv, a, slot) == SubReplies(kind, argv, b, slot)
    decreases SLOTS - slot
  {
    hide Picks, ExecKeys;
    if slot < SLOTS {
      SubRepliesSame(kind, argv, a, b, slot + 1);
    }
  }

  lemma SlotFragmentRuns(kind: Kind, argv: seq<seq<byte>>, stores: seq<Store>, slot: nat)
    requires MultiKey(kind, argv) && |stores| == SLOTS && slot < SLOTS
    ensures var n := KeyCount(kind, argv);
            var e := SlotEffect(kind, argv, stores, slot, n);
            if Picks(kind, argv, slot, n) == [] then e == Effect(stores[slot], [], 0)
            else Server(Format(SlotArgv(kind, argv, slot)), stores[slot]) == (e.store, ReplyOf(kind, e))
  {
    hide Picks, Server, Format, PickArgs, ReplyOf;
    var picks := Picks(kind, argv, slot, KeyCount(kind, argv));
    if picks != [] {
      hide ExecKeys;
      FragmentEffect(kind, argv, picks, stores[slot]);
    }
  }

  lemma RunHead(f: Fragment, rest: seq<Fragment>, stores: seq<Store>)
    requires |stores| == SLOTS
    ensures var (store, reply) := Server(f.bytes, stores[f.slot]);
            var (after, replies) := RunFragments(rest, stores[f.slot := store]);
            RunFragments([f] + rest, stores) == (after, [SubReply(f.slot, Some(reply))] + replies)
  {
    hide Server;
    assert ([f] + rest)[1..] == rest;
  }

  // The stores from `slot` on after their fragments have run; the ones before are untouched.
  ghost predicate StoresAfter(kind: Kind, argv: seq<seq<byte>>, stores: seq<Store>, slot: nat, after: seq<Store>)
    requires MultiKey(kind, argv) && |stores| == SLOTS
  {
    && |after| == SLOTS
    && (forall t :: 0 <= t < SLOTS ==>
          after[t] == if t < slot then stores[t] else SlotEffect(kind, argv, stores, t, KeyCount(kind, argv)).store)
  }

  lemma StoresAfterStep(kind: Kind, argv: seq<seq<byte>>, stores: seq<Store>, slot: nat, after: seq<Store>)
    requires MultiKey(kind, argv) && |stores| == SLOTS && slot < SLOTS
    requires var next := stores[slot := SlotEffect(kind, argv, stores, slot, KeyCount(kind, argv)).store];
             StoresAfter(kind, argv, next, slot + 1, after)
    ensures StoresAfter(kind, argv, stores, slot, after)
  {
    hide Picks, ExecKeys;
  }

  /** What the fragments from one slot on give, in terms of what those from the next slot on give. */
  lemma RunFragmentsStep(kind: Kind, argv: seq<seq<byte>>, stores: seq<Store>, slot: nat)
    requires MultiKey(kind, argv) && |stores| == SLOTS && slot < SLOTS
    ensures var e := SlotEffect(kind, argv, stores, slot, KeyCount(kind, argv));
            var (after, replies) := RunFragments(FragmentsFrom(kind, argv, slot + 1), stores[slot := e.store]);
            RunFragments(FragmentsFrom(kind, argv, slot), stores) ==
            if Picks(kind, argv, slot, KeyCount(kind, argv)) == [] then (after, replies)
            else (after, [SubReply(slot, Some(ReplyOf(kind, e)))] + replies)
  {
    hide Picks, Server, SlotArgv, ReplyOf, SlotEffect, Format, RunFragments;
    var rest := FragmentsFrom(kind, argv, slot + 1);
    SlotFragmentRuns(kind, argv, stores, slot);
    if Picks(kind, argv, slot, KeyCount(kind, argv)) == [] {
      assert FragmentsFrom(kind, argv, slot) == rest;
      assert stores[slot := stores[slot]] == stores;
    } else {
      RunHead(Fragment(slot, Format(SlotArgv(kind, argv, slot))), rest, stores);
    }
  }

  lemma {:induction false} RunFragmentsFrom(kind: Kind, argv: seq<seq<byte>>, stores: seq<Store>, slot: nat)
    requires MultiKey(kind, argv) && |stores| == SLOTS && slot <= SLOTS
    ensures var (after, subs) := RunFragments(FragmentsFrom(kind, argv, slot), stores);
            subs == SubReplies(kind, argv, stores, slot) && StoresAfter(kind, argv, stores, slot, after)
    decreases SLOTS - slot
  {
    hide Picks, Server, SlotArgv, ReplyOf, SlotEffect, FragmentsFrom, RunFragments;
    if slot < SLOTS {
      var next := stores[slot := SlotEffect(kind, argv, stores, slot, KeyCount(kind, argv)).store];
      RunFragmentsStep(kind, argv, stores, slot);
      RunFragmentsFrom(kind, argv, next, slot + 1);
      SubRepliesSame(kind, argv, next, stores, slot + 1);
      StoresAfterStep(kind, argv, stores, slot, RunFragments(FragmentsFrom(kind, argv, slot), stores).0);
    } else {
      RunNothing(kind, argv, stores);
    }
  }

  lemma RunNothing(kind: Kind, argv: seq<seq<byte>>, stores: seq<Store>)
    requires MultiKey(kind, argv) && |stores| == SLOTS
    ensures RunFragments(FragmentsFrom(kind, argv, SLOTS), stores) == (stores, [])
  {
  }

  // ---------------------------------------------------------------- merging

  lemma {:induction false} RepliesCheck(kind: Kind, argv: seq<seq<byte>>, stores: seq<Store>, slot: nat)
    requires MultiKey(kind, argv) && |stores| == SLOTS
    ensures CheckReplies(kind, SubReplies(kind, argv, stores, slot)).Fine?
    decreases SLOTS - slot
  {
    hide Picks, ExecKeys;
    if slot < SLOTS {
      RepliesCheck(kind, argv, stores, slot + 1);
      var rest := SubReplies(kind, argv, stores, slot + 1);
      if Picks(kind, argv, slot, KeyCount(kind, argv)) == [] {
        assert [] + rest == rest;
      } else {
        assert SubReplies(kind, argv, stores, slot)[1..] == rest;
      }
    }
  }

  lemma {:induction false} TotalOfCons(x: SubReply, rest: seq<SubReply>)
    ensures Total([x] + rest) == Total([x]) + Total(rest)
  {
    var all := [x] + rest;
    if rest == [] {
      assert all == [x];
    } else {
      assert all[..|all| - 1] == [x] + rest[..|rest| - 1];
      TotalOfCons(x, rest[..|rest| - 1]);
    }
  }

  lemma {:induction false} RepliesTotal(argv: seq<seq<byte>>, stores: seq<Store>, slot: nat)
    requires MultiKey(Del, argv) && |stores| == SLOTS
    ensures Total(SubReplies(Del, argv, stores, slot)) == Deleted(Del, argv, stores, slot, KeyCount(Del, argv))
    decreases SLOTS - slot
  {
    hide Picks, Server, SlotArgv;
    if slot < SLOTS {
      var n := KeyCount(Del, argv);
      RepliesTotal(argv, stores, slot + 1);
      SlotFragmentRuns(Del, argv, stores, slot);
      var rest := SubReplies(Del, argv, stores, slot + 1);
      hide SlotEffect;
      if Picks(Del, argv, slot, n) == [] {
        assert [] + rest == rest;
      } else {
        var x := SubReply(slot, Some(Integer(SlotEffect(Del, argv, stores, slot, n).deleted)));
        TotalOfCons(x, rest);
        assert [x][..0] == [];
      }
    }
  }

  lemma {:induction false} RepliesElements(argv: seq<seq<byte>>, stores: seq<Store>, slot: nat, s: nat)
    requires MultiKey(Mget, argv) && |stores| == SLOTS && slot <= s < SLOTS
    requires Picks(Mget, argv, s, KeyCount(Mget, argv)) != []
    ensures Elements(SubReplies(Mget, argv, stores, slot), s)
         == SlotEffect(Mget, argv, stores, s, KeyCount(Mget, argv)).values
    decreases s - slot
  {
    hide Picks, ExecKeys;
    var rest := SubReplies(Mget, argv, stores, slot + 1);
    if Picks(Mget, argv, slot, KeyCount(Mget, argv)) == [] {
      assert [] + rest == rest;
      RepliesElements(argv, stores, slot + 1, s);
    } else {
      assert SubReplies(Mget, argv, stores, slot)[1..] == rest;
      if slot < s {
        RepliesElements(argv, stores, slot + 1, s);
      }
    }
  }

  // The slot of each key, as the first loop of the cut records it.
  ghost predicate SlotsOf(fragSeq: seq<nat>, kind: Kind, argv: seq<seq<byte>>)
    requires MultiKey(kind, argv)
  {
    |fragSeq| == KeyCount(kind, argv)
    && forall j :: 0 <= j < |fragSeq| ==> fragSeq[j] == Slot(KeyAt(kind, argv, j))
  }

  lemma {:induction false} CountIsPicks(kind: Kind, argv: seq<seq<byte>>, fragSeq: seq<nat>, s: nat, n: nat)
    requires MultiKey(kind, argv) && SlotsOf(fragSeq, kind, argv) && n <= |fragSeq|
    ensures Count(fragSeq, s, n) == |Picks(kind, argv, s, n)|
  {
    hide Slot, KeyAt;
    if n > 0 {
      CountIsPicks(kind, argv, fragSeq, s, n - 1);
    }
  }

  /** Key i gets, from the tail of its fragment's reply, the value the whole command reads for it. */
  lemma {:induction false} PickedValue(argv: seq<seq<byte>>, whole: Store, stores: seq<Store>, fragSeq: seq<nat>,
                                       i: nat)
    requires MultiKey(Mget, argv) && SlotsOf(fragSeq, Mget, argv) && i < |fragSeq| && |stores| == SLOTS
    requires ValuesInStep(Mget, argv, whole, stores, |fragSeq|)
    ensures var s := Slot(KeyAt(Mget, argv, i));
            var es := Elements(SubReplies(Mget, argv, stores, 0), s);
            var n := |fragSeq|;
            && fragSeq[i] == s && |es| == Count(fragSeq, s, n) && Count(fragSeq, s, i) < |es|
            && es[Count(fragSeq, s, i)] == WholeEffect(Mget, argv, whole, n).values[i]
  {
    var s, n := Slot(KeyAt(Mget, argv, i)), |fragSeq|;
    hide Slot, KeyAt, SlotEffect, WholeEffect;
    CountIsPicks(Mget, argv, fragSeq, s, n);
    CountIsPicks(Mget, argv, fragSeq, s, i);
    PicksPartition(Mget, argv, s, n);
    assert i in Picks(Mget, argv, s, n);
    RepliesElements(argv, stores, 0, s);
    assert SameValue(Mget, argv, WholeEffect(Mget, argv, whole, n).values[i], stores, i, n);
  }

  lemma {:induction false} MergedValues(argv: seq<seq<byte>>, whole: Store, stores: seq<Store>, fragSeq: seq<nat>)
    requires MultiKey(Mget, argv) && SlotsOf(fragSeq, Mget, argv) && |stores| == SLOTS
    requires ValuesInStep(Mget, argv, whole, stores, |fragSeq|)
    ensures var subs := SubReplies(Mget, argv, stores, 0);
            && EnoughElements(subs, fragSeq)
            && (forall i :: 0 <= i < |fragSeq| ==> |Elements(subs, fragSeq[i])| == Count(fragSeq, fragSeq[i],
              |fragSeq|))
            && Merged(Mget, subs, fragSeq) == Some(Array(WholeEffect(Mget, argv, whole, |fragSeq|).values))
  {
    hide Slot, KeyAt, SlotEffect, WholeEffect, SubReplies;
    var subs, values := SubReplies(Mget, argv, stores, 0), WholeEffect(Mget, argv, whole, |fragSeq|).values;
    RepliesCheck(Mget, argv, stores, 0);
    forall i | 0 <= i < |fragSeq|
      ensures |Elements(subs, fragSeq[i])| == Count(fragSeq, fragSeq[i], |fragSeq|)
    {
      PickedValue(argv, whole, stores, fragSeq, i);
    }
    forall i | 0 <= i < |fragSeq|
      ensures Picked(subs, fragSeq, i) == values[i]
    {
      PickedValue(argv, whole, stores, fragSeq, i);
    }
    assert seq(|fragSeq|, i requires 0 <= i < |fragSeq| => Picked(subs, fragSeq, i)) == values;
  }

  /** Scatter and gather preserve meaning: for any keys, duplicates included, running the fragments
      in list order and merging their replies gives the reply and the stores of the whole command. */
  lemma {:induction false} ScatterGatherIsWhole(kind: Kind, argv: seq<seq<byte>>, whole: Store, stores: seq<Store>,
                                                fragSeq: seq<nat>)
    requires MultiKey(kind, argv) && KindOf(argv[0]) == Some(kind) && SlotsOf(fragSeq, kind, argv)
    requires |stores| == SLOTS && Holds(whole, stores)
    ensures var (after, subs) := RunFragments(FragmentsFrom(kind, argv, 0), stores);
            |after| == SLOTS && Holds(Serve(argv, whole).0, after)
            && Merged(kind, subs, fragSeq) == Some(Serve(argv, whole).1)
  {
    hide Slot, KeyAt, SlotEffect, ExecKeys, SubReplies, FragmentsFrom, RunFragments, KindOf, Deleted;
    var n := KeyCount(kind, argv);
    AllInStep(kind, argv, whole, stores, n);
    RunFragmentsFrom(kind, argv, stores, 0);
    RepliesCheck(kind, argv, stores, 0);
    var (after, subs) := RunFragments(FragmentsFrom(kind, argv, 0), stores);
    forall k
      ensures Agree(Serve(argv, whole).0, after[Slot(k)], k)
    {
      assert Agree(WholeEffect(kind, argv, whole, n).store, SlotEffect(kind, argv, stores, Slot(k), n).store, k);
    }
    match kind
    case Mget => MergedValues(argv, whole, stores, fragSeq);
    case Del => RepliesTotal(argv, stores, 0);
    case Mset =>
  }

  // ---------------------------------------------------------------- a single slot

  lemma {:induction false} AllPicked(kind: Kind, argv: seq<seq<byte>>, slot: nat, n: nat)
    requires MultiKey(kind, argv) && n <= KeyCount(kind, argv)
    requires forall j :: 0 <= j < n ==> Slot(KeyAt(kind, argv, j)) == slot
    ensures Picks(kind, argv, slot, n) == First(n)
  {
    hide Slot, KeyAt;
    if n > 0 {
      AllPicked(kind, argv, slot, n - 1);
    }
  }

  /** When every key is in one slot, that slot's store alone answers like the undivided one. */
  lemma OneSlotIsWhole(kind: Kind, argv: seq<seq<byte>>, whole: Store, stores: seq<Store>, slot: nat)
    requires MultiKey(kind, argv) && KindOf(argv[0]) == Some(kind)
    requires |stores| == SLOTS && slot < SLOTS && Holds(whole, stores)
    requires forall j :: 0 <= j < KeyCount(kind, argv) ==> Slot(KeyAt(kind, argv, j)) == slot
    ensures var (store, reply) := Serve(argv, stores[slot]);
            Holds(Serve(argv, whole).0, stores[slot := store]) && reply == Serve(argv, whole).1
  {
    hide Slot, KeyAt, ExecKeys, KindOf, Deleted;
    var n := KeyCount(kind, argv);
    AllInStep(kind, argv, whole, stores, n);
    AllPicked(kind, argv, slot, n);
    var (store, reply) := Serve(argv, stores[slot]);
    assert SlotEffect(kind, argv, stores, slot, n).store == store;
    forall k
      ensures Agree(Serve(argv, whole).0, stores[slot := store][Slot(k)], k)
    {
      assert Agree(WholeEffect(kind, argv, whole, n).store, SlotEffect(kind, argv, stores, Slot(k), n).store, k);
      if Slot(k) != slot {
        NonePicked(kind, argv, slot, Slot(k), n);
        NoEffect(kind, argv, stores, Slot(k), n);
      }
    }
    match kind
    case Mget =>
      forall i | 0 <= i < n
        ensures WholeEffect(kind, argv, whole, n).values[i] == SlotEffect(kind, argv, stores, slot, n).values[i]
      {
        AllPicked(kind, argv, slot, i);
        assert SameValue(kind, argv, WholeEffect(kind, argv, whole, n).values[i], stores, i, n);
      }
    case Del => DeletedInSlot(argv, stores, slot, 0);
    case Mset =>
  }

  lemma {:induction false} NonePicked(kind: Kind, argv: seq<seq<byte>>, slot: nat, other: nat, n: nat)
    requires MultiKey(kind, argv) && n <= KeyCount(kind, argv) && slot != other
    requires forall j :: 0 <= j < n ==> Slot(KeyAt(kind, argv, j)) == slot
    ensures Picks(kind, argv, other, n) == []
  {
    hide Slot, KeyAt;
    if n > 0 {
      NonePicked(kind, argv, slot, other, n - 1);
    }
  }

  lemma NoEffect(kind: Kind, argv: seq<seq<byte>>, stores: seq<Store>, slot: nat, n: nat)
    requires MultiKey(kind, argv) && n <= KeyCount(kind, argv) && slot < |stores|
    requires Picks(kind, argv, slot, n) == []
    ensures SlotEffect(kind, argv, stores, slot, n) == Effect(stores[slot], [], 0)
  {
  }

  lemma {:induction false} DeletedInSlot(argv: seq<seq<byte>>, stores: seq<Store>, slot: nat, from: nat)
    requires MultiKey(Del, argv) && |stores| == SLOTS && slot < SLOTS
    requires forall j :: 0 <= j < KeyCount(Del, argv) ==> Slot(KeyAt(Del, argv, j)) == slot
    ensures var n := KeyCount(Del, argv);
            Deleted(Del, argv, stores, from, n) == if from <= slot
              then SlotEffect(Del, argv, stores, slot, n).deleted else 0
    decreases SLOTS - from
  {
    hide Slot, KeyAt, SlotEffect;
    if from < SLOTS {
      DeletedInSlot(argv, stores, slot, from + 1);
      if from != slot {
        NonePicked(Del, argv, slot, from, KeyCount(Del, argv));
        NoEffect(Del, argv, stores, from, KeyCount(Del, argv));
      }
    }
  }

  lemma FragmentsCount(kind: Kind, argv: seq<seq<byte>>, slot: nat)
    requires MultiKey(kind, argv) && slot < SLOTS
    ensures |FragmentsFrom(kind, argv, slot)| == |FragmentsFrom(kind, argv, slot + 1)|
                                                 + if Picks(kind, argv, slot, KeyCount(kind, argv)) == [] then 0 else 1
  {
    hide Picks, SlotArgv;
  }

  lemma {:induction false} FragmentPerSlot(kind: Kind, argv: seq<seq<byte>>, from: nat, s: nat, t: nat)
    requires MultiKey(kind, argv) && from <= s <= t < SLOTS
    requires Picks(kind, argv, s, KeyCount(kind, argv)) != [] && Picks(kind, argv, t, KeyCount(kind, argv)) != []
    ensures |FragmentsFrom(kind, argv, from)| >= if s == t then 1 else 2
    decreases t - from
  {
    hide Picks, FragmentsFrom;
    FragmentsCount(kind, argv, from);
    if from < s {
      FragmentPerSlot(kind, argv, from + 1, s, t);
    } else if s < t {
      FragmentPerSlot(kind, argv, from + 1, t, t);
    }
  }

  // Every key is in the slot of the last.
  predicate InOneSlot(kind: Kind, argv: seq<seq<byte>>)
    requires MultiKey(kind, argv)
  {
    forall j :: 0 <= j < KeyCount(kind, argv) ==>
      Slot(KeyAt(kind, argv, j)) == Slot(KeyAt(kind, argv, KeyCount(kind, argv) - 1))
  }

  /** A cut of one fragment means that every key is in the slot of the last. */
  lemma {:induction false} OneFragmentOneSlot(kind: Kind, argv: seq<seq<byte>>)
    requires MultiKey(kind, argv) && |FragmentsFrom(kind, argv, 0)| == 1
    ensures InOneSlot(kind, argv)
  {
    hide FragmentsFrom, Slot, KeyAt;
    var n := KeyCount(kind, argv);
    var last := Slot(KeyAt(kind, argv, n - 1));
    PicksPartition(kind, argv, last, n);
    assert n - 1 in Picks(kind, argv, last, n);
    forall j | 0 <= j < n
      ensures Slot(KeyAt(kind, argv, j)) == last
    {
      var s := Slot(KeyAt(kind, argv, j));
      PicksPartition(kind, argv, s, n);
      assert j in Picks(kind, argv, s, n);
      FragmentPerSlot(kind, argv, 0, if s < last then s else last, if s < last then last else s);
    }
  }

  // ---------------------------------------------------------------- the whole client

  lemma KindIsCommand(name: seq<byte>, kind: Kind)
    requires KindOf(name) == Some(kind)
    ensures CommandOf(name).Some?
    ensures CommandOf(name).value.arity == if kind == Mset then ArgKvx else ArgX
    ensures name != []
  {
  }

  lemma OnlyKey(kind: Kind, argv: seq<seq<byte>>)
    requires MultiKey(kind, argv) && KeyCount(kind, argv) == 1
    ensures KeyAt(kind, argv, 0) == argv[KeyArg(kind, 0)]
  {
  }

  lemma KeysFromRanges(kind: Kind, argv: seq<seq<byte>>, a: Arity)
    requires MultiKey(kind, argv) && a == if kind == Mset then ArgKvx else ArgX
    ensures KeysOf(Ranges(argv, KeyIndices(a, |argv|)), kind, argv)
  {
    hide KeyRange;
  }

  lemma {:induction false} OneSlotOneFragment(kind: Kind, argv: seq<seq<byte>>, slot: nat, from: nat)
    requires MultiKey(kind, argv) && slot < SLOTS && from <= SLOTS
    requires forall j :: 0 <= j < KeyCount(kind, argv) ==> Slot(KeyAt(kind, argv, j)) == slot
    ensures |FragmentsFrom(kind, argv, from)| == if from <= slot then 1 else 0
    decreases SLOTS - from
  {
    hide Picks, Slot, KeyAt, FragmentsFrom;
    if from == SLOTS {
      FragmentsEnd(kind, argv);
    } else {
      FragmentsCount(kind, argv, from);
      OneSlotOneFragment(kind, argv, slot, from + 1);
      if from != slot {
        NonePicked(kind, argv, slot, from, KeyCount(kind, argv));
      } else {
        AllPicked(kind, argv, slot, KeyCount(kind, argv));
      }
    }
  }

  method SlotOfOnlyKey(cmd: seq<byte>, kind: Kind, keys: seq<KeyPos>, ghost argv: seq<seq<byte>>) returns (slot: nat)
    requires MultiKey(kind, argv) && Fits32(argv) && cmd == Format(argv) && KeysOf(keys, kind, argv) && |keys| == 1
    ensures slot == Slot(KeyAt(kind, argv, 0))
  {
    hide Slot, Format;
    KeyRangeBytes(argv, KeyArg(kind, 0));
    KeyRangeLength(argv, KeyArg(kind, 0));
    slot := KeyHashSlot(cmd[keys[0].start..keys[0].end]);
    OnlyKey(kind, argv);
  }

  /** Formats a multi-key command, parses it and cuts it by slot. A fragment is written past the end of
      its buffer exactly when there are several keys and a fragment's length texts do not come out as
      plain numerals; otherwise the command stays whole exactly when all its keys are in one slot. */
  method CommandFormatBySlot(kind: Kind, argv: seq<seq<byte>>) returns (cmd: seq<byte>, cut: Cut)
    requires MultiKey(kind, argv) && Fits32(argv) && KindOf(argv[0]) == Some(kind)
    ensures cmd == Format(argv)
    ensures cut.Overrun? <==> KeyCount(kind, argv) > 1 && !AllNumeralsSafe(kind, argv)
    ensures !cut.Overrun? ==> (cut.OneSlot? <==> InOneSlot(kind, argv))
    ensures cut.OneSlot? ==> cut.slot == Slot(KeyAt(kind, argv, KeyCount(kind, argv) - 1))
    ensures cut.Many? ==> cut.fragments == FragmentsFrom(kind, argv, 0) && SlotsOf(cut.fragSeq, kind, argv)
  {
    hide Slot, KeyAt, Format, ArityOf, KindOf, AllNumeralsSafe, FragmentsFrom, Run;
    var target, len := FormatCommandArgv(argv);
    var command := new Cmd(target[..len]);
    command.RedisParseCmd();
    cmd := command.cmd;
    KindIsCommand(argv[0], kind);
    ParseFormatted(argv);
    KeysFromRanges(kind, argv, CommandOf(argv[0]).value.arity);
    if |command.keys| == 1 {
      var slot := SlotOfOnlyKey(cmd, kind, command.keys, argv);
      return cmd, OneSlot(slot);
    }
    cut := CommandPreFragment(cmd, kind, command.keys, argv);
    if |FragmentsFrom(kind, argv, 0)| == 1 {
      OneFragmentOneSlot(kind, argv);
    } else if InOneSlot(kind, argv) {
      OneSlotOneFragment(kind, argv, Slot(KeyAt(kind, argv, KeyCount(kind, argv) - 1)), 0);
    }
  }

  // What the caller gets. Overran: a fragment would have been written past the end of its buffer.
  datatype Answer = Replied(reply: Option<Reply>) | Overran

  /** Formats a multi-key command, parses it, cuts it by slot, runs each part at its slot, and merges
      the replies: the caller sees the reply, and the slots the contents, that one server holding
      everything would have given. It fails exactly when there are several keys and a fragment's
      length texts do not come out as plain numerals; then nothing has been sent. */
  method MultiKeyCommand(kind: Kind, argv: seq<seq<byte>>, stores: seq<Store>, ghost whole: Store)
    returns (answer: Answer, after: seq<Store>)
    requires MultiKey(kind, argv) && Fits32(argv) && KindOf(argv[0]) == Some(kind)
    requires |stores| == SLOTS && Holds(whole, stores)
    ensures answer.Overran? <==> KeyCount(kind, argv) > 1 && !AllNumeralsSafe(kind, argv)
    ensures if answer.Overran? then after == stores
            else answer == Replied(Some(Serve(argv, whole).1)) && |after| == SLOTS && Holds(Serve(argv, whole).0, after)
  {
    hide Slot, KeyAt, Format, Holds, Serve, Server, KindOf, AllNumeralsSafe, FragmentsFrom;
    var cmd, cut := CommandFormatBySlot(kind, argv);
    match cut {
      case Overrun => return Overran, stores;
      case OneSlot(slot) =>
        OneSlotIsWhole(kind, argv, whole, stores, slot);
        ServerRuns(kind, argv, stores[slot]);
        var (store, r) := Server(cmd, stores[slot]);
        return Replied(Some(r)), stores[slot := store];
      case Many(fragments, fragSeq) =>
        ScatterGatherIsWhole(kind, argv, whole, stores, fragSeq);
        var (changed, subs) := RunFragments(fragments, stores);
        var reply := CommandPostFragment(kind, subs, fragSeq);
        return Replied(reply), changed;
    }
  }
}
