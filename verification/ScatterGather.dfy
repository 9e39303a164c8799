// Running a multi-key command slot by slot and merging the replies is the same as running it whole.

module ScatterGather {
  import opened Bytes
  import opened Resp
  import opened ReaderMachine
  import opened ReaderRoundTrip
  import opened Formatter
  import opened Command
  import opened KeySlot
  import opened Fragments
  import opened Gather

  // ---------------------------------------------------------------- what a server does

  type Store = map<seq<byte>, seq<byte>>

  // What running a command for some of its keys has done: the store, the values read (MGET) and
  // how many keys were removed (DEL).
  datatype Effect = Effect(store: Store, values: seq<Reply>, deleted: nat)

  function Lookup(store: Store, key: seq<byte>): Reply {
    if key in store then Bulk(store[key]) else Nil
  }

  function ExecKey(kind: Kind, e: Effect, args: seq<seq<byte>>): Effect
    requires args != [] && (kind == Mset ==> |args| == 2)
  {
    match kind
    case Mget => e.(values := e.values + [Lookup(e.store, args[0])])
    case Del => if args[0] in e.store then e.(store := e.store - {args[0]}, deleted := e.deleted + 1) else e
    case Mset => e.(store := e.store[args[0] := args[1]])
  }

  /** The command restricted to the given key numbers, taken in order. */
  function ExecKeys(kind: Kind, argv: seq<seq<byte>>, store: Store, picks: seq<nat>): Effect
    requires MultiKey(kind, argv) && forall k :: 0 <= k < |picks| ==> picks[k] < KeyCount(kind, argv)
  {
    if picks == [] then Effect(store, [], 0)
    else ExecKey(kind, ExecKeys(kind, argv, store, picks[..|picks| - 1]),
                 ArgsOf(kind, argv, picks[|picks| - 1]))
  }

  function First(n: nat): (r: seq<nat>)
    ensures |r| == n && forall k :: 0 <= k < n ==> r[k] == k
  {
    if n == 0 then [] else First(n - 1) + [n - 1]
  }

  function ReplyOf(kind: Kind, e: Effect): Reply {
    match kind
    case Mget => Array(e.values)
    case Del => Integer(e.deleted)
    case Mset => Status(OK)
  }

  function KindOf(name: seq<byte>): Option<Kind> {
    var n := Lower(name);
    if n == "mget" then Some(Mget) else if n == "del" then Some(Del) else if n == "mset" then Some(Mset) else None
  }

  function Texts(rs: seq<Reply>): seq<seq<byte>>
    requires forall i :: 0 <= i < |rs| ==> rs[i].Bulk?
  {
    seq(|rs|, i requires 0 <= i < |rs| => rs[i].text)
  }

  function Serve(argv: seq<seq<byte>>, store: Store): (Store, Reply) {
    if argv == [] || KindOf(argv[0]) == None || !MultiKey(KindOf(argv[0]).value, argv) then (store, Error([])) else
    var kind := KindOf(argv[0]).value;
    var e := ExecKeys(kind, argv, store, First(KeyCount(kind, argv)));
    (e.store, ReplyOf(kind, e))
  }

  /** A server: decodes one request from the bytes it was sent and runs it on its store. */
  function Server(bytes: seq<byte>, store: Store): (Store, Reply) {
    var got := Drain(Start(bytes)).replies;
    if |got| == 1 && got[0].Array? && forall i :: 0 <= i < |got[0].elems| ==> got[0].elems[i].Bulk?
    then Serve(Texts(got[0].elems), store)
    else (store, Error([]))
  }

  ghost predicate Named(kind: Kind, argv: seq<seq<byte>>, n: nat, key: seq<byte>)
    requires MultiKey(kind, argv) && n <= KeyCount(kind, argv)
  {
    exists j :: 0 <= j < n && KeyAt(kind, argv, j) == key
  }

  // Keys the command does not name among its first n stay as they were.
  ghost predicate Spares(kind: Kind, argv: seq<seq<byte>>, n: nat, store: Store, after: Store)
    requires MultiKey(kind, argv) && n <= KeyCount(kind, argv)
  {
    forall k :: !Named(kind, argv, n, k) ==>
      (k in after <==> k in store) && (k in store ==> after[k] == store[k])
  }

  // Each key has the last value it is named with.
  ghost predicate LastValues(argv: seq<seq<byte>>, n: nat, after: Store)
    requires MultiKey(Mset, argv) && n <= KeyCount(Mset, argv)
  {
    forall j :: 0 <= j < n && (forall i :: j < i < n ==> KeyAt(Mset, argv, i) != KeyAt(Mset, argv, j)) ==>
      KeyAt(Mset, argv, j) in after && after[KeyAt(Mset, argv, j)] == argv[2 * j + 2]
  }

  // What the first n keys of a command do to a store: MGET reads each of them; DEL takes them out and counts
  // how many there were; MSET gives each the last value it is named with.
  ghost predicate Does(kind: Kind, argv: seq<seq<byte>>, n: nat, store: Store, e: Effect)
    requires MultiKey(kind, argv) && n <= KeyCount(kind, argv)
  {
    Spares(kind, argv, n, store, e.store) &&
    match kind
    case Mget =>
      e.store == store && |e.values| == n
      && forall j :: 0 <= j < n ==> e.values[j] == Lookup(store, KeyAt(kind, argv, j))
    case Del =>
      (forall k :: Named(kind, argv, n, k) ==> k !in e.store) && |e.store| + e.deleted == |store|
    case Mset => LastValues(argv, n, e.store)
  }

  lemma NamedMore(kind: Kind, argv: seq<seq<byte>>, n: nat, key: seq<byte>)
    requires MultiKey(kind, argv) && n < KeyCount(kind, argv)
    ensures Named(kind, argv, n + 1, key) <==> Named(kind, argv, n, key) || key == KeyAt(kind, argv, n)
  {
  }

  lemma SparesMore(kind: Kind, argv: seq<seq<byte>>, n: nat, store: Store, mid: Store, after: Store)
    requires MultiKey(kind, argv) && n < KeyCount(kind, argv) && Spares(kind, argv, n, store, mid)
    requires forall k :: k != KeyAt(kind, argv, n) ==> (k in after <==> k in mid) && (k in mid ==> after[k] == mid[k])
    ensures Spares(kind, argv, n + 1, store, after)
  {
    hide Named;
    forall k | !Named(kind, argv, n + 1, k)
      ensures (k in after <==> k in store) && (k in store ==> after[k] == store[k])
    {
      NamedMore(kind, argv, n, k);
      assert !Named(kind, argv, n, k) && k != KeyAt(kind, argv, n);
    }
  }

  lemma GetsOne(argv: seq<seq<byte>>, n: nat, store: Store, e: Effect)
    requires MultiKey(Mget, argv) && n < KeyCount(Mget, argv) && Does(Mget, argv, n, store, e)
    ensures Does(Mget, argv, n + 1, store, ExecKey(Mget, e, ArgsOf(Mget, argv, n)))
  {
    hide Named, Lookup;
  }

  lemma DeletesOne(argv: seq<seq<byte>>, n: nat, store: Store, e: Effect)
    requires MultiKey(Del, argv) && n < KeyCount(Del, argv) && Does(Del, argv, n, store, e)
    ensures Does(Del, argv, n + 1, store, ExecKey(Del, e, ArgsOf(Del, argv, n)))
  {
    hide Named, Spares;
    var key, after := KeyAt(Del, argv, n), ExecKey(Del, e, ArgsOf(Del, argv, n));
    forall k
      ensures Named(Del, argv, n + 1, k) <==> Named(Del, argv, n, k) || k == key
    {
      NamedMore(Del, argv, n, k);
    }
    assert ArgsOf(Del, argv, n)[0] == key;
    if key in e.store {
      assert e.store == after.store[key := e.store[key]];
    }
    SparesMore(Del, argv, n, store, e.store, after.store);
  }

  lemma SetsOne(argv: seq<seq<byte>>, n: nat, store: Store, e: Effect)
    requires MultiKey(Mset, argv) && n < KeyCount(Mset, argv) && Does(Mset, argv, n, store, e)
    ensures Does(Mset, argv, n + 1, store, ExecKey(Mset, e, ArgsOf(Mset, argv, n)))
  {
    hide Named, Spares;
    var key, after := KeyAt(Mset, argv, n), e.store[KeyAt(Mset, argv, n) := argv[2 * n + 2]];
    assert ExecKey(Mset, e, ArgsOf(Mset, argv, n)).store == after;
    SparesMore(Mset, argv, n, store, e.store, after);
    forall j | 0 <= j < n + 1 && forall i :: j < i < n + 1 ==> KeyAt(Mset, argv, i) != KeyAt(Mset, argv, j)
      ensures KeyAt(Mset, argv, j) in after && after[KeyAt(Mset, argv, j)] == argv[2 * j + 2]
    {
      assert j < n ==> KeyAt(Mset, argv, n) != KeyAt(Mset, argv, j);
    }
  }

  lemma ExecMore(kind: Kind, argv: seq<seq<byte>>, store: Store, n: nat)
    requires MultiKey(kind, argv) && n < KeyCount(kind, argv)
    ensures ExecKeys(kind, argv, store, First(n + 1))
         == ExecKey(kind, ExecKeys(kind, argv, store, First(n)), ArgsOf(kind, argv, n))
  {
    hide ExecKey, ArgsOf;
    assert First(n + 1)[..n] == First(n) && First(n + 1)[n] == n;
  }

  lemma DoesOne(kind: Kind, argv: seq<seq<byte>>, n: nat, store: Store, e: Effect)
    requires MultiKey(kind, argv) && n < KeyCount(kind, argv) && Does(kind, argv, n, store, e)
    ensures Does(kind, argv, n + 1, store, ExecKey(kind, e, ArgsOf(kind, argv, n)))
  {
    hide Does, ExecKey, ArgsOf;
    match kind
    case Mget => GetsOne(argv, n, store, e);
    case Del => DeletesOne(argv, n, store, e);
    case Mset => SetsOne(argv, n, store, e);
  }

  lemma DoesNothing(kind: Kind, argv: seq<seq<byte>>, store: Store)
    requires MultiKey(kind, argv)
    ensures Does(kind, argv, 0, store, ExecKeys(kind, argv, store, First(0)))
  {
    assert First(0) == [];
  }

  /** What a server does with a multi-key command. */
  lemma {:induction false} ServerDoes(kind: Kind, argv: seq<seq<byte>>, store: Store, n: nat)
    requires MultiKey(kind, argv) && n <= KeyCount(kind, argv)
    ensures Does(kind, argv, n, store, ExecKeys(kind, argv, store, First(n)))
    decreases n
  {
    hide Does, ExecKey, ArgsOf, ExecKeys, First, MultiKey;
    if n == 0 {
      DoesNothing(kind, argv, store);
    } else {
      ServerDoes(kind, argv, store, n - 1);
      ExecMore(kind, argv, store, n - 1);
      DoesOne(kind, argv, n - 1, store, ExecKeys(kind, argv, store, First(n - 1)));
    }
  }

  /** The server understands what the formatter and the fragment builder write. */
  lemma ServerRuns(kind: Kind, argv: seq<seq<byte>>, store: Store)
    requires MultiKey(kind, argv) && KindOf(argv[0]) == Some(kind)
    ensures var e := ExecKeys(kind, argv, store, First(KeyCount(kind, argv)));
            Server(Format(argv), store) == (e.store, ReplyOf(kind, e)) == Serve(argv, store)
  {
    hide Print, Drain;
    FormatIsPrint(argv);
    RoundTrip(Array(Bulks(argv)));
    assert Texts(Bulks(argv)) == argv;
  }

  lemma NameOfKind(kind: Kind)
    ensures KindOf(Name(kind)) == Some(kind)
  {
    match kind
    case Mget => assert Lower(Name(kind)) == "mget";
    case Del => assert Lower(Name(kind)) == "del";
    case Mset => assert Lower(Name(kind)) == "mset";
  }

  // ---------------------------------------------------------------- a fragment runs its own keys

  lemma {:induction false} SameArgsSameEffect(kind: Kind, a: seq<seq<byte>>, p: seq<nat>,
                                              b: seq<seq<byte>>, q: seq<nat>, store: Store)
    requires MultiKey(kind, a) && forall k :: 0 <= k < |p| ==> p[k] < KeyCount(kind, a)
    requires MultiKey(kind, b) && forall k :: 0 <= k < |q| ==> q[k] < KeyCount(kind, b)
    requires |p| == |q| && forall k :: 0 <= k < |p| ==> ArgsOf(kind, a, p[k]) == ArgsOf(kind, b, q[k])
    ensures ExecKeys(kind, a, store, p) == ExecKeys(kind, b, store, q)
    decreases |p|
  {
    hide ExecKey, ArgsOf;
    if p != [] {
      SameArgsSameEffect(kind, a, p[..|p| - 1], b, q[..|q| - 1], store);
    }
  }

  lemma {:induction false} PickArgsAt(kind: Kind, argv: seq<seq<byte>>, picks: seq<nat>, k: nat)
    requires MultiKey(kind, argv) && forall k :: 0 <= k < |picks| ==> picks[k] < KeyCount(kind, argv)
    requires k < |picks|
    ensures kind == Mset ==>
              PickArgs(kind, argv, picks)[2 * k] == argv[2 * picks[k] + 1]
              && PickArgs(kind, argv, picks)[2 * k + 1] == argv[2 * picks[k] + 2]
    ensures kind != Mset ==> PickArgs(kind, argv, picks)[k] == argv[picks[k] + 1]
    decreases |picks|
  {
    if k < |picks| - 1 {
      PickArgsAt(kind, argv, picks[..|picks| - 1], k);
    }
  }

  lemma FragmentArgs(kind: Kind, argv: seq<seq<byte>>, picks: seq<nat>, k: nat)
    requires MultiKey(kind, argv) && forall k :: 0 <= k < |picks| ==> picks[k] < KeyCount(kind, argv)
    requires k < |picks|
    ensures var a := [Name(kind)] + PickArgs(kind, argv, picks);
            KeyCount(kind, a) == |picks| && ArgsOf(kind, a, k) == ArgsOf(kind, argv, picks[k])
  {
    PickArgsAt(kind, argv, picks, k);
    hide PickArgs;
  }

  /** A fragment's bytes make the server run exactly that slot's keys of the original command. */
  lemma FragmentEffect(kind: Kind, argv: seq<seq<byte>>, picks: seq<nat>, store: Store)
    requires MultiKey(kind, argv) && forall k :: 0 <= k < |picks| ==> picks[k] < KeyCount(kind, argv)
    requires picks != []
    ensures var e := ExecKeys(kind, argv, store, picks);
            Server(Format([Name(kind)] + PickArgs(kind, argv, picks)), store) == (e.store, ReplyOf(kind, e))
  {
    hide KindOf, PickArgs, Server, Format, ExecKeys, ArgsOf, Name;
    var a := [Name(kind)] + PickArgs(kind, argv, picks);
    NameOfKind(kind);
    ServerRuns(kind, a, store);
    forall k | 0 <= k < |picks|
      ensures ArgsOf(kind, a, First(|picks|)[k]) == ArgsOf(kind, argv, picks[k])
    {
      FragmentArgs(kind, argv, picks, k);
    }
    SameArgsSameEffect(kind, a, First(|picks|), argv, picks, store);
  }

  // ---------------------------------------------------------------- one step at a time

  // The undivided store and the stores of the slots hold the same keys.
  ghost predicate Holds(whole: Store, stores: seq<Store>)
    requires |stores| == SLOTS
  {
    forall k :: Agree(whole, stores[Slot(k)], k)
  }

  predicate Agree(a: Store, b: Store, k: seq<byte>) {
    (k in a <==> k in b) && (k in a ==> a[k] == b[k])
  }

  function SlotEffect(kind: Kind, argv: seq<seq<byte>>, stores: seq<Store>, slot: nat, n: nat): Effect
    requires MultiKey(kind, argv) && n <= KeyCount(kind, argv) && slot < |stores|
  {
    ExecKeys(kind, argv, stores[slot], Picks(kind, argv, slot, n))
  }

  function Deleted(kind: Kind, argv: seq<seq<byte>>, stores: seq<Store>, slot: nat, n: nat): nat
    requires MultiKey(kind, argv) && n <= KeyCount(kind, argv) && |stores| == SLOTS
    decreases SLOTS - slot
  {
    if slot >= SLOTS then 0
    else SlotEffect(kind, argv, stores, slot, n).deleted + Deleted(kind, argv, stores, slot + 1, n)
  }

  function WholeEffect(kind: Kind, argv: seq<seq<byte>>, whole: Store, n: nat): Effect
    requires MultiKey(kind, argv) && n <= KeyCount(kind, argv)
  {
    ExecKeys(kind, argv, whole, First(n))
  }

  lemma WholeStep(kind: Kind, argv: seq<seq<byte>>, whole: Store, n: nat)
    requires MultiKey(kind, argv) && n < KeyCount(kind, argv)
    ensures WholeEffect(kind, argv, whole, n + 1)
         == ExecKey(kind, WholeEffect(kind, argv, whole, n), ArgsOf(kind, argv, n))
  {
    hide ExecKey, ArgsOf;
    assert First(n + 1)[..n] == First(n);
  }

  lemma SlotStep(kind: Kind, argv: seq<seq<byte>>, stores: seq<Store>, slot: nat, n: nat)
    requires MultiKey(kind, argv) && n < KeyCount(kind, argv) && slot < |stores|
    ensures SlotEffect(kind, argv, stores, slot, n + 1) ==
            if Slot(KeyAt(kind, argv, n)) == slot
            then ExecKey(kind, SlotEffect(kind, argv, stores, slot, n), ArgsOf(kind, argv, n))
            else SlotEffect(kind, argv, stores, slot, n)
  {
    hide Slot, KeyAt, ExecKey, ArgsOf;
    var picks := Picks(kind, argv, slot, n);
    assert (picks + [n])[..|picks|] == picks;
    assert picks + [] == picks;
  }

  /** How many keys the n-th key removes from its slot. */
  function Gain(kind: Kind, argv: seq<seq<byte>>, stores: seq<Store>, n: nat): int
    requires MultiKey(kind, argv) && n < KeyCount(kind, argv) && |stores| == SLOTS
  {
    var s := Slot(KeyAt(kind, argv, n));
    SlotEffect(kind, argv, stores, s, n + 1).deleted - SlotEffect(kind, argv, stores, s, n).deleted
  }

  lemma {:induction false} DeletedStep(kind: Kind, argv: seq<seq<byte>>, stores: seq<Store>, slot: nat, n: nat)
    requires MultiKey(kind, argv) && n < KeyCount(kind, argv) && |stores| == SLOTS
    ensures Deleted(kind, argv, stores, slot, n + 1) == Deleted(kind, argv, stores, slot, n)
              + (if slot <= Slot(KeyAt(kind, argv, n)) then Gain(kind, argv, stores, n) else 0)
    decreases SLOTS - slot
  {
    hide Slot, KeyAt, SlotEffect;
    var s := Slot(KeyAt(kind, argv, n));
    assert s < SLOTS;
    if slot < SLOTS {
      DeletedStep(kind, argv, stores, slot + 1, n);
      if slot != s {
        SlotStep(kind, argv, stores, slot, n);
      }
    }
  }

  // The state of both runs after the first n keys: stores agree, every value read so far is the same
  // on both sides, and so is the number of keys removed.
  ghost predicate InStep(kind: Kind, argv: seq<seq<byte>>, whole: Store, stores: seq<Store>, n: nat)
    requires MultiKey(kind, argv) && n <= KeyCount(kind, argv) && |stores| == SLOTS
  {
    && StoresInStep(kind, argv, whole, stores, n)
    && WholeEffect(kind, argv, whole, n).deleted == Deleted(kind, argv, stores, 0, n)
    && (kind == Mget ==> ValuesInStep(kind, argv, whole, stores, n))
  }

  ghost predicate StoresInStep(kind: Kind, argv: seq<seq<byte>>, whole: Store, stores: seq<Store>, n: nat)
    requires MultiKey(kind, argv) && n <= KeyCount(kind, argv) && |stores| == SLOTS
  {
    forall k :: Agree(WholeEffect(kind, argv, whole, n).store, SlotEffect(kind, argv, stores, Slot(k), n).store, k)
  }

  ghost predicate ValuesInStep(kind: Kind, argv: seq<seq<byte>>, whole: Store, stores: seq<Store>, n: nat)
    requires MultiKey(kind, argv) && n <= KeyCount(kind, argv) && |stores| == SLOTS
  {
    var values := WholeEffect(kind, argv, whole, n).values;
    && |values| == n
    && (forall s :: 0 <= s < SLOTS ==>
          |SlotEffect(kind, argv, stores, s, n).values| == |Picks(kind, argv, s, n)|)
    && (forall j :: 0 <= j < n ==> SameValue(kind, argv, values[j], stores, j, n))
  }

  // Key j's value stands in its slot's values where j stands among the slot's keys.
  ghost predicate SameValue(kind: Kind, argv: seq<seq<byte>>, r: Reply, stores: seq<Store>, j: nat, n: nat)
    requires MultiKey(kind, argv) && j < n <= KeyCount(kind, argv) && |stores| == SLOTS
  {
    var s := Slot(KeyAt(kind, argv, j));
    var at := |Picks(kind, argv, s, j)|;
    at < |SlotEffect(kind, argv, stores, s, n).values|
    && r == SlotEffect(kind, argv, stores, s, n).values[at]
  }

  lemma StartInStep(kind: Kind, argv: seq<seq<byte>>, whole: Store, stores: seq<Store>)
    requires MultiKey(kind, argv) && |stores| == SLOTS && Holds(whole, stores)
    ensures InStep(kind, argv, whole, stores, 0)
  {
    hide Slot;
    NothingDeleted(kind, argv, stores, 0);
  }

  lemma {:induction false} NothingDeleted(kind: Kind, argv: seq<seq<byte>>, stores: seq<Store>, slot: nat)
    requires MultiKey(kind, argv) && |stores| == SLOTS
    ensures Deleted(kind, argv, stores, slot, 0) == 0
    decreases SLOTS - slot
  {
    hide Slot;
    if slot < SLOTS {
      NothingDeleted(kind, argv, stores, slot + 1);
    }
  }

  /** The n-th key has the same effect on the undivided store and on its slot's store. */
  lemma {:induction false} StoresStep(kind: Kind, argv: seq<seq<byte>>, whole: Store, stores: seq<Store>, n: nat)
    requires MultiKey(kind, argv) && n < KeyCount(kind, argv) && |stores| == SLOTS
    requires InStep(kind, argv, whole, stores, n)
    ensures StoresInStep(kind, argv, whole, stores, n + 1)
    ensures WholeEffect(kind, argv, whole, n + 1).deleted - WholeEffect(kind, argv, whole, n).deleted
         == Gain(kind, argv, stores, n)
    ensures kind == Mget ==>
              WholeEffect(kind, argv, whole, n + 1).values
                == WholeEffect(kind, argv, whole, n).values + [Lookup(WholeEffect(kind, argv, whole, n).store,
                  KeyAt(kind, argv, n))]
              && Lookup(WholeEffect(kind, argv, whole, n).store, KeyAt(kind, argv, n))
                == Lookup(SlotEffect(kind, argv, stores, Slot(KeyAt(kind, argv, n)), n).store, KeyAt(kind, argv, n))
  {
    hide Slot, WholeEffect, SlotEffect, Picks;
    var key := KeyAt(kind, argv, n);
    var w, s := WholeEffect(kind, argv, whole, n), SlotEffect(kind, argv, stores, Slot(key), n);
    assert Agree(w.store, s.store, key);
    WholeStep(kind, argv, whole, n);
    SlotStep(kind, argv, stores, Slot(key), n);
    forall k
      ensures Agree(WholeEffect(kind, argv, whole, n + 1).store,
                    SlotEffect(kind, argv, stores, Slot(k), n + 1).store, k)
    {
      SlotStep(kind, argv, stores, Slot(k), n);
      assert Agree(w.store, SlotEffect(kind, argv, stores, Slot(k), n).store, k);
    }
  }

  lemma {:induction false} ValuesStep(kind: Kind, argv: seq<seq<byte>>, whole: Store, stores: seq<Store>, n: nat)
    requires MultiKey(kind, argv) && n < KeyCount(kind, argv) && |stores| == SLOTS
    requires InStep(kind, argv, whole, stores, n) && kind == Mget
    ensures ValuesInStep(kind, argv, whole, stores, n + 1)
  {
    StoresStep(kind, argv, whole, stores, n);
    hide Slot, WholeEffect, SlotEffect, StoresInStep, KeyAt;
    var w := WholeEffect(kind, argv, whole, n + 1).values;
    var m := n + 1;
    forall s | 0 <= s < SLOTS
      ensures |SlotEffect(kind, argv, stores, s, m).values| == |Picks(kind, argv, s, m)|
    {
      LengthStep(kind, argv, stores, s, n);
    }
    forall j | 0 <= j < n + 1
      ensures SameValue(kind, argv, w[j], stores, j, n + 1)
    {
      if j < n {
        assert SameValue(kind, argv, w[j], stores, j, n);
      }
      ValueKept(kind, argv, w[j], stores, j, n);
    }
  }

  lemma LengthStep(kind: Kind, argv: seq<seq<byte>>, stores: seq<Store>, s: nat, n: nat)
    requires MultiKey(kind, argv) && n < KeyCount(kind, argv) && s < |stores| && kind == Mget
    requires |SlotEffect(kind, argv, stores, s, n).values| == |Picks(kind, argv, s, n)|
    ensures |SlotEffect(kind, argv, stores, s, n + 1).values| == |Picks(kind, argv, s, n + 1)|
  {
    hide Slot, SlotEffect, KeyAt;
    SlotStep(kind, argv, stores, s, n);
  }

  /** A slot's values only grow at the end; the n-th key's value is the one appended to its slot. */
  lemma {:induction false} ValueKept(kind: Kind, argv: seq<seq<byte>>, r: Reply, stores: seq<Store>, j: nat, n: nat)
    requires MultiKey(kind, argv) && j <= n < KeyCount(kind, argv) && |stores| == SLOTS && kind == Mget
    requires j < n ==> SameValue(kind, argv, r, stores, j, n)
    requires j == n ==>
               var e := SlotEffect(kind, argv, stores, Slot(KeyAt(kind, argv, n)), n);
               r == Lookup(e.store, KeyAt(kind, argv, n))
               && |e.values| == |Picks(kind, argv, Slot(KeyAt(kind, argv, n)), n)|
    ensures SameValue(kind, argv, r, stores, j, n + 1)
  {
    hide Slot, SlotEffect, Picks;
    SlotStep(kind, argv, stores, Slot(KeyAt(kind, argv, j)), n);
  }

  lemma {:induction false} AllInStep(kind: Kind, argv: seq<seq<byte>>, whole: Store, stores: seq<Store>, n: nat)
    requires MultiKey(kind, argv) && n <= KeyCount(kind, argv) && |stores| == SLOTS && Holds(whole, stores)
    ensures InStep(kind, argv, whole, stores, n)
  {
    hide Slot, WholeEffect, SlotEffect, Deleted, StoresInStep, ValuesInStep, Gain;
    if n == 0 {
      StartInStep(kind, argv, whole, stores);
    } else {
      AllInStep(kind, argv, whole, stores, n - 1);
      StoresStep(kind, argv, whole, stores, n - 1);
      DeletedStep(kind, argv, stores, 0, n - 1);
      if kind == Mget {
        ValuesStep(kind, argv, whole, stores, n - 1);
      }
    }
  }
}
