// Cutting a multi-key request into one request per hash slot, each built in a buffer sized beforehand.

module Fragments {
  import opened Bytes
  import opened Formatter
  import opened Command
  import opened CommandRoundTrip
  import opened KeySlot
  import opened Numerals

  datatype Kind = Mget | Del | Mset

  /** The name written into a fragment. */
  function Name(kind: Kind): seq<byte> {
    match kind
    case Mget => [109, 103, 101, 116]
    case Del => [100, 101, 108]
    case Mset => [109, 115, 101, 116]
  }

  // A request of this kind: a name and its keys, or key-value pairs.
  predicate MultiKey(kind: Kind, argv: seq<seq<byte>>) {
    |argv| >= 2 && (kind == Mset ==> |argv| % 2 == 1)
  }

  function KeyCount(kind: Kind, argv: seq<seq<byte>>): nat
    requires MultiKey(kind, argv)
  {
    if kind == Mset then |argv| / 2 else |argv| - 1
  }

  /** Which argument the j-th key is. */
  function KeyArg(kind: Kind, j: nat): nat { if kind == Mset then 2 * j + 1 else j + 1 }

  function KeyAt(kind: Kind, argv: seq<seq<byte>>, j: nat): seq<byte>
    requires MultiKey(kind, argv) && j < KeyCount(kind, argv)
  {
    argv[KeyArg(kind, j)]
  }

  /** The arguments the j-th key stands for: itself, or itself and its value. */
  function ArgsOf(kind: Kind, argv: seq<seq<byte>>, j: nat): seq<seq<byte>>
    requires MultiKey(kind, argv) && j < KeyCount(kind, argv)
  {
    if kind == Mset then [argv[2 * j + 1], argv[2 * j + 2]] else [argv[j + 1]]
  }

  /** The numbers of the keys in a slot among the first n, ascending. */
  function Picks(kind: Kind, argv: seq<seq<byte>>, slot: nat, n: nat): (r: seq<nat>)
    requires MultiKey(kind, argv) && n <= KeyCount(kind, argv)
    ensures forall k :: 0 <= k < |r| ==> r[k] < n
  {
    if n == 0 then [] else
    Picks(kind, argv, slot, n - 1) + (if Slot(KeyAt(kind, argv, n - 1)) == slot then [n - 1] else [])
  }

  /** Picks partitions the keys: each key is picked once, by its own slot, and order is kept. */
  lemma {:induction false} PicksPartition(kind: Kind, argv: seq<seq<byte>>, slot: nat, n: nat)
    requires MultiKey(kind, argv) && n <= KeyCount(kind, argv)
    ensures var r := Picks(kind, argv, slot, n);
            && (forall k, l :: 0 <= k < l < |r| ==> r[k] < r[l])
            && (forall j :: 0 <= j < n ==> (j in r <==> Slot(KeyAt(kind, argv, j)) == slot))
  {
    hide Slot, KeyAt;
    if n > 0 {
      PicksPartition(kind, argv, slot, n - 1);
      var was, r := Picks(kind, argv, slot, n - 1), Picks(kind, argv, slot, n);
      assert forall j :: j in r <==> j in was || (j == n - 1 && Slot(KeyAt(kind, argv, n - 1)) == slot);
    }
  }

  function PickArgs(kind: Kind, argv: seq<seq<byte>>, picks: seq<nat>): (r: seq<seq<byte>>)
    requires MultiKey(kind, argv) && forall k :: 0 <= k < |picks| ==> picks[k] < KeyCount(kind, argv)
    ensures |r| == (if kind == Mset then 2 * |picks| else |picks|)
  {
    if picks == [] then []
    else PickArgs(kind, argv, picks[..|picks| - 1]) + ArgsOf(kind, argv, picks[|picks| - 1])
  }

  /** The request a slot gets: the same command with just that slot's keys, in the original order. */
  function SlotArgv(kind: Kind, argv: seq<seq<byte>>, slot: nat): seq<seq<byte>>
    requires MultiKey(kind, argv)
  {
    [Name(kind)] + PickArgs(kind, argv, Picks(kind, argv, slot, KeyCount(kind, argv)))
  }

  datatype Fragment = Fragment(slot: SlotNo, bytes: seq<byte>)

  /** What the fragments must be: one per slot that has a key, in slot order. */
  function FragmentsFrom(kind: Kind, argv: seq<seq<byte>>, slot: nat): seq<Fragment>
    requires MultiKey(kind, argv)
    decreases SLOTS - slot
  {
    if slot >= SLOTS then [] else
    (if Picks(kind, argv, slot, KeyCount(kind, argv)) == [] then []
     else [Fragment(slot, Format(SlotArgv(kind, argv, slot)))])
    + FragmentsFrom(kind, argv, slot + 1)
  }

  // ---------------------------------------------------------------- the code

  // A key of a sub-command: its range in the original request and, for MSET, how many bytes
  // follow it up to the end of its value.
  datatype SubKey = SubKey(start: nat, end: nat, remain: nat)

  // A sub-command as the first loop leaves it: its keys and the length they contribute.
  datatype Sub = Sub(narg: nat, clen: nat, keys: seq<SubKey>, slot: nat)

  function Remain(kind: Kind, argv: seq<seq<byte>>, j: nat): nat
    requires MultiKey(kind, argv) && j < KeyCount(kind, argv)
  {
    if kind == Mset then 2 + |Argument(argv[2 * j + 2])| else 0
  }

  function SubKeyOf(kind: Kind, argv: seq<seq<byte>>, j: nat): SubKey
    requires MultiKey(kind, argv) && j < KeyCount(kind, argv)
  {
    var r := KeyRange(argv, KeyArg(kind, j));
    SubKey(r.start, r.end, Remain(kind, argv, j))
  }

  function FixedPart(kind: Kind): nat { if kind == Mset then 3 else 5 }

  // The sub-command a slot has after some keys have been dealt out.
  ghost predicate SubOf(sub: Sub, kind: Kind, argv: seq<seq<byte>>, slot: nat, picks: seq<nat>)
    requires MultiKey(kind, argv) && forall k :: 0 <= k < |picks| ==> picks[k] < KeyCount(kind, argv)
  {
    && sub.slot == slot && sub.narg == |picks| == |sub.keys|
    && (forall k :: 0 <= k < |picks| ==> sub.keys[k] == SubKeyOf(kind, argv, picks[k]))
    && sub.clen + FixedPart(kind) * |picks| == |Arguments(PickArgs(kind, argv, picks))|
  }

  ghost predicate Dealt(e: Option<Sub>, kind: Kind, argv: seq<seq<byte>>, slot: nat, n: nat)
    requires MultiKey(kind, argv) && n <= KeyCount(kind, argv)
  {
    var picks := Picks(kind, argv, slot, n);
    if e == None then picks == [] else picks != [] && SubOf(e.value, kind, argv, slot, picks)
  }

  lemma {:induction false} PickOneMore(kind: Kind, argv: seq<seq<byte>>, picks: seq<nat>, j: nat)
    requires MultiKey(kind, argv) && j < KeyCount(kind, argv)
    requires forall k :: 0 <= k < |picks| ==> picks[k] < KeyCount(kind, argv)
    ensures PickArgs(kind, argv, picks + [j]) == PickArgs(kind, argv, picks) + ArgsOf(kind, argv, j)
    ensures Arguments(PickArgs(kind, argv, picks + [j]))
         == Arguments(PickArgs(kind, argv, picks)) + Arguments(ArgsOf(kind, argv, j))
    ensures Arguments(ArgsOf(kind, argv, j)) ==
            if kind == Mset then Argument(argv[2 * j + 1]) + Argument(argv[2 * j + 2]) else Argument(argv[j + 1])
  {
    hide Argument;
    assert (picks + [j])[..|picks|] == picks;
    ArgumentsAppend(PickArgs(kind, argv, picks), ArgsOf(kind, argv, j));
    if kind == Mset {
      ArgumentsAppend([argv[2 * j + 1]], [argv[2 * j + 2]]);
      assert ArgsOf(kind, argv, j) == [argv[2 * j + 1]] + [argv[2 * j + 2]];
    }
  }

  /** Reads the numeral that starts at `from`, up to the first byte that is not a digit. */
  method ReadDigits(cmd: seq<byte>, from: nat, ghost d: seq<byte>) returns (len: nat, p: nat)
    requires from + |d| < |cmd| && cmd[from..from + |d|] == d && AllDigits(d) && DecValue(d) < UINT32
    requires !IsDigit(cmd[from + |d|])
    ensures len == DecValue(d) && p == from + |d|
  {
    assert forall k :: 0 <= k < |d| ==> cmd[from + k] == cmd[from..from + |d|][k] == d[k];
    len, p := 0, from;
    ghost var k := 0;
    while IsDigit(cmd[p])
      invariant p == from + k <= from + |d| && len == DecValue(d[..k])
      decreases |cmd| - p
    {
      hide DecValue;
      RegisterFits(d, k);
      len := (len * 10 + (cmd[p] - ZERO)) % UINT32;
      p := p + 1;
      k := k + 1;
    }
    assert d[..|d|] == d;
  }

  lemma ValueFollowsKey(argv: seq<seq<byte>>, i: nat)
    requires i + 1 < |argv|
    ensures var cmd, end, v := Format(argv), KeyRange(argv, i).end, argv[i + 1];
            && end + 2 + |Argument(v)| <= |cmd|
            && cmd[end] == CR && cmd[end + 1] == LF && cmd[end + 2] == DOLLAR
            && cmd[end + 3..end + 3 + |Dec(|v|)|] == Dec(|v|) && cmd[end + 3 + |Dec(|v|)|] == CR
  {
    ArgumentBytes(argv, i);
    ArgumentBytes(argv, i + 1);
    Layout(argv, i + 1);
  }

  /** Finds how far the value reaches: skips to the length's digits, reads them, and adds the value
      and the two line ends around it. */
  method ScanValue(cmd: seq<byte>, end: nat, ghost argv: seq<seq<byte>>, ghost i: nat) returns (remain: nat)
    requires Fits32(argv) && i + 1 < |argv|
    requires cmd == Format(argv) && end == KeyRange(argv, i).end
    ensures remain == 2 + |Argument(argv[i + 1])|
  {
    hide Format, KeyRange, Dec;
    ghost var d := Dec(|argv[i + 1]|);
    ValueFollowsKey(argv, i);
    assert IsDigit(cmd[end + 3]) by {
      assert cmd[end + 3] == cmd[end + 3..end + 3 + |d|][0] == d[0];
    }
    var p := end + 1;
    while !IsDigit(cmd[p])
      invariant end + 1 <= p <= end + 3
      decreases end + 3 - p
    {
      p := p + 1;
    }
    DecRoundTrip(|argv[i + 1]|);
    var len;
    len, p := ReadDigits(cmd, p, d);
    return len + 2 * 2 + (p - end);
  }

  // ---------------------------------------------------------------- dealing the keys out

  /** A slot's sub-command after one more key, which adds `added` bytes to its length. */
  function Extend(e: Option<Sub>, slot: nat, key: SubKey, added: nat): Sub {
    var sub := if e == None then Sub(0, 0, [], slot) else e.value;
    Sub(sub.narg + 1, sub.clen + added, sub.keys + [key], slot)
  }

  /** A key adds its own length, its numeral's, its value's, and a fixed part that is added later. */
  lemma AddedLength(kind: Kind, argv: seq<seq<byte>>, picks: seq<nat>, n: nat)
    requires MultiKey(kind, argv) && n < KeyCount(kind, argv)
    requires forall k :: 0 <= k < |picks| ==> picks[k] < KeyCount(kind, argv)
    ensures |Arguments(PickArgs(kind, argv, picks + [n]))|
         == |Arguments(PickArgs(kind, argv, picks))| + FixedPart(kind)
            + |KeyAt(kind, argv, n)| + |Dec(|KeyAt(kind, argv, n)|)| + Remain(kind, argv, n)
  {
    PickOneMore(kind, argv, picks, n);
  }

  lemma {:induction false} DealtMore(e: Option<Sub>, kind: Kind, argv: seq<seq<byte>>, n: nat, added: nat)
    requires MultiKey(kind, argv) && n < KeyCount(kind, argv)
    requires Dealt(e, kind, argv, Slot(KeyAt(kind, argv, n)), n)
    requires added == |KeyAt(kind, argv, n)| + |Dec(|KeyAt(kind, argv, n)|)| + Remain(kind, argv, n)
    ensures var slot := Slot(KeyAt(kind, argv, n));
            Dealt(Some(Extend(e, slot, SubKeyOf(kind, argv, n), added)), kind, argv, slot, n + 1)
  {
    hide Slot, KeyAt, Remain, SubKeyOf, Arguments, PickArgs;
    var slot := Slot(KeyAt(kind, argv, n));
    var picks := Picks(kind, argv, slot, n);
    AddedLength(kind, argv, picks, n);
    if e == None {
      NoArguments(kind, argv);
    }
  }

  lemma NoArguments(kind: Kind, argv: seq<seq<byte>>)
    requires MultiKey(kind, argv)
    ensures Arguments(PickArgs(kind, argv, [])) == []
  {
  }

  lemma {:induction false} DealtSame(e: Option<Sub>, kind: Kind, argv: seq<seq<byte>>, slot: nat, n: nat)
    requires MultiKey(kind, argv) && n < KeyCount(kind, argv)
    requires Dealt(e, kind, argv, slot, n) && slot != Slot(KeyAt(kind, argv, n))
    ensures Dealt(e, kind, argv, slot, n + 1)
  {
    hide Slot, SubOf;
    assert Picks(kind, argv, slot, n + 1) == Picks(kind, argv, slot, n);
  }

  lemma NothingDealt(kind: Kind, argv: seq<seq<byte>>)
    requires MultiKey(kind, argv)
    ensures forall slot :: Dealt(None, kind, argv, slot, 0)
  {
  }

  // The key positions the parser records for such a request.
  ghost predicate KeysOf(keys: seq<KeyPos>, kind: Kind, argv: seq<seq<byte>>)
    requires MultiKey(kind, argv)
  {
    && |keys| == KeyCount(kind, argv)
    && forall j :: 0 <= j < |keys| ==> keys[j] == KeyRange(argv, KeyArg(kind, j))
  }

  /** The first loop: every key goes to the sub-command of its slot. */
  method DealKeys(cmd: seq<byte>, kind: Kind, keys: seq<KeyPos>, ghost argv: seq<seq<byte>>)
    returns (subs: array<Option<Sub>>, fragSeq: seq<nat>)
    requires MultiKey(kind, argv) && Fits32(argv) && cmd == Format(argv) && KeysOf(keys, kind, argv)
    ensures fresh(subs) && subs.Length == SLOTS
    ensures forall s :: 0 <= s < SLOTS ==> Dealt(subs[s], kind, argv, s, |keys|)
    ensures |fragSeq| == |keys| && forall j :: 0 <= j < |keys| ==> fragSeq[j] == Slot(KeyAt(kind, argv, j))
  {
    hide Slot, Format, KeyRange, SubOf, Argument, Dealt, IsSlotOf;
    subs := new Option<Sub>[SLOTS](_ => None);
    fragSeq := [];
    NothingDealt(kind, argv);
    for i := 0 to |keys|
      invariant forall s :: 0 <= s < SLOTS ==> Dealt(subs[s], kind, argv, s, i)
      invariant |fragSeq| == i && forall j :: 0 <= j < i ==> fragSeq[j] == Slot(KeyAt(kind, argv, j))
    {
      var kp := keys[i];
      KeyRangeBytes(argv, KeyArg(kind, i));
      KeyRangeLength(argv, KeyArg(kind, i));
      var slot := KeyHashSlot(cmd[kp.start..kp.end]);
      fragSeq := fragSeq + [slot];
      var keyLen := |cmd[kp.start..kp.end]|;
      var digits := UintLen(keyLen);
      var remain := 0;
      if kind == Mset {
        remain := ScanValue(cmd, kp.end, argv, KeyArg(kind, i));
      }
      DealtMore(subs[slot], kind, argv, i, keyLen + digits + remain);
      forall s | 0 <= s < SLOTS && s != slot
        ensures Dealt(subs[s], kind, argv, s, i + 1)
      {
        DealtSame(subs[s], kind, argv, s, i);
      }
      subs[slot] := Some(Extend(subs[slot], slot, SubKey(kp.start, kp.end, remain), keyLen + digits + remain));
    }
  }

  lemma KeyRangeLength(argv: seq<seq<byte>>, i: nat)
    requires i < |argv|
    ensures KeyRange(argv, i).end - KeyRange(argv, i).start == |argv[i]|
  {
  }
}
