// A fragment is again a well-formed request: the parser reads back the command and the slot's keys.

module FragmentReparse {
  import opened Bytes
  import opened Formatter
  import opened Command
  import opened CommandRoundTrip
  import opened KeySlot
  import opened Fragments
  import opened ScatterGather
  import opened ClusterCommand
  import FragmentBuilder

  lemma SameCommand(name: seq<byte>, kind: Kind)
    requires KindOf(name) == Some(kind)
    ensures CommandOf(name) == CommandOf(Name(kind))
  {
    hide ArityOf;
    NameOfKind(kind);
  }

  lemma PicksFit(kind: Kind, argv: seq<seq<byte>>, slot: nat)
    requires MultiKey(kind, argv) && Fits32(argv)
    requires Picks(kind, argv, slot, KeyCount(kind, argv)) != []
    ensures MultiKey(kind, SlotArgv(kind, argv, slot)) && Fits32(SlotArgv(kind, argv, slot))
  {
    hide Slot, KeyAt;
    var picks := Picks(kind, argv, slot, KeyCount(kind, argv));
    FragmentBuilder.PicksCount(kind, argv, slot, KeyCount(kind, argv));
    PickedArgsShort(kind, argv, picks);
  }

  lemma {:induction false} PickedArgsShort(kind: Kind, argv: seq<seq<byte>>, picks: seq<nat>)
    requires MultiKey(kind, argv) && Fits32(argv) && forall k :: 0 <= k < |picks| ==> picks[k] < KeyCount(kind, argv)
    ensures forall i :: 0 <= i < |PickArgs(kind, argv, picks)| ==> |PickArgs(kind, argv, picks)[i]| < UINT32
  {
    if picks != [] {
      PickedArgsShort(kind, argv, picks[..|picks| - 1]);
    }
  }

  lemma SlotKeyAt(kind: Kind, argv: seq<seq<byte>>, slot: nat, k: nat)
    requires MultiKey(kind, argv) && k < |Picks(kind, argv, slot, KeyCount(kind, argv))|
    ensures var picks := Picks(kind, argv, slot, KeyCount(kind, argv));
            SlotArgv(kind, argv, slot)[KeyArg(kind, k)] == KeyAt(kind, argv, picks[k])
  {
    hide Slot;
    PickArgsAt(kind, argv, Picks(kind, argv, slot, KeyCount(kind, argv)), k);
  }

  /** Parsing a fragment gives the original command type and exactly the keys of its slot, in order. */
  lemma {:induction false} FragmentReparses(kind: Kind, argv: seq<seq<byte>>, slot: nat)
    requires MultiKey(kind, argv) && Fits32(argv) && KindOf(argv[0]) == Some(kind)
    requires Picks(kind, argv, slot, KeyCount(kind, argv)) != []
    ensures var picks := Picks(kind, argv, slot, KeyCount(kind, argv));
            var bytes := Format(SlotArgv(kind, argv, slot));
            var o := Run(bytes, INIT);
            && o.Accepted? && o.f.ty == CommandOf(argv[0])
            && |o.f.keys| == |picks|
            && forall k :: 0 <= k < |picks| ==>
                 o.f.keys[k].start <= o.f.keys[k].end < |bytes|
                 && bytes[o.f.keys[k].start..o.f.keys[k].end] == KeyAt(kind, argv, picks[k])
  {
    hide Slot, Run, Format, ArityOf, KindOf, KeyRange, KeyAt, PickArgs;
    var a, picks := SlotArgv(kind, argv, slot), Picks(kind, argv, slot, KeyCount(kind, argv));
    NameOfKind(kind);
    SameCommand(argv[0], kind);
    KindIsCommand(a[0], kind);
    PicksFit(kind, argv, slot);
    ParseFormatted(a);
    KeysFromRanges(kind, a, CommandOf(a[0]).value.arity);
    forall k | 0 <= k < |picks|
      ensures var r := KeyRange(a, KeyArg(kind, k));
              r.start <= r.end < |Format(a)| && Format(a)[r.start..r.end] == KeyAt(kind, argv, picks[k])
    {
      KeyRangeBytes(a, KeyArg(kind, k));
      KeyRangeLength(a, KeyArg(kind, k));
      SlotKeyAt(kind, argv, slot, k);
    }
  }
}
