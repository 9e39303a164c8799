// Writing the fragments: each buffer is sized before it is filled, and filled exactly.

module FragmentBuilder {
  import opened Bytes
  import opened Formatter
  import opened Command
  import opened CommandRoundTrip
  import opened KeySlot
  import opened Numerals
  import opened Fragments

  function KeyLens(kind: Kind, argv: seq<seq<byte>>, picks: seq<nat>): (r: seq<nat>)
    requires MultiKey(kind, argv) && forall k :: 0 <= k < |picks| ==> picks[k] < KeyCount(kind, argv)
    ensures |r| == |picks|
    ensures forall k :: 0 <= k < |r| ==> r[k] == |KeyAt(kind, argv, picks[k])|
  {
    seq(|picks|, k requires 0 <= k < |picks| => |KeyAt(kind, argv, picks[k])|)
  }

  function FragmentArgc(kind: Kind, n: nat): nat { if kind == Mset then 2 * n + 1 else n + 1 }

  /** Every length text of the fragment comes out as the plain numeral. */
  predicate NumeralsSafe(kind: Kind, argv: seq<seq<byte>>, picks: seq<nat>)
    requires MultiKey(kind, argv) && forall k :: 0 <= k < |picks| ==> picks[k] < KeyCount(kind, argv)
  {
    ZerosFollowDigits(FragmentArgc(kind, |picks|), KeyLens(kind, argv, picks))
  }

  lemma {:induction false} NoZerosSafe(prev: nat, lens: seq<nat>)
    requires forall k :: 0 <= k < |lens| ==> lens[k] > 0
    ensures ZerosFollowDigits(prev, lens)
    decreases |lens|
  {
    if lens != [] {
      NoZerosSafe(lens[0], lens[1..]);
    }
  }

  /** Requests whose keys are all non-empty are always written exactly. */
  lemma NonEmptyKeysSafe(kind: Kind, argv: seq<seq<byte>>, picks: seq<nat>)
    requires MultiKey(kind, argv) && forall k :: 0 <= k < |picks| ==> picks[k] < KeyCount(kind, argv)
    requires forall j :: 0 <= j < KeyCount(kind, argv) ==> KeyAt(kind, argv, j) != []
    ensures NumeralsSafe(kind, argv, picks)
  {
    NoZerosSafe(FragmentArgc(kind, |picks|), KeyLens(kind, argv, picks));
  }

  /** Formats a number over the text of the one before it, which shows through when the number is zero. */
  method NumStr(s: array<byte>, num: nat, ghost prev: seq<byte>) returns (len: nat)
    requires s.Length == 12 && num < UINT32 && prev != []
    requires num == 0 ==> HoldsText(s[..], prev)
    modifies s
    ensures HoldsText(s[..], Formatted(prev, num)) && len == |Formatted(prev, num)|
    ensures s[..len] == Formatted(prev, num)
  {
    Dec32(num);
    HiItoa(s, num);
    if num == 0 {
      assert s[..][..|prev|] == old(s[..])[..|prev|][0 := ZERO];
    }
    len := StrLen(s, Formatted(prev, num));
    assert s[..][..len] == s[..len];
  }

  lemma NameLength(kind: Kind)
    ensures |CRLF + Argument(Name(kind))| == if kind == Del then 11 else 12
  {
    assert |Dec(|Name(kind)|)| == 1;
  }

  lemma SlotArgvBytes(kind: Kind, argv: seq<seq<byte>>, picks: seq<nat>)
    requires MultiKey(kind, argv) && forall k :: 0 <= k < |picks| ==> picks[k] < KeyCount(kind, argv)
    ensures Format([Name(kind)] + PickArgs(kind, argv, picks))
         == Header(FragmentArgc(kind, |picks|)) + Argument(Name(kind)) + Arguments(PickArgs(kind, argv, picks))
  {
    hide Argument;
    var all := [Name(kind)] + PickArgs(kind, argv, picks);
    assert all[1..] == PickArgs(kind, argv, picks);
  }

  /** What is written for one key: a length text, the key, then a line end or the rest of its pair. */
  function Piece(kind: Kind, argv: seq<seq<byte>>, j: nat, text: seq<byte>): seq<byte>
    requires MultiKey(kind, argv) && j < KeyCount(kind, argv)
    requires var k := SubKeyOf(kind, argv, j); k.start <= k.end + k.remain <= |Format(argv)|
  {
    var k := SubKeyOf(kind, argv, j);
    [DOLLAR] + text + CRLF + Format(argv)[k.start..k.end + k.remain] + (if kind == Mset then [] else CRLF)
  }

  // What a key's range in the request holds, with the rest of its pair.
  function Held(kind: Kind, argv: seq<seq<byte>>, j: nat): seq<byte>
    requires MultiKey(kind, argv) && j < KeyCount(kind, argv)
  {
    if kind == Mset then KeyAt(kind, argv, j) + CRLF + Argument(argv[2 * j + 2]) else KeyAt(kind, argv, j)
  }

  lemma RangeHolds(kind: Kind, argv: seq<seq<byte>>, j: nat)
    requires MultiKey(kind, argv) && j < KeyCount(kind, argv)
    ensures var k := SubKeyOf(kind, argv, j);
            && k.start <= k.end && k.end + k.remain <= |Format(argv)|
            && k.end - k.start == |KeyAt(kind, argv, j)|
            && Format(argv)[k.start..k.end + k.remain] == Held(kind, argv, j)
  {
    hide Format, At, KeyRange, Argument;
    var i := KeyArg(kind, j);
    KeyRangeBytes(argv, i);
    KeyRangeLength(argv, i);
    if kind == Mset {
      PairBytes(argv, i);
    }
  }

  lemma HeldBytes(kind: Kind, argv: seq<seq<byte>>, j: nat)
    requires MultiKey(kind, argv) && j < KeyCount(kind, argv)
    ensures Arguments(ArgsOf(kind, argv, j)) ==
            [DOLLAR] + Dec(|KeyAt(kind, argv, j)|) + CRLF + Held(kind, argv, j) + (if kind == Mset then [] else CRLF)
  {
    hide Arguments, PickArgs, Dec, ArgsOf;
    PickOneMore(kind, argv, [], j);
    if kind == Mset {
      hide Argument;
      Regroup(argv[2 * j + 1], Argument(argv[2 * j + 2]));
    }
  }

  /** With the plain numeral as text these are the arguments the key stands for. */
  lemma PieceBytes(kind: Kind, argv: seq<seq<byte>>, j: nat)
    requires MultiKey(kind, argv) && j < KeyCount(kind, argv)
    ensures var k := SubKeyOf(kind, argv, j);
            && k.start <= k.end && k.end + k.remain <= |Format(argv)|
            && k.end - k.start == |KeyAt(kind, argv, j)|
            && Arguments(ArgsOf(kind, argv, j)) == Piece(kind, argv, j, Dec(k.end - k.start))
  {
    hide Format, SubKeyOf, Dec, Arguments, ArgsOf, KeyAt, Held;
    RangeHolds(kind, argv, j);
    HeldBytes(kind, argv, j);
  }

  lemma {:induction false} Regroup(key: seq<byte>, rest: seq<byte>)
    ensures Argument(key) + rest == [DOLLAR] + Dec(|key|) + CRLF + (key + CRLF + rest) + []
  {
    hide Dec;
    var line := [DOLLAR] + Dec(|key|) + CRLF;
    Reassociate(line, key, CRLF, rest);
    assert line + (key + CRLF + rest) + [] == line + (key + CRLF + rest);
  }

  lemma Reassociate(a: seq<byte>, b: seq<byte>, c: seq<byte>, d: seq<byte>)
    ensures a + b + c + d == a + (b + c + d)
  {
  }

  lemma PairBytes(argv: seq<seq<byte>>, i: nat)
    requires i + 1 < |argv|
    ensures var r, v := KeyRange(argv, i), Argument(argv[i + 1]);
            && r.start <= r.end && r.end + 2 + |v| <= |Format(argv)|
            && Format(argv)[r.start..r.end + 2 + |v|] == argv[i] + CRLF + v
  {
    KeyRangeLength(argv, i);
    hide Format, At, KeyRange, Argument, Dec;
    KeyRangeBytes(argv, i);
    ArgumentBytes(argv, i);
    Layout(argv, i + 1);
    var cmd, r := Format(argv), KeyRange(argv, i);
    var e := r.end + 2 + |Argument(argv[i + 1])|;
    ThreeSlices(cmd, r.start, r.end, r.end + 2, e);
  }

  lemma ThreeSlices(s: seq<byte>, a: nat, b: nat, c: nat, d: nat)
    requires a <= b <= c <= d <= |s|
    ensures s[a..d] == s[a..b] + s[b..c] + s[c..d]
  {
  }

  lemma {:induction false} PrefixShorter(kind: Kind, argv: seq<seq<byte>>, picks: seq<nat>, j: nat)
    requires MultiKey(kind, argv) && forall k :: 0 <= k < |picks| ==> picks[k] < KeyCount(kind, argv)
    requires j <= |picks|
    ensures |Arguments(PickArgs(kind, argv, picks[..j]))| <= |Arguments(PickArgs(kind, argv, picks))|
    decreases |picks| - j
  {
    hide Arguments, PickArgs, ArgsOf, Argument;
    if j < |picks| {
      PickOneMore(kind, argv, picks[..j], picks[j]);
      assert picks[..j + 1] == picks[..j] + [picks[j]];
      PrefixShorter(kind, argv, picks, j + 1);
    } else {
      assert picks[..j] == picks;
    }
  }

  lemma SixParts(a: seq<byte>, b: seq<byte>, c: seq<byte>, d: seq<byte>, e: seq<byte>, f: seq<byte>)
    ensures a + b + c + d + e + f == a + (b + c + d + e + f)
    ensures a + b + c + d + e + [] == a + b + c + d + e
  {
  }

  method PutPiece(out: array<byte>, idx: nat, text: seq<byte>, bytes: seq<byte>, end: seq<byte>) returns (next: nat)
    requires idx + 1 + |text| + 2 + |bytes| + |end| <= out.Length
    modifies out
    ensures var piece := [DOLLAR] + text + CRLF + bytes + end;
            next == idx + |piece| && out[..next] == old(out[..idx]) + piece
  {
    next := Put(out, idx, [DOLLAR]);
    next := Put(out, next, text);
    next := Put(out, next, CRLF);
    next := Put(out, next, bytes);
    if end != [] {
      next := Put(out, next, end);
    }
    SixParts(old(out[..idx]), [DOLLAR], text, CRLF, bytes, end);
  }

  /** Writes one key of a fragment, its length text formatted over the one before; refused where the
      code would write past the end of the buffer. */
  method PutKey(out: array<byte>, idx: nat, cmd: seq<byte>, kind: Kind, k: SubKey, numStr: array<byte>,
                ghost argv: seq<seq<byte>>, ghost j: nat, ghost prev: seq<byte>) returns (ok: bool, next: nat)
    requires MultiKey(kind, argv) && Fits32(argv) && cmd == Format(argv)
    requires j < KeyCount(kind, argv) && k == SubKeyOf(kind, argv, j) && idx <= out.Length
    requires k.start <= k.end && k.end + k.remain <= |cmd| && k.end - k.start == |KeyAt(kind, argv, j)|
    requires numStr != out && numStr.Length == 12 && prev != [] && HoldsText(numStr[..], prev)
    modifies out, numStr
    ensures HoldsText(numStr[..], Formatted(prev, |KeyAt(kind, argv, j)|))
    ensures var piece := Piece(kind, argv, j, Formatted(prev, |KeyAt(kind, argv, j)|));
            && (ok <==> idx + |piece| <= out.Length)
            && (ok ==> next == idx + |piece| && out[..next] == old(out[..idx]) + piece)
  {
    hide Format, SubKeyOf, Formatted, HoldsText;
    var keyLen := k.end - k.start;
    var len := NumStr(numStr, keyLen, prev);
    ghost var text := Formatted(prev, keyLen);
    if idx + 1 + len + 2 + keyLen + k.remain + (if kind == Mset then 0 else 2) > out.Length {
      return false, idx;
    }
    next := PutPiece(out, idx, numStr[..len], cmd[k.start..k.end + k.remain], if kind == Mset then [] else CRLF);
    return true, next;
  }

  /** Sizes the buffer from the lengths collected while dealing, then fills it to the last byte. The keys
      do not fit exactly when some length text is not the plain numeral. */
  method BuildFragment(cmd: seq<byte>, kind: Kind, sub: Sub, numStr: array<byte>,
                       ghost argv: seq<seq<byte>>, ghost picks: seq<nat>) returns (fits: bool, out: array<byte>)
    requires MultiKey(kind, argv) && Fits32(argv) && cmd == Format(argv)
    requires forall k :: 0 <= k < |picks| ==> picks[k] < KeyCount(kind, argv)
    requires picks != [] && |picks| <= KeyCount(kind, argv) && SubOf(sub, kind, argv, sub.slot, picks)
    requires numStr.Length == 12
    modifies numStr
    ensures fresh(out) && out.Length == |Format([Name(kind)] + PickArgs(kind, argv, picks))|
    ensures fits <==> NumeralsSafe(kind, argv, picks)
    ensures fits ==> out[..] == Format([Name(kind)] + PickArgs(kind, argv, picks))
  {
    hide Format, Arguments, Argument, PickArgs, ArgsOf, SubKeyOf, KeyAt, Dec, ZerosFollowDigits;
    var clen := sub.clen + FixedPart(kind) * sub.narg;
    var narg := FragmentArgc(kind, sub.narg);
    var len := NumStr(numStr, narg, [ZERO]);
    clen := clen + (if kind == Del then 12 else 13) + len;
    NameLength(kind);
    SlotArgvBytes(kind, argv, picks);
    assert clen == |Header(narg)| + |Argument(Name(kind))| + |Arguments(PickArgs(kind, argv, picks))|;
    out := new byte[clen](_ => 0);
    var idx := PutHead(out, kind, narg, numStr, len);
    fits := PutKeys(out, idx, cmd, kind, sub, numStr, argv, picks);
    TextsExact(narg, KeyLens(kind, argv, picks));
  }

  lemma PieceLength(kind: Kind, argv: seq<seq<byte>>, j: nat, text: seq<byte>)
    requires MultiKey(kind, argv) && j < KeyCount(kind, argv)
    requires var k := SubKeyOf(kind, argv, j);
             k.start <= k.end && k.end + k.remain <= |Format(argv)| && k.end - k.start == |KeyAt(kind, argv, j)|
    ensures |Piece(kind, argv, j, text)| == |Arguments(ArgsOf(kind, argv, j))| + |text| - |Dec(|KeyAt(kind, argv, j)|)|
  {
    hide Format, Dec, Arguments, ArgsOf, SubKeyOf, KeyAt;
    PieceBytes(kind, argv, j);
  }

  /** A key's piece is longer than the arguments it stands for by what its length text is longer than the
      plain numeral; without that they are the same. */
  lemma PieceExcess(kind: Kind, argv: seq<seq<byte>>, j: nat, prev: seq<byte>)
    requires MultiKey(kind, argv) && j < KeyCount(kind, argv) && prev != []
    requires var k := SubKeyOf(kind, argv, j); k.start <= k.end + k.remain <= |Format(argv)|
    ensures var t := Formatted(prev, |KeyAt(kind, argv, j)|);
            var piece, args := Piece(kind, argv, j, t), Arguments(ArgsOf(kind, argv, j));
            && t != [] && |piece| - |args| == |t| - |Dec(|KeyAt(kind, argv, j)|)| >= 0
            && (|piece| == |args| ==> piece == args)
  {
    hide Format, Arguments, ArgsOf, SubKeyOf, KeyAt, Dec, Formatted, Piece;
    PieceBytes(kind, argv, j);
    ExcessStep(prev, [|KeyAt(kind, argv, j)|]);
    PieceLength(kind, argv, j, Formatted(prev, |KeyAt(kind, argv, j)|));
  }

  /** A key's piece is at least as long as the arguments it stands for; when the two are of the same
      length they are the same. The excess is what the pieces are longer. */
  lemma KeyFits(kind: Kind, argv: seq<seq<byte>>, picks: seq<nat>, j: nat, text: seq<byte>)
    requires MultiKey(kind, argv) && forall k :: 0 <= k < |picks| ==> picks[k] < KeyCount(kind, argv)
    requires j < |picks| && text != []
    requires var k := SubKeyOf(kind, argv, picks[j]); k.start <= k.end + k.remain <= |Format(argv)|
    ensures var lens := KeyLens(kind, argv, picks);
            var t := Formatted(text, lens[j]);
            var piece := Piece(kind, argv, picks[j], t);
            var before := Arguments(PickArgs(kind, argv, picks[..j]));
            var after := Arguments(PickArgs(kind, argv, picks[..j + 1]));
            && t != [] && |after| <= |Arguments(PickArgs(kind, argv, picks))|
            && |before| + |piece| >= |after|
            && Excess(text, lens[j..]) == |before| + |piece| - |after| + Excess(t, lens[j + 1..])
            && (|before| + |piece| == |after| ==> before + piece == after)
  {
    hide Format, Arguments, PickArgs, ArgsOf, SubKeyOf, KeyAt, Dec, Excess, Formatted, Piece;
    var lens := KeyLens(kind, argv, picks);
    PickOneMore(kind, argv, picks[..j], picks[j]);
    assert picks[..j + 1] == picks[..j] + [picks[j]];
    PrefixShorter(kind, argv, picks, j + 1);
    PieceExcess(kind, argv, picks[j], text);
    assert lens[j..][0] == lens[j] && lens[j..][1..] == lens[j + 1..];
    ExcessStep(text, lens[j..]);
  }

  /** The keys of a fragment, one after another. They fit exactly when the length texts written take no
      more room than the plain numerals the buffer was sized for. */
  method PutKeys(out: array<byte>, start: nat, cmd: seq<byte>, kind: Kind, sub: Sub, numStr: array<byte>,
                 ghost argv: seq<seq<byte>>, ghost picks: seq<nat>) returns (fits: bool)
    requires MultiKey(kind, argv) && Fits32(argv) && cmd == Format(argv)
    requires forall k :: 0 <= k < |picks| ==> picks[k] < KeyCount(kind, argv)
    requires SubOf(sub, kind, argv, sub.slot, picks)
    requires numStr != out && numStr.Length == 12 && HoldsText(numStr[..], Dec(FragmentArgc(kind, |picks|)))
    requires start + |Arguments(PickArgs(kind, argv, picks))| == out.Length
    modifies out, numStr
    ensures fits <==> Excess(Dec(FragmentArgc(kind, |picks|)), KeyLens(kind, argv, picks)) == 0
    ensures fits ==> out[..] == old(out[..start]) + Arguments(PickArgs(kind, argv, picks))
  {
    hide Format, Arguments, PickArgs, ArgsOf, SubKeyOf, KeyAt, Dec, Excess, Piece, Formatted;
    var idx := start;
    ghost var lens, text := KeyLens(kind, argv, picks), Dec(FragmentArgc(kind, |picks|));
    ghost var excess := Excess(text, lens);
    assert picks[..0] == [] && lens[0..] == lens;
    NoArguments(kind, argv);
    for j := 0 to |sub.keys|
      invariant text != [] && HoldsText(numStr[..], text) && idx <= out.Length
      invariant start + |Arguments(PickArgs(kind, argv, picks[..j]))| <= idx
      invariant excess == idx - start - |Arguments(PickArgs(kind, argv, picks[..j]))| + Excess(text, lens[j..])
      invariant excess == 0 ==> out[..idx] == old(out[..start]) + Arguments(PickArgs(kind, argv, picks[..j]))
    {
      PieceBytes(kind, argv, picks[j]);
      KeyFits(kind, argv, picks, j, text);
      ConcatTwice(old(out[..start]), Arguments(PickArgs(kind, argv, picks[..j])),
                  Piece(kind, argv, picks[j], Formatted(text, lens[j])));
      var ok;
      ok, idx := PutKey(out, idx, cmd, kind, sub.keys[j], numStr, argv, picks[j], text);
      if !ok {
        return false;
      }
      text := Formatted(text, lens[j]);
    }
    assert picks[..|picks|] == picks;
    NoExcess(text);
    assert lens[|lens|..] == [];
    assert excess == 0 ==> out[..] == out[..idx];
    return true;
  }

  lemma NoExcess(text: seq<byte>)
    requires text != []
    ensures Excess(text, []) == 0
  {
  }

  method PutHead(out: array<byte>, kind: Kind, narg: nat, numStr: array<byte>, len: nat) returns (idx: nat)
    requires numStr.Length == 12 && len <= 12 && numStr[..len] == Dec(narg) && numStr != out
    requires |Header(narg)| + |Argument(Name(kind))| <= out.Length
    modifies out
    ensures idx <= out.Length && out[..idx] == Header(narg) + Argument(Name(kind))
  {
    hide Argument, Dec;
    idx := Put(out, 0, [STAR]);
    idx := Put(out, idx, numStr[..len]);
    idx := Put(out, idx, CRLF + Argument(Name(kind)));
  }

  // ---------------------------------------------------------------- the whole operation

  // The fragments with the slot of each key, or just the slot when one slot holds every key. Overrun:
  // a fragment does not fit into the buffer that was sized for it.
  datatype Cut = OneSlot(slot: nat) | Many(fragments: seq<Fragment>, fragSeq: seq<nat>) | Overrun

  /** Every fragment's numerals come out exactly. */
  ghost predicate AllNumeralsSafe(kind: Kind, argv: seq<seq<byte>>)
    requires MultiKey(kind, argv)
  {
    forall s :: 0 <= s < SLOTS ==> NumeralsSafe(kind, argv, Picks(kind, argv, s, KeyCount(kind, argv)))
  }

  method CommandPreFragment(cmd: seq<byte>, kind: Kind, keys: seq<KeyPos>, ghost argv: seq<seq<byte>>)
    returns (cut: Cut)
    requires MultiKey(kind, argv) && Fits32(argv) && cmd == Format(argv) && KeysOf(keys, kind, argv)
    ensures cut.Overrun? <==> !AllNumeralsSafe(kind, argv)
    ensures var all := FragmentsFrom(kind, argv, 0);
            if cut.Overrun? then true
            else if |all| == 1 then cut == OneSlot(Slot(KeyAt(kind, argv, |keys| - 1)))
            else cut.Many? && cut.fragments == all && |cut.fragSeq| == |keys|
                 && forall j :: 0 <= j < |keys| ==> cut.fragSeq[j] == Slot(KeyAt(kind, argv, j))
  {
    hide Slot, Format, SubOf, NumeralsSafe, KeyAt, FragmentsFrom, Picks, PickArgs;
    var subs, fragSeq := DealKeys(cmd, kind, keys, argv);
    var numStr := new byte[12](_ => 0);
    var commands: seq<Fragment> := [];
    for i := 0 to SLOTS
      invariant commands + FragmentsFrom(kind, argv, i) == FragmentsFrom(kind, argv, 0)
      invariant forall s :: 0 <= s < SLOTS ==> Dealt(subs[s], kind, argv, s, |keys|)
      invariant forall s :: 0 <= s < i ==> NumeralsSafe(kind, argv, Picks(kind, argv, s, |keys|))
    {
      ghost var picks := Picks(kind, argv, i, |keys|);
      PicksCount(kind, argv, i, |keys|);
      FragmentsStep(kind, argv, i);
      assert Dealt(subs[i], kind, argv, i, |keys|);
      if subs[i].Some? {
        SubOfSlot(subs[i].value, kind, argv, i, picks);
        var fits, out := BuildFragment(cmd, kind, subs[i].value, numStr, argv, picks);
        if !fits {
          return Overrun;
        }
        commands := commands + [Fragment(i, out[..])];
      } else {
        NoKeysSafe(kind, argv);
      }
    }
    FragmentsEnd(kind, argv);
    if |commands| == 1 {
      return OneSlot(fragSeq[|fragSeq| - 1]);
    }
    return Many(commands, fragSeq);
  }

  lemma NoKeysSafe(kind: Kind, argv: seq<seq<byte>>)
    requires MultiKey(kind, argv)
    ensures NumeralsSafe(kind, argv, [])
  {
  }

  /** A key of ten zero bytes and an empty key, both in slot 0: the fragment does not fit its buffer. */
  lemma {:induction false} UnsafeRequest(argv: seq<seq<byte>>)
    requires argv == [Name(Mget), seq(10, _ => 0), []]
    ensures MultiKey(Mget, argv) && Fits32(argv) && !AllNumeralsSafe(Mget, argv)
  {
    hide Slot, Picks, ZerosFollowDigits;
    ZeroesInSlotZero(argv[1]);
    ZeroesInSlotZero(argv[2]);
    BothPicked(argv);
    TenThenNone(KeyLens(Mget, argv, [0, 1]));
    assert !NumeralsSafe(Mget, argv, Picks(Mget, argv, 0, KeyCount(Mget, argv)));
  }

  lemma {:induction false} BothPicked(argv: seq<seq<byte>>)
    requires |argv| == 3 && Slot(argv[1]) == Slot(argv[2]) == 0
    ensures Picks(Mget, argv, 0, 2) == [0, 1]
  {
    hide Slot;
    assert Picks(Mget, argv, 0, 0) == [];
    assert Picks(Mget, argv, 0, 1) == [0];
  }

  lemma {:induction false} TenThenNone(lens: seq<nat>)
    requires lens == [10, 0]
    ensures !ZerosFollowDigits(3, lens)
  {
    assert lens[1..] == [0];
  }

  lemma ZeroesInSlotZero(key: seq<byte>)
    requires forall i :: 0 <= i < |key| ==> key[i] == 0
    ensures Slot(key) == 0
  {
    hide Remainder;
    UntaggedWhole(key);
    ZeroRemainder(key);
  }

  lemma {:induction false} ZeroRemainder(s: seq<byte>)
    requires forall i :: 0 <= i < |s| ==> s[i] == 0
    ensures Remainder(s) == 0
  {
    hide ShiftByte;
    if s != [] {
      ZeroRemainder(s[..|s| - 1]);
      ZeroShifts();
    }
  }

  lemma ZeroShifts()
    ensures ShiftByte(0) == 0
  {
  }

  lemma FragmentsStep(kind: Kind, argv: seq<seq<byte>>, i: nat)
    requires MultiKey(kind, argv) && i < SLOTS
    ensures var picks := Picks(kind, argv, i, KeyCount(kind, argv));
            FragmentsFrom(kind, argv, i) ==
            (if picks == [] then [] else [Fragment(i, Format([Name(kind)] + PickArgs(kind, argv, picks)))])
            + FragmentsFrom(kind, argv, i + 1)
  {
  }

  lemma FragmentsEnd(kind: Kind, argv: seq<seq<byte>>)
    requires MultiKey(kind, argv)
    ensures FragmentsFrom(kind, argv, SLOTS) == []
  {
  }

  lemma {:induction false} PicksCount(kind: Kind, argv: seq<seq<byte>>, slot: nat, n: nat)
    requires MultiKey(kind, argv) && n <= KeyCount(kind, argv)
    ensures |Picks(kind, argv, slot, n)| <= n
  {
    hide Slot;
    if n > 0 {
      PicksCount(kind, argv, slot, n - 1);
    }
  }

  lemma SubOfSlot(sub: Sub, kind: Kind, argv: seq<seq<byte>>, slot: nat, picks: seq<nat>)
    requires MultiKey(kind, argv) && forall k :: 0 <= k < |picks| ==> picks[k] < KeyCount(kind, argv)
    requires SubOf(sub, kind, argv, slot, picks)
    ensures sub.slot == slot
  {
  }
}
