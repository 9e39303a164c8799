// The parser undoes the formatter: on the bytes of any argument vector it accepts exactly the known
// commands whose argument count fits, recovers the type, and records exactly the key arguments.

module CommandRoundTrip {
  import opened Bytes
  import opened Formatter
  import opened Command

  /** Where argument `i` starts in the formatted request. */
  function At(argv: seq<seq<byte>>, i: nat): nat
    requires i <= |argv|
  {
    |Header(|argv|)| + |Arguments(argv[..i])|
  }

  /** The bytes of argument `i` itself, as a range of the formatted request. */
  function KeyRange(argv: seq<seq<byte>>, i: nat): KeyPos
    requires i < |argv|
  {
    var start := At(argv, i) + 1 + |Dec(|argv[i]|)| + 2;
    KeyPos(start, start + |argv[i]|)
  }

  function Ranges(argv: seq<seq<byte>>, idx: seq<nat>): (r: seq<KeyPos>)
    requires forall k :: 0 <= k < |idx| ==> idx[k] < |argv|
    ensures |r| == |idx|
  {
    seq(|idx|, k requires 0 <= k < |idx| => KeyRange(argv, idx[k]))
  }

  // Argument lengths and counts that the parser's 32-bit registers can hold.
  predicate Fits32(argv: seq<seq<byte>>) {
    |argv| < UINT32 && forall i :: 0 <= i < |argv| ==> |argv[i]| < UINT32
  }

  predicate GoodCount(a: seq<byte>) { a != [] && AllDigits(a) && Accumulate(a) != 0 }

  /** The argument counts a command is accepted with; a bare name is accepted and has no key. */
  predicate CountFits(a: Arity, argv: seq<seq<byte>>)
    requires argv != []
  {
    var n := |argv|;
    n == 1 ||
    match a
    case ArgZ => true
    case Arg(k) => n == k + 2
    case ArgN => true
    case ArgX => true
    case ArgKvx => n == 2 || n % 2 == 1
    case ArgEval => n >= 4 && GoodCount(argv[2])
  }

  /** Which arguments are keys. */
  function KeyIndices(a: Arity, n: nat): (idx: seq<nat>)
    requires a == ArgEval ==> n == 1 || n >= 4
    ensures forall k :: 0 <= k < |idx| ==> idx[k] < n
  {
    if n <= 1 then [] else
    match a
    case ArgZ => []
    case ArgX => seq(n - 1, k requires 0 <= k < n - 1 => k + 1)
    case ArgKvx => seq(n / 2, k requires 0 <= k < n / 2 => 2 * k + 1)
    case ArgEval => [3]
    case _ => [1]
  }

  lemma Layout(argv: seq<seq<byte>>, i: nat)
    requires i < |argv|
    ensures At(argv, i + 1) == At(argv, i) + |Argument(argv[i])| <= |Format(argv)|
    ensures Format(argv)[At(argv, i)..At(argv, i + 1)] == Argument(argv[i])
    ensures i + 1 == |argv| ==> At(argv, i + 1) == |Format(argv)|
  {
    hide Argument, Header;
    PrefixGrows(argv, i);
    ArgumentsAppend(argv[..i + 1], argv[i + 1..]);
    assert argv[..i + 1] + argv[i + 1..] == argv;
    assert Format(argv) == Header(|argv|) + Arguments(argv[..i]) + Argument(argv[i]) + Arguments(argv[i + 1..]);
  }

  lemma KeyRangeBytes(argv: seq<seq<byte>>, i: nat)
    requires i < |argv|
    ensures KeyRange(argv, i).end < |Format(argv)|
    ensures Format(argv)[KeyRange(argv, i).start..KeyRange(argv, i).end] == argv[i]
  {
    Layout(argv, i);
    var at, r := At(argv, i), KeyRange(argv, i);
    var cmd, a := Format(argv), Argument(argv[i]);
    assert a[r.start - at..r.end - at] == argv[i];
    SliceOfSlice(cmd, at, at + |a|, r.start, r.end);
  }

  lemma SliceOfSlice(s: seq<byte>, lo: nat, hi: nat, from: nat, to: nat)
    requires lo <= from <= to <= hi <= |s|
    ensures s[lo..hi][from - lo..to - lo] == s[from..to]
  {
    forall k | 0 <= k < to - from
      ensures s[lo..hi][from - lo..to - lo][k] == s[from..to][k]
    {
    }
  }

  // ---------------------------------------------------------------- one argument

  lemma NargDigit(cmd: seq<byte>, f: Fsa)
    requires f.state == SwNarg && f.token.Some? && f.p < |cmd| && IsDigit(cmd[f.p])
    ensures Run(cmd, f) == Run(cmd, f.(p := f.p + 1, rnarg := AddDigit(f.rnarg, cmd[f.p])))
  {
    hide BodyStep, LenStep, FieldEnd, AddDigit;
  }

  lemma LenDigit(cmd: seq<byte>, f: Fsa, field: Field)
    requires f.state == Sw(field, Len) && f.token.Some? && f.p < |cmd| && IsDigit(cmd[f.p])
    ensures Run(cmd, f) == Run(cmd, f.(p := f.p + 1, rlen := AddDigit(f.rlen, cmd[f.p])))
  {
    hide BodyStep, NargStep, FieldEnd, AddDigit;
  }

  // The register holds the value of the digits read; the next one fits too.
  lemma RegisterFits(s: seq<byte>, j: nat)
    requires j < |s| && AllDigits(s) && DecValue(s) < UINT32
    ensures AddDigit(DecValue(s[..j]), s[j]) == DecValue(s[..j + 1])
  {
    hide DecValue;
    DecValueGrows(s, j);
    DecValuePrefix(s, j + 1);
  }

  lemma {:induction false} NargDigits(cmd: seq<byte>, f: Fsa, s: seq<byte>, j: nat)
    requires f.state == SwNarg && f.token.Some?
    requires j <= |s| && AllDigits(s) && DecValue(s) < UINT32 && f.rnarg == DecValue(s[..j])
    requires f.p + |s| - j < |cmd| && cmd[f.p..f.p + |s| - j] == s[j..]
    ensures Run(cmd, f) == Run(cmd, f.(p := f.p + |s| - j, rnarg := DecValue(s)))
    decreases |s| - j
  {
    hide Run, AddDigit, DecValue;
    if j < |s| {
      assert cmd[f.p] == s[j..][0];
      NargDigit(cmd, f);
      RegisterFits(s, j);
      NargDigits(cmd, f.(p := f.p + 1, rnarg := DecValue(s[..j + 1])), s, j + 1);
    } else {
      assert s[..j] == s;
    }
  }

  lemma {:induction false} LenDigits(cmd: seq<byte>, f: Fsa, field: Field, s: seq<byte>, j: nat)
    requires f.state == Sw(field, Len) && f.token.Some?
    requires j <= |s| && AllDigits(s) && DecValue(s) < UINT32 && f.rlen == DecValue(s[..j])
    requires f.p + |s| - j < |cmd| && cmd[f.p..f.p + |s| - j] == s[j..]
    ensures Run(cmd, f) == Run(cmd, f.(p := f.p + |s| - j, rlen := DecValue(s)))
    decreases |s| - j
  {
    hide Run, AddDigit, DecValue;
    if j < |s| {
      assert cmd[f.p] == s[j..][0];
      LenDigit(cmd, f, field);
      RegisterFits(s, j);
      LenDigits(cmd, f.(p := f.p + 1, rlen := DecValue(s[..j + 1])), field, s, j + 1);
    } else {
      assert s[..j] == s;
    }
  }

  /** The count line: leads to the command's name with the count in hand, unless it is zero. */
  lemma ReadHeader(argv: seq<seq<byte>>)
    requires Fits32(argv)
    ensures var n := |argv|;
            Run(Format(argv), INIT) ==
            if n == 0 then Rejected
            else Run(Format(argv), Fsa(Sw(ReqType, Len), At(argv, 0), None, 0, n, n, None, []))
  {
    var cmd, d := Format(argv), Dec(|argv|);
    DecRoundTrip(|argv|);
    var f := INIT.(token := Some(0), state := SwNarg, p := 1);
    assert cmd == [STAR] + d + CRLF + Arguments(argv);
    assert Run(cmd, INIT) == Run(cmd, f);
    assert cmd[1..1 + |d|] == d && d[0..] == d;
    NargDigits(cmd, f, d, 0);
    assert cmd[1 + |d|] == CR && cmd[2 + |d|] == LF;
  }

  // The automaton about to read argument i, and at the LF that ends it.
  function Before(argv: seq<seq<byte>>, i: nat, field: Field, ty: Option<CmdType>, keys: seq<KeyPos>): Fsa
    requires i <= |argv|
  {
    Fsa(Sw(field, Len), At(argv, i), None, 0, |argv| - i, |argv|, ty, keys)
  }

  function After(argv: seq<seq<byte>>, i: nat, field: Field, ty: Option<CmdType>, keys: seq<KeyPos>): Fsa
    requires i < |argv|
  {
    Fsa(Sw(field, Lf), At(argv, i) + |Argument(argv[i])| - 1, None, 0, |argv| - 1 - i, |argv|, ty, keys)
  }

  lemma ArgumentBytes(argv: seq<seq<byte>>, i: nat)
    requires i < |argv|
    ensures var cmd, at, d := Format(argv), At(argv, i), Dec(|argv[i]|);
            var r := KeyRange(argv, i);
            && r.start == at + 1 + |d| + 2 && r.end + 2 == At(argv, i + 1) <= |cmd|
            && cmd[at] == DOLLAR && cmd[at + 1..at + 1 + |d|] == d
            && cmd[at + 1 + |d|] == CR && cmd[at + 2 + |d|] == LF
            && cmd[r.end] == CR && cmd[r.end + 1] == LF
  {
    Layout(argv, i);
    hide Format, At;
    ArgumentAt(Format(argv), At(argv, i), argv[i]);
  }

  lemma ArgumentAt(cmd: seq<byte>, at: nat, b: seq<byte>)
    requires at + |Argument(b)| <= |cmd| && cmd[at..at + |Argument(b)|] == Argument(b)
    ensures var k := at + 1 + |Dec(|b|)|;
            && cmd[at] == DOLLAR && cmd[at + 1..k] == Dec(|b|) && cmd[k] == CR && cmd[k + 1] == LF
            && cmd[k + 2 + |b|] == CR && cmd[k + 3 + |b|] == LF
  {
    hide Dec;
    var d, a, hi := Dec(|b|), Argument(b), at + |Argument(b)|;
    assert a[1..1 + |d|] == d;
    SliceOfSlice(cmd, at, hi, at + 1, at + 1 + |d|);
    ElementOfSlice(cmd, at, hi, 0);
    ElementOfSlice(cmd, at, hi, 1 + |d|);
    ElementOfSlice(cmd, at, hi, 2 + |d|);
    ElementOfSlice(cmd, at, hi, |a| - 2);
    ElementOfSlice(cmd, at, hi, |a| - 1);
  }

  lemma ElementOfSlice(s: seq<byte>, lo: nat, hi: nat, k: nat)
    requires lo <= hi <= |s| && k < hi - lo
    ensures s[lo..hi][k] == s[lo + k]
  {
  }

  /** The length line of an argument leads to its first byte. */
  lemma ReadLength(argv: seq<seq<byte>>, i: nat, field: Field, ty: Option<CmdType>, keys: seq<KeyPos>)
    requires Fits32(argv) && i < |argv|
    ensures Run(Format(argv), Before(argv, i, field, ty, keys)) ==
            if field == ReqType && argv[i] == [] then Rejected
            else Run(Format(argv), Fsa(Sw(field, Body), KeyRange(argv, i).start, None, |argv[i]|,
                                       |argv| - 1 - i, |argv|, ty, keys))
  {
    hide ArityOf, Format, At, Dec;
    ArgumentBytes(argv, i);
    var cmd, at, d := Format(argv), At(argv, i), Dec(|argv[i]|);
    DecRoundTrip(|argv[i]|);
    var f0 := Before(argv, i, field, ty, keys);
    var f := f0.(token := Some(at), rlen := 0, p := at + 1);
    assert Run(cmd, f0) == Run(cmd, f);
    assert d[0..] == d && d[..0] == [];
    LenDigits(cmd, f, field, d, 0);
    LengthEnds(cmd, f.(p := at + 1 + |d|, rlen := |argv[i]|), field);
  }

  lemma LengthEnds(cmd: seq<byte>, f: Fsa, field: Field)
    requires f.state == Sw(field, Len) && f.token.Some? && f.p - f.token.value > 1 && f.rnarg > 0
    requires f.p + 1 < |cmd| && cmd[f.p] == CR && cmd[f.p + 1] == LF
    ensures Run(cmd, f) == if field == ReqType && f.rlen == 0 then Rejected
                           else Run(cmd, f.(state := Sw(field, Body), token := None, rnarg := f.rnarg - 1,
                             p := f.p + 2))
  {
    hide ArityOf;
    if !(field == ReqType && f.rlen == 0) {
      var g := f.(state := Sw(field, LenLf), token := None, rnarg := f.rnarg - 1, p := f.p + 1);
      assert Run(cmd, f) == Run(cmd, g);
    }
  }

  lemma ReadBody(argv: seq<seq<byte>>, i: nat, field: Field, ty: Option<CmdType>, keys: seq<KeyPos>)
    requires i < |argv|
    ensures var f := Fsa(Sw(field, Body), KeyRange(argv, i).start, None, |argv[i]|,
                         |argv| - 1 - i, |argv|, ty, keys);
            Run(Format(argv), f) ==
            match field
            case ReqType =>
              if CommandOf(argv[i]) == None then Rejected
              else Run(Format(argv), After(argv, i, field, CommandOf(argv[i]), keys))
            case Key => Run(Format(argv), After(argv, i, field, ty, keys + [KeyRange(argv, i)]))
            case Arg2 =>
              if IsEval(f) && !GoodCount(argv[i]) then Rejected
              else Run(Format(argv), After(argv, i, field, ty, keys))
            case _ => Run(Format(argv), After(argv, i, field, ty, keys))
  {
    hide ArityOf, Format;
    Layout(argv, i);
    KeyRangeBytes(argv, i);
    ArgumentBytes(argv, i);
  }

  /** A whole argument other than the name: the automaton is at its closing LF, keys recorded. */
  lemma TakeArg(argv: seq<seq<byte>>, i: nat, field: Field, ty: CmdType, keys: seq<KeyPos>)
    requires Fits32(argv) && i < |argv| && field != ReqType
    ensures Run(Format(argv), Before(argv, i, field, Some(ty), keys)) ==
            if field == Arg2 && ty.arity == ArgEval && !GoodCount(argv[i]) then Rejected
            else Run(Format(argv), After(argv, i, field, Some(ty),
                                         if field == Key then keys + [KeyRange(argv, i)] else keys))
  {
    ReadLength(argv, i, field, Some(ty), keys);
    ReadBody(argv, i, field, Some(ty), keys);
  }

  /** The LF after an argument: the command ends, is refused, or goes on with the next argument. */
  lemma EndArg(argv: seq<seq<byte>>, i: nat, field: Field, ty: CmdType, keys: seq<KeyPos>)
    requires i < |argv|
    ensures var f := After(argv, i, field, Some(ty), keys);
            Run(Format(argv), f) ==
            match FieldEnd(f, field, ty.arity)
            case Done(_) => Accepted(f)
            case Reject => Rejected
            case Next(g) => Run(Format(argv), Before(argv, i + 1, g.state.field, Some(ty), keys))
    ensures FieldEnd(After(argv, i, field, Some(ty), keys), field, ty.arity).Next? ==>
              FieldEnd(After(argv, i, field, Some(ty), keys), field, ty.arity).f.state.Sw?
  {
    hide ArityOf, Format;
    Layout(argv, i);
    ArgumentBytes(argv, i);
  }

  // ---------------------------------------------------------------- whole commands

  ghost predicate Ends(o: Outcome, argv: seq<seq<byte>>, ty: CmdType, keys: seq<KeyPos>) {
    o.Accepted? && o.f.ty == Some(ty) && o.f.narg == |argv| && o.f.keys == keys
  }

  /** Arguments after the last key are skipped to the end. */
  lemma {:induction false} RestArgs(argv: seq<seq<byte>>, i: nat, field: Field, ty: CmdType, keys: seq<KeyPos>)
    requires Fits32(argv) && i < |argv|
    requires field in {Key, ArgRest} || (field == Arg1 && ty.arity == ArgN)
    requires ty.arity == ArgN || ty.arity == ArgEval
    ensures Ends(Run(Format(argv), After(argv, i, field, Some(ty), keys)), argv, ty, keys)
    decreases |argv| - i
  {
    EndArg(argv, i, field, ty, keys);
    if i + 1 < |argv| {
      var next := if field == Key && ty.arity == ArgN then Arg1 else ArgRest;
      TakeArg(argv, i + 1, next, ty, keys);
      RestArgs(argv, i + 1, next, ty, keys);
    }
  }

  lemma {:induction false} KeyArgs(argv: seq<seq<byte>>, i: nat, ty: CmdType, keys: seq<KeyPos>)
    requires Fits32(argv) && 1 <= i < |argv| && ty.arity == ArgX
    requires keys == Ranges(argv, KeyIndices(ArgX, i + 1))
    ensures Ends(Run(Format(argv), After(argv, i, Key, Some(ty), keys)), argv, ty,
                 Ranges(argv, KeyIndices(ArgX, |argv|)))
    decreases |argv| - i
  {
    EndArg(argv, i, Key, ty, keys);
    if i + 1 < |argv| {
      TakeArg(argv, i + 1, Key, ty, keys);
      assert Ranges(argv, KeyIndices(ArgX, i + 2)) == keys + [KeyRange(argv, i + 1)];
      KeyArgs(argv, i + 1, ty, keys + [KeyRange(argv, i + 1)]);
    }
  }

  /** From one key of a pair list to the next, or to the end. */
  lemma PairStep(argv: seq<seq<byte>>, i: nat, ty: CmdType, keys: seq<KeyPos>)
    requires Fits32(argv) && i + 1 < |argv| && |argv| % 2 == 1 && ty.arity == ArgKvx
    ensures var o := Run(Format(argv), After(argv, i, Key, Some(ty), keys));
            if i + 2 < |argv|
            then o == Run(Format(argv), After(argv, i + 2, Key, Some(ty), keys + [KeyRange(argv, i + 2)]))
            else Ends(o, argv, ty, keys)
  {
    hide Run, At, Format, KeyRange;
    EndArg(argv, i, Key, ty, keys);
    TakeArg(argv, i + 1, Arg1, ty, keys);
    EndArg(argv, i + 1, Arg1, ty, keys);
    if i + 2 < |argv| {
      TakeArg(argv, i + 2, Key, ty, keys);
    }
  }

  lemma {:induction false} PairArgs(argv: seq<seq<byte>>, i: nat, ty: CmdType, keys: seq<KeyPos>)
    requires Fits32(argv) && 1 <= i < |argv| && i % 2 == 1 && |argv| % 2 == 1 && ty.arity == ArgKvx
    requires keys == Ranges(argv, KeyIndices(ArgKvx, i + 1))
    ensures Ends(Run(Format(argv), After(argv, i, Key, Some(ty), keys)), argv, ty,
                 Ranges(argv, KeyIndices(ArgKvx, |argv|)))
    decreases |argv| - i
  {
    hide Run, At, Format, KeyRange;
    PairStep(argv, i, ty, keys);
    if i + 2 < |argv| {
      assert Ranges(argv, KeyIndices(ArgKvx, i + 3)) == keys + [KeyRange(argv, i + 2)];
      PairArgs(argv, i + 2, ty, keys + [KeyRange(argv, i + 2)]);
    } else {
      assert KeyIndices(ArgKvx, i + 1) == KeyIndices(ArgKvx, |argv|);
    }
  }

  /** One key and a fixed number of arguments. */
  lemma FixedArgs(argv: seq<seq<byte>>, ty: CmdType, keys: seq<KeyPos>)
    requires Fits32(argv) && |argv| >= 2 && ty.arity.Arg? && ty.arity.n <= 3
    ensures var o := Run(Format(argv), After(argv, 1, Key, Some(ty), keys));
            if |argv| == ty.arity.n + 2 then Ends(o, argv, ty, keys) else o == Rejected
  {
    hide Run, At, Format;
    EndArg(argv, 1, Key, ty, keys);
    if |argv| == ty.arity.n + 2 && |argv| > 2 {
      TakeArg(argv, 2, Arg1, ty, keys);
      EndArg(argv, 2, Arg1, ty, keys);
      if |argv| > 3 {
        TakeArg(argv, 3, Arg2, ty, keys);
        EndArg(argv, 3, Arg2, ty, keys);
        if |argv| > 4 {
          TakeArg(argv, 4, Arg3, ty, keys);
          EndArg(argv, 4, Arg3, ty, keys);
        }
      }
    }
  }

  lemma EvalArgs(argv: seq<seq<byte>>, ty: CmdType)
    requires Fits32(argv) && |argv| >= 2 && ty.arity == ArgEval
    ensures var o := Run(Format(argv), Before(argv, 1, Arg1, Some(ty), []));
            if CountFits(ArgEval, argv) then Ends(o, argv, ty, Ranges(argv, [3])) else o == Rejected
  {
    hide Run, Format, At, ArityOf;
    TakeArg(argv, 1, Arg1, ty, []);
    EndArg(argv, 1, Arg1, ty, []);
    if |argv| >= 4 {
      TakeArg(argv, 2, Arg2, ty, []);
      if GoodCount(argv[2]) {
        EndArg(argv, 2, Arg2, ty, []);
        TakeArg(argv, 3, Key, ty, []);
        assert [] + [KeyRange(argv, 3)] == Ranges(argv, [3]);
        RestArgs(argv, 3, Key, ty, Ranges(argv, [3]));
      }
    }
  }

  /** Everything after the name of a command that takes keys first. */
  lemma KeyedArgs(argv: seq<seq<byte>>, ty: CmdType)
    requires Fits32(argv) && |argv| >= 2 && !ty.arity.ArgZ? && !ty.arity.ArgEval?
    requires ty.arity.Arg? ==> ty.arity.n <= 3
    ensures var o := Run(Format(argv), Before(argv, 1, Key, Some(ty), []));
            if CountFits(ty.arity, argv)
            then Ends(o, argv, ty, Ranges(argv, KeyIndices(ty.arity, |argv|)))
            else o == Rejected
  {
    hide Run, Format, At, ArityOf;
    var keys := [KeyRange(argv, 1)];
    TakeArg(argv, 1, Key, ty, []);
    assert [] + keys == keys;
    match ty.arity
    case Arg(_) =>
      FixedArgs(argv, ty, keys);
      assert Ranges(argv, KeyIndices(ty.arity, |argv|)) == keys;
    case ArgN =>
      RestArgs(argv, 1, Key, ty, keys);
      assert Ranges(argv, KeyIndices(ty.arity, |argv|)) == keys;
    case ArgX =>
      assert keys == Ranges(argv, KeyIndices(ArgX, 2));
      KeyArgs(argv, 1, ty, keys);
    case ArgKvx =>
      assert keys == Ranges(argv, KeyIndices(ArgKvx, 2));
      if |argv| % 2 == 1 {
        PairArgs(argv, 1, ty, keys);
      } else {
        EndArg(argv, 1, Key, ty, keys);
      }
  }

  lemma FixedArities(name: seq<byte>)
    ensures CommandOf(name).Some? && CommandOf(name).value.arity.Arg? ==> CommandOf(name).value.arity.n <= 3
  {
  }

  /** Parsing a formatted request, for every argument vector: a known command with a fitting count
      is accepted with its type and exactly its key arguments, everything else is refused. */
  lemma ParseFormatted(argv: seq<seq<byte>>)
    requires Fits32(argv)
    ensures var o := Run(Format(argv), INIT);
            if argv == [] || argv[0] == [] || CommandOf(argv[0]) == None
               || !CountFits(CommandOf(argv[0]).value.arity, argv)
            then o == Rejected
            else
              var ty := CommandOf(argv[0]).value;
              && !o.Rejected? && o.f.ty == Some(ty) && o.f.narg == |argv|
              && o.f.keys == Ranges(argv, KeyIndices(ty.arity, |argv|))
              && (o.Exhausted? <==> |argv| == 1 && ty.arity != ArgZ)
  {
    hide ArityOf;
    ReadHeader(argv);
    if argv != [] {
      ReadLength(argv, 0, ReqType, None, []);
      if argv[0] != [] {
        ReadBody(argv, 0, ReqType, None, []);
        if CommandOf(argv[0]).Some? {
          NamedCommand(argv, CommandOf(argv[0]).value);
        }
      }
    }
  }

  lemma {:induction false} NamedCommand(argv: seq<seq<byte>>, ty: CmdType)
    requires Fits32(argv) && argv != [] && CommandOf(argv[0]) == Some(ty)
    ensures var o := Run(Format(argv), After(argv, 0, ReqType, Some(ty), []));
            if !CountFits(ty.arity, argv) then o == Rejected
            else
              && !o.Rejected? && o.f.ty == Some(ty) && o.f.narg == |argv|
              && o.f.keys == Ranges(argv, KeyIndices(ty.arity, |argv|))
              && (o.Exhausted? <==> |argv| == 1 && ty.arity != ArgZ)
  {
    hide ArityOf, Format, At, Run, GoodCount;
    FixedArities(argv[0]);
    EndArg(argv, 0, ReqType, ty, []);
    if |argv| == 1 {
      NothingFollows(argv, ty);
    }
    if |argv| >= 2 {
      if ty.arity.ArgEval? {
        EvalArgs(argv, ty);
      } else if !ty.arity.ArgZ? {
        KeyedArgs(argv, ty);
      }
    }
  }

  // A bare name: the input is over before a key is asked for.
  lemma NothingFollows(argv: seq<seq<byte>>, ty: CmdType)
    requires |argv| == 1
    ensures forall field :: Run(Format(argv), Before(argv, 1, field, Some(ty), [])) == Exhausted(Before(argv, 1,
      field, Some(ty), []))
  {
    Layout(argv, 0);
  }
}
