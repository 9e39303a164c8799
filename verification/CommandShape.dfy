// What the parser accepts, for any bytes at all: nothing but a well-formed request of a known command with
// a fitting count, and then it has recorded that command and exactly its key arguments.

module CommandShape {
  import opened Bytes
  import opened Command
  import opened CommandParser
  import opened CommandRoundTrip

  // An argument on the wire: the text of its length and its bytes.
  datatype Item = Item(digits: seq<byte>, body: seq<byte>)

  // The length text may have leading zeros, and counts modulo 2^32.
  predicate Proper(x: Item) { AllDigits(x.digits) && Accumulate(x.digits) == |x.body| }

  function Announced(x: Item): seq<byte> { [DOLLAR] + x.digits + CRLF }

  function Wire(items: seq<Item>): seq<byte> {
    if items == [] then [] else
    var last := items[|items| - 1];
    Wire(items[..|items| - 1]) + Announced(last) + last.body + CRLF
  }

  // Everything up to the end of an argument.
  function Complete(count: seq<byte>, items: seq<Item>): seq<byte> { [STAR] + count + CRLF + Wire(items) }

  function Bodies(items: seq<Item>): (r: seq<seq<byte>>)
    ensures |r| == |items| && forall i :: 0 <= i < |r| ==> r[i] == items[i].body
  {
    seq(|items|, i requires 0 <= i < |items| => items[i].body)
  }

  predicate KeyPlace(a: Arity, i: nat) {
    match a
    case ArgZ => false
    case ArgX => i >= 1
    case ArgKvx => i % 2 == 1
    case ArgEval => i == 3
    case _ => i == 1
  }

  /** The arguments that are keys. */
  function Chosen(a: Arity, bodies: seq<seq<byte>>): seq<seq<byte>> {
    if bodies == [] then [] else
    var last := |bodies| - 1;
    Chosen(a, bodies[..last]) + if KeyPlace(a, last) then [bodies[last]] else []
  }

  ghost predicate Inside(cmd: seq<byte>, keys: seq<KeyPos>) {
    forall i :: 0 <= i < |keys| ==> keys[i].start <= keys[i].end <= |cmd|
  }

  function Texts(cmd: seq<byte>, keys: seq<KeyPos>): (r: seq<seq<byte>>)
    requires Inside(cmd, keys)
    ensures |r| == |keys| && forall i :: 0 <= i < |r| ==> r[i] == cmd[keys[i].start..keys[i].end]
  {
    seq(|keys|, i requires 0 <= i < |keys| => cmd[keys[i].start..keys[i].end])
  }

  /** A well-formed request with its count, its command and its keys. Only a command that takes no key may
      have been cut short of the announced count. */
  ghost predicate Request(cmd: seq<byte>, count: seq<byte>, items: seq<Item>, f: Fsa) {
    && f.p < |cmd| && cmd[..f.p + 1] == Complete(count, items)
    && AllDigits(count) && Accumulate(count) == f.narg
    && items != [] && (forall i :: 0 <= i < |items| ==> Proper(items[i]))
    && f.ty.Some? && f.ty == CommandOf(items[0].body)
    && (if f.ty.value.arity == ArgZ then |items| == 1 else |items| == f.narg > 1)
    && CountFits(f.ty.value.arity, Bodies(items))
    && Inside(cmd, f.keys) && Texts(cmd, f.keys) == Chosen(f.ty.value.arity, Bodies(items))
  }

  // ---------------------------------------------------------------- what has been read so far

  // The count's text, the arguments that are complete, and the one being read.
  datatype Seen = Seen(count: seq<byte>, items: seq<Item>, now: Item)

  // Which arguments can stand before a field.
  ghost predicate Before(field: Field, a: Arity, bodies: seq<seq<byte>>, narg: nat) {
    var n := |bodies|;
    match (field, a)
    case (ReqType, _) => n == 0
    case (Key, ArgX) => n >= 1
    case (Key, ArgKvx) => n % 2 == 1 && (n > 1 ==> narg % 2 == 1)
    case (Key, ArgEval) => n == 3 && GoodCount(bodies[2])
    case (Key, _) => n == 1
    case (Arg1, Arg(k)) => n == 2 && k >= 1
    case (Arg1, ArgKvx) => n >= 2 && n % 2 == 0 && narg % 2 == 1
    case (Arg1, ArgEval) => n == 1
    case (Arg1, ArgN) => n == 2
    case (Arg2, Arg(k)) => n == 3 && k >= 2
    case (Arg2, ArgEval) => n == 2
    case (Arg3, Arg(k)) => n == 4 && k >= 3
    case (ArgRest, ArgN) => n >= 2
    case (ArgRest, ArgEval) => n >= 4 && GoodCount(bodies[2])
    case _ => false
  }

  // The registers while a field is read, `extra` when its argument is counted already.
  ghost predicate Counted(f: Fsa, field: Field, count: seq<byte>, items: seq<Item>, extra: nat) {
    && AllDigits(count) && Accumulate(count) == f.narg
    && f.rnarg + |items| + extra == f.narg
    && (forall i :: 0 <= i < |items| ==> Proper(items[i]))
    && (field == ReqType ==> items == [] && f.keys == [])
    && (field != ReqType ==> items != [] && f.ty.Some? && f.ty == CommandOf(items[0].body)
                             && f.ty.value.arity != ArgZ
                             && Before(field, f.ty.value.arity, Bodies(items), f.narg))
  }

  ghost predicate KeysAre(cmd: seq<byte>, keys: seq<KeyPos>, ty: Option<CmdType>, bodies: seq<seq<byte>>) {
    && Inside(cmd, keys)
    && (ty.Some? ==> Texts(cmd, keys) == Chosen(ty.value.arity, bodies))
  }

  ghost predicate Read(cmd: seq<byte>, f: Fsa, w: Seen)
  {
    && f.p <= |cmd|
    && match f.state
       case SwStart => f.p == 0 && f.token == None && f.keys == []
       case SwNarg =>
         f.token.Some? && cmd[..f.p] == [STAR] + w.count && f.keys == [] && w.items == []
         && AllDigits(w.count) && f.rnarg == Accumulate(w.count)
       case SwNargLf =>
         f.token == None && cmd[..f.p] == [STAR] + w.count + [CR] && Counted(f, ReqType, w.count, w.items, 0)
       case Sw(field, Len) =>
         Counted(f, field, w.count, w.items, 0) && (field != ReqType ==> KeysAre(cmd, f.keys, f.ty, Bodies(w.items)))
         && AllDigits(w.now.digits)
         && if f.token == None then cmd[..f.p] == Complete(w.count, w.items)
            else
              cmd[..f.p] == Complete(w.count, w.items) + [DOLLAR] + w.now.digits
              && f.rlen == Accumulate(w.now.digits)
       case Sw(field, LenLf) =>
         Counted(f, field, w.count, w.items, 1) && (field != ReqType ==> KeysAre(cmd, f.keys, f.ty, Bodies(w.items)))
         && AllDigits(w.now.digits) && f.rlen == Accumulate(w.now.digits)
         && cmd[..f.p] == Complete(w.count, w.items) + [DOLLAR] + w.now.digits + [CR]
       case Sw(field, Body) =>
         Counted(f, field, w.count, w.items, 1) && (field != ReqType ==> KeysAre(cmd, f.keys, f.ty, Bodies(w.items)))
         && AllDigits(w.now.digits) && f.rlen == Accumulate(w.now.digits)
         && cmd[..f.p] == Complete(w.count, w.items) + Announced(w.now)
       case Sw(field, Lf) =>
         f.token == None && Counted(f, field, w.count, w.items, 1) && Proper(w.now)
         && KeysAre(cmd, f.keys, f.ty, Bodies(w.items) + [w.now.body])
         && (field == ReqType ==> f.ty.Some? && f.ty == CommandOf(w.now.body))
         && (field == Arg2 && IsEval(f) ==> GoodCount(w.now.body))
         && cmd[..f.p] == Complete(w.count, w.items) + Announced(w.now) + w.now.body + [CR]
  }

  lemma OneMore(cmd: seq<byte>, p: nat)
    requires p < |cmd|
    ensures cmd[..p + 1] == cmd[..p] + [cmd[p]]
  {
  }

  lemma OneDigit(d: seq<byte>, b: byte)
    requires AllDigits(d) && IsDigit(b)
    ensures AllDigits(d + [b]) && Accumulate(d + [b]) == AddDigit(Accumulate(d), b)
  {
    assert (d + [b])[..|d|] == d;
  }

  lemma {:induction false} CountRead(cmd: seq<byte>, f: Fsa, w: Seen) returns (v: Seen)
    requires f.p < |cmd| && Read(cmd, f, w) && (f.state.SwStart? || f.state.SwNarg?)
    ensures NargStep(f, cmd[f.p]).Next? ==> Read(cmd, NargStep(f, cmd[f.p]).f, v)
  {
    var ch := cmd[f.p];
    OneMore(cmd, f.p);
    v := w;
    if f.token == None {
      v := Seen([], [], Item([], []));
    } else if IsDigit(ch) {
      OneDigit(w.count, ch);
      v := w.(count := w.count + [ch]);
      assert [STAR] + v.count == [STAR] + w.count + [ch];
    }
  }

  lemma {:induction false} CountEnds(cmd: seq<byte>, f: Fsa, w: Seen)
    requires f.p < |cmd| && Read(cmd, f, w) && f.state == SwNargLf && cmd[f.p] == LF
    ensures Read(cmd, Goto(f, ReqType).f, w.(now := Item([], [])))
  {
    OneMore(cmd, f.p);
    assert [STAR] + w.count + CRLF + [] == [STAR] + w.count + [CR] + [LF];
  }

  lemma {:induction false} LengthRead(cmd: seq<byte>, f: Fsa, field: Field, w: Seen) returns (v: Seen)
    requires f.p < |cmd| && Read(cmd, f, w) && f.state == Sw(field, Len)
    ensures LenStep(f, field, cmd[f.p]).Next? ==> Read(cmd, LenStep(f, field, cmd[f.p]).f, v)
  {
    hide Wire, Complete, Counted, KeysAre;
    var ch := cmd[f.p];
    OneMore(cmd, f.p);
    v := w;
    var done := Complete(w.count, w.items);
    if f.token == None {
      v := w.(now := Item([], []));
      assert done + [DOLLAR] + [] == done + [DOLLAR];
    } else if IsDigit(ch) {
      OneDigit(w.now.digits, ch);
      v := w.(now := Item(w.now.digits + [ch], []));
      assert done + [DOLLAR] + w.now.digits + [ch] == done + [DOLLAR] + v.now.digits;
    }
    LengthCounts(f, field, ch, w.count, w.items);
  }

  // The registers as the length of an argument is read.
  lemma LengthCounts(f: Fsa, field: Field, ch: byte, count: seq<byte>, items: seq<Item>)
    requires Counted(f, field, count, items, 0) && f.state == Sw(field, Len)
    ensures match LenStep(f, field, ch)
            case Next(g) => Counted(g, field, count, items, if g.state == Sw(field, LenLf) then 1 else 0)
                            && g.ty == f.ty && g.keys == f.keys
            case _ => true
  {
  }

  lemma {:induction false} LengthEnds(cmd: seq<byte>, f: Fsa, field: Field, w: Seen)
    requires f.p < |cmd| && Read(cmd, f, w) && f.state == Sw(field, LenLf) && cmd[f.p] == LF
    ensures Read(cmd, f.(state := Sw(field, Body), p := f.p + 1), w)
  {
    hide Wire, Complete, KeysAre, CommandOf, Before;
    OneMore(cmd, f.p);
    var done := Complete(w.count, w.items);
    assert done + [DOLLAR] + w.now.digits + [CR] + [LF] == done + ([DOLLAR] + w.now.digits + CRLF);
  }

  // ---------------------------------------------------------------- one argument

  lemma TextsMore(cmd: seq<byte>, keys: seq<KeyPos>, k: KeyPos)
    requires Inside(cmd, keys) && k.start <= k.end <= |cmd|
    ensures Inside(cmd, keys + [k]) && Texts(cmd, keys + [k]) == Texts(cmd, keys) + [cmd[k.start..k.end]]
  {
    assert Texts(cmd, keys + [k])[..|keys|] == Texts(cmd, keys);
  }

  lemma ChosenMore(a: Arity, bodies: seq<seq<byte>>, b: seq<byte>)
    ensures Chosen(a, bodies + [b]) == Chosen(a, bodies) + if KeyPlace(a, |bodies|) then [b] else []
  {
    assert (bodies + [b])[..|bodies|] == bodies;
  }

  // A field is the key's exactly when the argument has the place of a key.
  lemma KeyField(field: Field, a: Arity, bodies: seq<seq<byte>>, narg: nat)
    requires Before(field, a, bodies, narg) && a != ArgZ
    ensures field == Key <==> KeyPlace(a, |bodies|)
  {
  }

  lemma {:induction false} KeysRead(cmd: seq<byte>, f: Fsa, field: Field, w: Seen, m: nat)
    requires f.p <= m < |cmd| && Counted(f, field, w.count, w.items, 1) && field != ReqType
    requires KeysAre(cmd, f.keys, f.ty, Bodies(w.items))
    ensures KeysAre(cmd, if field == Key then f.keys + [KeyPos(f.p, m)] else f.keys, f.ty,
                    Bodies(w.items) + [cmd[f.p..m]])
  {
    hide Chosen, Texts, Before, KeyPlace, Inside, CommandOf;
    KeyField(field, f.ty.value.arity, Bodies(w.items), f.narg);
    ChosenMore(f.ty.value.arity, Bodies(w.items), cmd[f.p..m]);
    TextsMore(cmd, f.keys, KeyPos(f.p, m));
    assert Chosen(f.ty.value.arity, Bodies(w.items)) + [] == Chosen(f.ty.value.arity, Bodies(w.items));
  }

  lemma NothingChosen(a: Arity)
    ensures Chosen(a, []) == [] && !KeyPlace(a, 0)
  {
  }

  lemma NoKeyYet(cmd: seq<byte>, ty: Option<CmdType>, body: seq<byte>)
    ensures KeysAre(cmd, [], ty, [] + [body])
  {
    if ty.Some? {
      hide Chosen, KeyPlace;
      ChosenMore(ty.value.arity, [], body);
      NothingChosen(ty.value.arity);
    }
  }

  lemma BodyCounts(cmd: seq<byte>, f: Fsa, field: Field, count: seq<byte>, items: seq<Item>)
    requires f.p < |cmd| && Counted(f, field, count, items, 1)
    ensures match BodyStep(cmd, f, field)
            case Next(g) => Counted(g, field, count, items, 1)
            case _ => true
  {
    hide Before, CommandOf;
  }

  // What the step over an argument's bytes does.
  lemma BodyGoes(cmd: seq<byte>, f: Fsa, field: Field)
    requires f.p < |cmd|
    ensures match BodyStep(cmd, f, field)
            case Next(g) =>
              var m := f.p + f.rlen;
              && m < |cmd| && cmd[m] == CR && g.p == m + 1 && g.state == Sw(field, Lf) && g.token == None
              && g.keys == (if field == Key then f.keys + [KeyPos(f.p, m)] else f.keys)
              && (if field == ReqType then g.ty.Some? && g.ty == CommandOf(cmd[f.p..m]) else g.ty == f.ty)
              && (field == Arg2 && IsEval(f) ==> GoodCount(cmd[f.p..m]))
            case _ => true
  {
    hide CommandOf;
  }

  lemma {:induction false} BodyRead(cmd: seq<byte>, f: Fsa, field: Field, w: Seen) returns (v: Seen)
    requires f.p < |cmd| && Read(cmd, f, w) && f.state == Sw(field, Body)
    ensures BodyStep(cmd, f, field).Next? ==> Read(cmd, BodyStep(cmd, f, field).f, v)
  {
    hide Wire, Complete, Before, CommandOf, BodyStep, KeysAre, Chosen, Texts, KeyPlace;
    BodyCounts(cmd, f, field, w.count, w.items);
    BodyGoes(cmd, f, field);
    v := w;
    if BodyStep(cmd, f, field).Next? {
      var g, m := BodyStep(cmd, f, field).f, f.p + f.rlen;
      v := w.(now := Item(w.now.digits, cmd[f.p..m]));
      if field == ReqType {
        NoKeyYet(cmd, g.ty, v.now.body);
        assert Bodies(w.items) == [];
      } else {
        KeysRead(cmd, f, field, w, m);
      }
      UpTo(cmd, f.p, m);
    }
  }

  lemma UpTo(cmd: seq<byte>, p: nat, m: nat)
    requires p <= m < |cmd|
    ensures cmd[..m + 1] == cmd[..p] + cmd[p..m] + [cmd[m]]
  {
  }

  // ---------------------------------------------------------------- the end of an argument

  lemma WireMore(items: seq<Item>, x: Item)
    ensures Wire(items + [x]) == Wire(items) + Announced(x) + x.body + CRLF
  {
    assert (items + [x])[..|items|] == items;
  }

  lemma CompleteMore(count: seq<byte>, items: seq<Item>, x: Item)
    ensures Complete(count, items + [x]) == Complete(count, items) + Announced(x) + x.body + [CR] + [LF]
  {
    WireMore(items, x);
    var head, wire, rest := [STAR] + count + CRLF, Wire(items), Announced(x);
    assert head + (wire + rest + x.body + CRLF) == head + wire + rest + x.body + [CR] + [LF];
  }

  lemma BodiesMore(items: seq<Item>, x: Item)
    ensures Bodies(items + [x]) == Bodies(items) + [x.body]
  {
  }

  // Where the end of a field leads is where its arguments can stand.
  lemma FieldGoes(f: Fsa, field: Field, a: Arity, bodies: seq<seq<byte>>, body: seq<byte>)
    requires Before(field, a, bodies, f.narg) && f.rnarg + |bodies| + 1 == f.narg
    requires field == Arg2 && a == ArgEval ==> GoodCount(body)
    requires f.state == Sw(field, Lf)
    ensures match FieldEnd(f, field, a)
            case Next(g) =>
              g.state.Sw? && g == f.(state := Sw(g.state.field, Len), p := f.p + 1) && a != ArgZ
              && g.state.field != ReqType && Before(g.state.field, a, bodies + [body], f.narg)
            case Done(g) =>
              g == f && CountFits(a, bodies + [body])
              && if a == ArgZ then bodies == [] else f.rnarg == 0 && bodies != []
            case Reject => true
  {
    hide GoodCount;
    var all := bodies + [body];
    assert |all| == |bodies| + 1;
    assert |all| > 3 && |bodies| >= 3 ==> all[2] == bodies[2];
    assert |bodies| == 2 ==> all[2] == body;
  }

  // The command is that of the first argument, and every argument is proper.
  lemma OneMoreItem(ty: Option<CmdType>, field: Field, items: seq<Item>, x: Item)
    requires forall i :: 0 <= i < |items| ==> Proper(items[i])
    requires Proper(x) && (field == ReqType <==> items == [])
    requires ty == if items == [] then CommandOf(x.body) else CommandOf(items[0].body)
    ensures ty == CommandOf((items + [x])[0].body)
    ensures forall i :: 0 <= i < |items + [x]| ==> Proper((items + [x])[i])
  {
  }

  lemma {:induction false} FieldRead(cmd: seq<byte>, f: Fsa, field: Field, w: Seen)
    requires f.p < |cmd| && Read(cmd, f, w) && f.state == Sw(field, Lf) && cmd[f.p] == LF && f.ty.Some?
    ensures match FieldEnd(f, field, f.ty.value.arity)
            case Next(g) => Read(cmd, g, Seen(w.count, w.items + [w.now], Item([], [])))
            case Done(g) => Request(cmd, w.count, w.items + [w.now], f)
            case Reject => true
  {
    hide Wire, Complete, Before, CommandOf, FieldEnd, KeysAre, Texts, Chosen, Inside, GoodCount, CountFits, Proper,
         Bodies, Announced;
    var a, items := f.ty.value.arity, w.items + [w.now];
    OneMoreItem(f.ty, field, w.items, w.now);
    BodiesMore(w.items, w.now);
    CompleteMore(w.count, w.items, w.now);
    OneMore(cmd, f.p);
    assert Bodies([]) == [];
    BeforeFirst(a, f.narg);
    FieldGoes(f, field, a, Bodies(w.items), w.now.body);
    KeysSay(cmd, f.keys, f.ty, Bodies(items));
    match FieldEnd(f, field, a)
    case Next(g) =>
      assert Counted(g, g.state.field, w.count, items, 0);
    case _ =>
  }

  lemma KeysSay(cmd: seq<byte>, keys: seq<KeyPos>, ty: Option<CmdType>, bodies: seq<seq<byte>>)
    requires KeysAre(cmd, keys, ty, bodies) && ty.Some?
    ensures Inside(cmd, keys) && Texts(cmd, keys) == Chosen(ty.value.arity, bodies)
  {
  }

  lemma BeforeFirst(a: Arity, narg: nat)
    ensures Before(ReqType, a, [], narg)
  {
  }

  // Only the end of an argument can end a request.
  lemma GoesOn(cmd: seq<byte>, f: Fsa)
    requires f.p < |cmd|
    ensures Step(cmd, f).Done? ==> f.state.Sw? && f.state.phase == Lf && Step(cmd, f).f == f
  {
    hide ArityOf;
  }

  lemma {:induction false} StepRead(cmd: seq<byte>, f: Fsa, w: Seen) returns (v: Seen)
    requires f.p < |cmd| && Read(cmd, f, w)
    ensures match Step(cmd, f)
            case Next(g) => Read(cmd, g, v)
            case Done(g) => Request(cmd, v.count, v.items, g)
            case Reject => true
  {
    hide Read, Request, NargStep, LenStep, BodyStep, FieldEnd;
    v := w;
    GoesOn(cmd, f);
    match f.state
    case SwStart => v := CountRead(cmd, f, w);
    case SwNarg => v := CountRead(cmd, f, w);
    case SwNargLf =>
      if cmd[f.p] == LF {
        CountEnds(cmd, f, w);
        v := w.(now := Item([], []));
      }
    case Sw(field, Len) => v := LengthRead(cmd, f, field, w);
    case Sw(field, LenLf) => if cmd[f.p] == LF { LengthEnds(cmd, f, field, w); }
    case Sw(field, Body) => v := BodyRead(cmd, f, field, w);
    case Sw(field, Lf) =>
      if cmd[f.p] == LF && f.ty.Some? {
        FieldRead(cmd, f, field, w);
        v := Seen(w.count, w.items + [w.now], Item([], []));
      }
  }

  lemma {:induction false} RunRead(cmd: seq<byte>, f: Fsa, w: Seen) returns (v: Seen)
    requires Read(cmd, f, w)
    ensures match Run(cmd, f)
            case Accepted(g) => Request(cmd, v.count, v.items, g)
            case Exhausted(g) => g.p == |cmd| && Read(cmd, g, v)
            case Rejected => true
    decreases |cmd| - f.p
  {
    hide Request, Step;
    v := w;
    if f.p < |cmd| {
      v := StepRead(cmd, f, w);
      StepAdvances(cmd, f);
      if Step(cmd, f).Next? {
        v := RunRead(cmd, Step(cmd, f).f, v);
      }
    }
  }

  /** Whatever the bytes: what is accepted begins with a well-formed request of a known command whose count
      fits, and the keys recorded are exactly its key arguments. */
  lemma AcceptedIsRequest(cmd: seq<byte>)
    ensures match Run(cmd, INIT)
            case Accepted(f) => exists count, items :: Request(cmd, count, items, f)
            case _ => true
  {
    hide Run, Request;
    var v := RunRead(cmd, INIT, Seen([], [], Item([], [])));
  }
}
