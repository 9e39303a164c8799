// The parser as a loop over the request's bytes, and what holds of it on every input.

module CommandParser {
  import opened Bytes
  import opened Command

  datatype ParseResult = ParseOk | ParseError

  // A command being parsed: the request's bytes, what the parser records about them, and the
  // automaton's registers (position, start of the current token, running length and count).
  class Cmd {
    const cmd: seq<byte>
    var result: ParseResult
    var ty: Option<CmdType>
    var narg: nat
    var keys: seq<KeyPos>

    var state: State
    var p: nat
    var token: Option<nat>
    var rlen: nat
    var rnarg: nat

    constructor (cmd: seq<byte>)
      ensures this.cmd == cmd && result == ParseOk && View() == INIT
    {
      this.cmd, result, ty, narg, keys := cmd, ParseOk, None, 0, [];
      state, p, token, rlen, rnarg := SwStart, 0, None, 0, 0;
    }

    ghost function View(): Fsa
      reads this
    {
      Fsa(state, p, token, rlen, rnarg, narg, ty, keys)
    }

    // The fields after a step that went on, with p already on the next byte.
    twostate predicate Took(v: Verdict, ok: bool)
      reads this
    {
      result == old(result) && (if ok then v == Next(View()) else v == Reject)
    }

    method NargByte(ch: byte) returns (ok: bool)
      requires state == SwStart || state == SwNarg
      modifies this
      ensures Took(old(NargStep(View(), ch)), ok)
    {
      if token == None {
        if ch != STAR {
          return false;
        }
        token, rnarg, state := Some(p), 0, SwNarg;
      } else if IsDigit(ch) {
        rnarg := (rnarg * 10 + (ch - ZERO)) % UINT32;
      } else if ch == CR {
        if rnarg == 0 {
          return false;
        }
        narg, token, state := rnarg, None, SwNargLf;
      } else {
        return false;
      }
      p := p + 1;
      return true;
    }

    method LenByte(field: Field, ch: byte) returns (ok: bool)
      requires state == Sw(field, Len)
      modifies this
      ensures Took(old(LenStep(View(), field, ch)), ok)
    {
      if token == None {
        if ch != DOLLAR {
          return false;
        }
        token, rlen := Some(p), 0;
      } else if IsDigit(ch) {
        rlen := (rlen * 10 + (ch - ZERO)) % UINT32;
      } else if ch == CR {
        if rnarg == 0 || (field == ReqType && rlen == 0) {
          return false;
        }
        if field != ReqType && field != Key && p - token.value <= 1 {
          return false;
        }
        rnarg, token, state := rnarg - 1, None, Sw(field, LenLf);
      } else {
        return false;
      }
      p := p + 1;
      return true;
    }

    /** Takes a whole argument at once: its length is known and a CR must follow it. */
    method BodyBytes(field: Field) returns (ok: bool)
      requires state == Sw(field, Body) && p < |cmd|
      modifies this
      ensures Took(old(BodyStep(cmd, View(), field)), ok)
    {
      hide ArityOf;
      var m := p + rlen;
      if m >= |cmd| || cmd[m] != CR {
        return false;
      }
      match field {
        case ReqType =>
          var found := CommandOf(cmd[p..m]);
          if found == None {
            return false;
          }
          ty := found;
        case Key =>
          keys := keys + [KeyPos(p, m)];
        case Arg2 =>
          if ty.Some? && ty.value.arity == ArgEval {
            var bad := CountIsBad(cmd[p..m]);
            if AllDigits(cmd[p..m]) {
              AccumulateIs(cmd[p..m]);
            }
            if bad {
              return false;
            }
          }
        case _ =>
      }
      p, rlen, token, state := m, 0, None, Sw(field, Lf);
      p := p + 1;
      return true;
    }

    /** One byte, or one whole argument, by the state. */
    method TakeByte() returns (ok: bool, done: bool)
      requires p < |cmd|
      modifies this
      ensures result == old(result)
      ensures done ==> ok && old(Step(cmd, View())) == Done(View())
      ensures ok && !done ==> old(Step(cmd, View())) == Next(View())
      ensures !ok ==> old(Step(cmd, View())) == Reject
    {
      hide NargStep, LenStep, BodyStep, FieldEnd;
      var ch := cmd[p];
      ok, done := true, false;
      match state {
        case SwStart => ok := NargByte(ch);
        case SwNarg => ok := NargByte(ch);
        case SwNargLf =>
          ok := ch == LF;
          if ok {
            state, p := Sw(ReqType, Len), p + 1;
          }
        case Sw(field, Len) => ok := LenByte(field, ch);
        case Sw(field, LenLf) =>
          ok := ch == LF;
          if ok {
            state, p := Sw(field, Body), p + 1;
          }
        case Sw(field, Body) => ok := BodyBytes(field);
        case Sw(field, Lf) =>
          ok := ch == LF && ty.Some?;
          if ok {
            var v := FieldEnd(Fsa(state, p, token, rlen, rnarg, narg, ty, keys), field, ty.value.arity);
            FieldEndGoes(View(), field, ty.value.arity);
            ok, done := !v.Reject?, v.Done?;
            if v.Next? {
              state, p := v.f.state, p + 1;
            }
          }
      }
    }

    /** One pass over the request, dispatching on the state. */
    method RedisParseCmd()
      requires View() == INIT && result == ParseOk
      modifies this
      ensures match Run(cmd, INIT)
              case Rejected => result == ParseError
              case o => result == ParseOk && ty == o.f.ty && narg == o.f.narg && keys == o.f.keys
    {
      hide Step;
      while p < |cmd|
        invariant Run(cmd, INIT) == Run(cmd, View()) && result == ParseOk
        decreases |cmd| - p
      {
        StepAdvances(cmd, View());
        var ok, done := TakeByte();
        if !ok {
          result := ParseError;
          return;
        }
        if done {
          return;
        }
      }
    }
  }

  lemma FieldEndGoes(f: Fsa, field: Field, a: Arity)
    ensures match FieldEnd(f, field, a)
            case Next(g) => g == f.(state := g.state, p := f.p + 1)
            case Done(g) => g == f
            case Reject => true
  {
  }

  lemma StepAdvances(cmd: seq<byte>, f: Fsa)
    requires f.p < |cmd|
    ensures var v := Step(cmd, f);
            && (v.Next? ==> v.f.p > f.p && Run(cmd, f) == Run(cmd, v.f))
            && (v.Done? ==> v.f == f && Run(cmd, f) == Accepted(f))
            && (v.Reject? ==> Run(cmd, f) == Rejected)
  {
  }

  /** EVAL's key count must be a non-zero number. */
  method CountIsBad(body: seq<byte>) returns (bad: bool)
    ensures bad <==> body == [] || !AllDigits(body) || DecValue(body) % UINT32 == 0
  {
    if |body| < 1 {
      return true;
    }
    var nkey := 0;
    for i := 0 to |body|
      invariant AllDigits(body[..i]) && nkey == Accumulate(body[..i])
    {
      if !IsDigit(body[i]) {
        return true;
      }
      nkey := AddDigit(nkey, body[i]);
      assert body[..i + 1][..i] == body[..i];
    }
    assert body[..|body|] == body;
    AccumulateIs(body);
    return nkey == 0;
  }

  // ---------------------------------------------------------------- every input

  predicate ManyKeys(a: Arity) { a == ArgX || a == ArgKvx }

  predicate RangesOrdered(cmd: seq<byte>, keys: seq<KeyPos>, p: nat) {
    && (forall i :: 0 <= i < |keys| ==> keys[i].start <= keys[i].end < |cmd| && keys[i].end < p)
    && (forall i, j :: 0 <= i < j < |keys| ==> keys[i].end < keys[j].start)
  }

  // Commands with a single key pass through the key field at most once.
  predicate KeyDue(f: Fsa) {
    match f.state
    case Sw(Key, phase) => phase != Lf
    case Sw(ReqType, _) => true
    case Sw(Arg1, _) => IsEval(f)
    case Sw(Arg2, _) => IsEval(f)
    case _ => false
  }

  predicate FsaOk(cmd: seq<byte>, f: Fsa) {
    && RangesOrdered(cmd, f.keys, f.p)
    && (f.state.Sw? && !(f.state.field == ReqType && f.state.phase != Lf) ==> f.ty.Some?)
    && (!f.state.Sw? || f.state.field == ReqType ==> f.keys == [])
    && (f.ty.Some? && !ManyKeys(f.ty.value.arity) ==> |f.keys| <= 1 && (KeyDue(f) ==> f.keys == []))
  }

  lemma BodyKeepsOk(cmd: seq<byte>, f: Fsa, field: Field)
    requires f.p < |cmd| && FsaOk(cmd, f) && f.state == Sw(field, Body)
    ensures BodyStep(cmd, f, field).Next? ==>
              FsaOk(cmd, BodyStep(cmd, f, field).f) && BodyStep(cmd, f, field).f.p > f.p
  {
    var o := BodyStep(cmd, f, field);
    if o.Next? {
      assert RangesOrdered(cmd, o.f.keys, o.f.p);
    }
  }

  lemma FieldEndKeepsOk(cmd: seq<byte>, f: Fsa, field: Field, a: Arity)
    requires FsaOk(cmd, f) && f.state == Sw(field, Lf) && f.ty.Some? && f.ty.value.arity == a
    ensures match FieldEnd(f, field, a)
            case Next(g) => FsaOk(cmd, g) && g.p > f.p
            case Done(g) => g == f
            case Reject => true
  {
    assert RangesOrdered(cmd, f.keys, f.p + 1);
  }

  lemma {:induction false} StepKeepsOk(cmd: seq<byte>, f: Fsa)
    requires f.p < |cmd| && FsaOk(cmd, f)
    ensures match Step(cmd, f)
            case Next(g) => FsaOk(cmd, g) && g.p > f.p
            case Done(g) => FsaOk(cmd, g)
            case Reject => true
  {
    match f.state
    case Sw(field, Body) => BodyKeepsOk(cmd, f, field);
    case Sw(field, Lf) => if f.ty.Some? { FieldEndKeepsOk(cmd, f, field, f.ty.value.arity); }
    case _ => assert RangesOrdered(cmd, f.keys, f.p + 1);
  }

  /** Whatever the bytes, key positions are disjoint, ascending and inside the request, and only
      MGET, DEL and MSET ever have more than one. */
  lemma {:induction false} RunKeys(cmd: seq<byte>, f: Fsa)
    requires FsaOk(cmd, f)
    ensures var o := Run(cmd, f);
            !o.Rejected? ==>
              && RangesOrdered(cmd, o.f.keys, |cmd| + o.f.p)
              && (|o.f.keys| > 1 ==> o.f.ty.Some? && ManyKeys(o.f.ty.value.arity))
    decreases |cmd| - f.p
  {
    if f.p < |cmd| {
      StepKeepsOk(cmd, f);
      if Step(cmd, f).Next? {
        RunKeys(cmd, Step(cmd, f).f);
      }
    }
  }

  lemma ParsedKeys(cmd: seq<byte>)
    ensures var o := Run(cmd, INIT);
            !o.Rejected? ==>
              && (forall i :: 0 <= i < |o.f.keys| ==> o.f.keys[i].start <= o.f.keys[i].end < |cmd|)
              && (forall i, j :: 0 <= i < j < |o.f.keys| ==> o.f.keys[i].end < o.f.keys[j].start)
              && (|o.f.keys| > 1 ==> o.f.ty.Some? && o.f.ty.value.name in {"mget", "del", "mset"})
  {
    RunKeys(cmd, INIT);
    RunTypeKnown(cmd, INIT);
  }

  predicate TypeKnown(ty: Option<CmdType>) {
    ty.Some? ==> ArityOf(ty.value.name) == Some(ty.value.arity)
  }

  lemma CommandTypeKnown(name: seq<byte>)
    ensures TypeKnown(CommandOf(name))
  {
  }

  lemma {:induction false} StepType(cmd: seq<byte>, f: Fsa)
    requires f.p < |cmd| && TypeKnown(f.ty)
    ensures Step(cmd, f).Next? ==> TypeKnown(Step(cmd, f).f.ty)
  {
    hide ArityOf;
    var m := f.p + f.rlen;
    if m < |cmd| {
      CommandTypeKnown(cmd[f.p..m]);
    }
  }

  lemma {:induction false} RunTypeKnown(cmd: seq<byte>, f: Fsa)
    requires TypeKnown(f.ty)
    ensures var o := Run(cmd, f);
            !o.Rejected? ==> TypeKnown(o.f.ty)
    decreases |cmd| - f.p
  {
    if f.p < |cmd| {
      StepAdvances(cmd, f);
      StepType(cmd, f);
      if Step(cmd, f).Next? {
        RunTypeKnown(cmd, Step(cmd, f).f);
      }
    }
  }
}
