// The command parser: a byte-at-a-time automaton that finds a request's type and its keys.

module Command {
  import opened Bytes

  // How many arguments a command takes after its name, and which of them are keys.
  //   ArgZ: anything, no key;  Arg(n): one key, then n;  ArgN: one key, then any number;
  //   ArgX: keys only;  ArgKvx: key-value pairs;  ArgEval: script, key count, keys, arguments.
  datatype Arity = ArgZ | Arg(n: nat) | ArgN | ArgX | ArgKvx | ArgEval

  datatype CmdType = CmdType(name: string, arity: Arity)

  const ARG0: seq<string> :=
    ["exists", "persist", "pttl", "sort", "ttl", "type", "dump", "decr", "get", "incr", "strlen", "hgetall",
     "hkeys", "hlen", "hvals", "llen", "lpop", "rpop", "scard", "smembers", "spop", "zcard", "pfcount", "auth"]
  const ARG1: seq<string> :=
    ["expire", "expireat", "pexpire", "pexpireat", "append", "decrby", "getbit", "getset", "incrby",
     "incrbyfloat", "setnx", "hexists", "hget", "lindex", "lpushx", "rpoplpush", "rpushx", "sismember",
     "zrank", "zrevrank", "zscore"]
  const ARG2: seq<string> :=
    ["getrange", "psetex", "setbit", "setex", "setrange", "hincrby", "hincrbyfloat", "hset", "hsetnx",
     "lrange", "lrem", "lset", "ltrim", "smove", "zcount", "zlexcount", "zincrby", "zremrangebylex",
     "zremrangebyrank", "zremrangebyscore", "restore"]
  const ARGN: seq<string> :=
    ["bitcount", "set", "hdel", "hmget", "hmset", "hscan", "lpush", "rpush", "sadd", "sdiff", "sdiffstore",
     "sinter", "sinterstore", "srem", "sunion", "sunionstore", "srandmember", "sscan", "pfadd", "pfmerge",
     "zadd", "zinterstore", "zrange", "zrangebyscore", "zrem", "zrevrange", "zrangebylex",
     "zrevrangebyscore", "zunionstore", "zscan"]

  function ArityOf(name: string): Option<Arity> {
    if name == "mget" || name == "del" then Some(ArgX)
    else if name == "mset" then Some(ArgKvx)
    else if name == "ping" || name == "quit" then Some(ArgZ)
    else if name == "eval" || name == "evalsha" then Some(ArgEval)
    else if name == "linsert" then Some(Arg(3))
    else if name in ARG0 then Some(Arg(0))
    else if name in ARG1 then Some(Arg(1))
    else if name in ARG2 then Some(Arg(2))
    else if name in ARGN then Some(ArgN)
    else None
  }

  /** The classes of the commands. A name in none of them is no command. */
  lemma Classes(name: string)
    ensures match ArityOf(name)
            case Some(ArgZ) => name in {"ping", "quit"}
            case Some(ArgX) => name in {"mget", "del"}
            case Some(ArgKvx) => name == "mset"
            case Some(ArgEval) => name in {"eval", "evalsha"}
            case Some(ArgN) => name in ARGN
            case Some(Arg(n)) =>
              if n == 0 then name in ARG0
              else if n == 1 then name in ARG1
              else if n == 2 then name in ARG2
              else n == 3 && name == "linsert"
            case None =>
              name !in ARG0 + ARG1 + ARG2 + ARGN
              && name !in {"ping", "quit", "mget", "del", "mset", "eval", "evalsha", "linsert"}
  {
  }

  function LowerChar(b: byte): char {
    if 65 <= b <= 90 then (b + 32) as char else b as char
  }

  /** Names are compared without regard to the case of letters. */
  function Lower(name: seq<byte>): string {
    seq(|name|, i requires 0 <= i < |name| => LowerChar(name[i]))
  }

  // The two bytes are the same, or the two cases of one letter.
  predicate SameLetter(x: byte, y: byte) {
    x == y || (65 <= x <= 90 && y == x + 32) || (65 <= y <= 90 && x == y + 32)
  }

  /** Two names are taken for the same exactly when they differ in nothing but the case of letters. */
  lemma CaseOnly(a: seq<byte>, b: seq<byte>)
    ensures Lower(a) == Lower(b) <==> |a| == |b| && forall i :: 0 <= i < |a| ==> SameLetter(a[i], b[i])
    ensures |a| == |b| && (forall i :: 0 <= i < |a| ==> SameLetter(a[i], b[i])) ==> CommandOf(a) == CommandOf(b)
  {
    hide ArityOf;
    if |a| == |b| {
      forall i | 0 <= i < |a|
        ensures Lower(a)[i] == Lower(b)[i] <==> SameLetter(a[i], b[i])
      {
        LowerLetter(a[i], b[i]);
      }
      if forall i :: 0 <= i < |a| ==> SameLetter(a[i], b[i]) {
        assert forall i :: 0 <= i < |a| ==> Lower(a)[i] == Lower(b)[i];
        assert Lower(a) == Lower(b);
      }
    } else {
      assert |Lower(a)| != |Lower(b)|;
    }
  }

  lemma LowerLetter(x: byte, y: byte)
    ensures LowerChar(x) == LowerChar(y) <==> SameLetter(x, y)
  {
    assert LowerChar(x) as int == if 65 <= x <= 90 then x + 32 else x;
    assert LowerChar(y) as int == if 65 <= y <= 90 then y + 32 else y;
  }

  function CommandOf(name: seq<byte>): Option<CmdType> {
    match ArityOf(Lower(name))
    case None => None
    case Some(a) => Some(CmdType(Lower(name), a))
  }

  // ---------------------------------------------------------------- the automaton

  datatype Field = ReqType | Key | Arg1 | Arg2 | Arg3 | ArgRest
  datatype Phase = Len | LenLf | Body | Lf
  // The automaton's 27 states: every field passes through the same four phases.
  datatype State = SwStart | SwNarg | SwNargLf | Sw(field: Field, phase: Phase)

  datatype KeyPos = KeyPos(start: nat, end: nat)

  datatype Fsa = Fsa(state: State, p: nat, token: Option<nat>, rlen: nat, rnarg: nat,
                     narg: nat, ty: Option<CmdType>, keys: seq<KeyPos>)

  const INIT := Fsa(SwStart, 0, None, 0, 0, 0, None, [])

  datatype Verdict = Next(f: Fsa) | Done(f: Fsa) | Reject

  function AddDigit(n: nat, ch: byte): nat
    requires IsDigit(ch)
  {
    (n * 10 + (ch - ZERO)) % UINT32
  }

  /** The digits of the key count of EVAL, accumulated in 32 bits. */
  function Accumulate(s: seq<byte>): nat
    requires AllDigits(s)
  {
    if s == [] then 0 else AddDigit(Accumulate(s[..|s| - 1]), s[|s| - 1])
  }

  /** It is the number the digits stand for, modulo 2^32. */
  lemma {:induction false} AccumulateIs(s: seq<byte>)
    requires AllDigits(s)
    ensures Accumulate(s) == DecValue(s) % UINT32
  {
    if s != [] {
      AccumulateIs(s[..|s| - 1]);
      var n, d := DecValue(s[..|s| - 1]), s[|s| - 1] - ZERO;
      assert n == UINT32 * (n / UINT32) + n % UINT32;
      ModuloAside(10 * (n % UINT32) + d, 10 * (n / UINT32));
    }
  }

  lemma ModuloAside(x: int, k: int)
    ensures (x + UINT32 * k) % UINT32 == x % UINT32
  {
  }

  function IsEval(f: Fsa): bool { f.ty.Some? && f.ty.value.arity == ArgEval }

  function Goto(f: Fsa, field: Field): Verdict {
    Next(f.(state := Sw(field, Len), p := f.p + 1))
  }

  function NargStep(f: Fsa, ch: byte): Verdict {
    if f.token == None then
      if ch != STAR then Reject
      else Next(f.(token := Some(f.p), rnarg := 0, state := SwNarg, p := f.p + 1))
    else if IsDigit(ch) then Next(f.(rnarg := AddDigit(f.rnarg, ch), p := f.p + 1))
    else if ch == CR then
      if f.rnarg == 0 then Reject
      else Next(f.(narg := f.rnarg, token := None, state := SwNargLf, p := f.p + 1))
    else Reject
  }

  function LenStep(f: Fsa, field: Field, ch: byte): Verdict {
    if f.token == None then
      if ch != DOLLAR then Reject else Next(f.(token := Some(f.p), rlen := 0, p := f.p + 1))
    else if IsDigit(ch) then Next(f.(rlen := AddDigit(f.rlen, ch), p := f.p + 1))
    else if ch == CR then
      if f.rnarg == 0 then Reject
      else if field == ReqType && f.rlen == 0 then Reject
      else if field != ReqType && field != Key && f.p - f.token.value <= 1 then Reject
      else Next(f.(rnarg := f.rnarg - 1, token := None, state := Sw(field, LenLf), p := f.p + 1))
    else Reject
  }

  function BodyStep(cmd: seq<byte>, f: Fsa, field: Field): Verdict
    requires f.p < |cmd|
  {
    var m := f.p + f.rlen;
    if m >= |cmd| || cmd[m] != CR then Reject else
    var body := cmd[f.p..m];
    var past := f.(rlen := 0, token := None, state := Sw(field, Lf), p := m + 1);
    match field
    case ReqType => if CommandOf(body) == None then Reject else Next(past.(ty := CommandOf(body)))
    case Key => Next(past.(keys := f.keys + [KeyPos(f.p, m)]))
    case Arg2 =>
      if IsEval(f) && (body == [] || !AllDigits(body) || Accumulate(body) == 0) then Reject else Next(past)
    case _ => Next(past)
  }

  /** Where the end of a field leads, by the command's arity and the arguments still to come. */
  function FieldEnd(f: Fsa, field: Field, a: Arity): Verdict {
    match (field, a)
    case (ReqType, ArgZ) => Done(f)
    case (ReqType, ArgEval) => Goto(f, Arg1)
    case (ReqType, _) => Goto(f, Key)
    case (Key, Arg(n)) => if f.rnarg != n then Reject else if n == 0 then Done(f) else Goto(f, Arg1)
    case (Key, ArgN) => if f.rnarg == 0 then Done(f) else Goto(f, Arg1)
    case (Key, ArgX) => if f.rnarg == 0 then Done(f) else Goto(f, Key)
    case (Key, ArgKvx) => if f.rnarg == 0 then Done(f) else if f.narg % 2 == 0 then Reject else Goto(f, Arg1)
    case (Key, ArgEval) => if f.rnarg == 0 then Done(f) else Goto(f, ArgRest)
    case (Arg1, Arg(n)) =>
      if n == 0 || f.rnarg != n - 1 then Reject else if n == 1 then Done(f) else Goto(f, Arg2)
    case (Arg1, ArgN) => if f.rnarg == 0 then Done(f) else Goto(f, ArgRest)
    case (Arg1, ArgEval) => if f.rnarg < 2 then Reject else Goto(f, Arg2)
    case (Arg1, ArgKvx) => if f.rnarg == 0 then Done(f) else Goto(f, Key)
    case (Arg2, Arg(n)) =>
      if n < 2 || f.rnarg != n - 2 then Reject else if n == 2 then Done(f) else Goto(f, Arg3)
    case (Arg2, ArgN) => if f.rnarg == 0 then Done(f) else Goto(f, ArgRest)
    case (Arg2, ArgEval) => if f.rnarg < 1 then Reject else Goto(f, Key)
    case (Arg3, Arg(n)) => if n != 3 || f.rnarg != 0 then Reject else Done(f)
    case (Arg3, ArgN) => if f.rnarg == 0 then Done(f) else Goto(f, ArgRest)
    case (ArgRest, ArgN) => if f.rnarg == 0 then Done(f) else Goto(f, ArgRest)
    case (ArgRest, ArgEval) => if f.rnarg == 0 then Done(f) else Goto(f, ArgRest)
    case _ => Reject
  }

  function Step(cmd: seq<byte>, f: Fsa): Verdict
    requires f.p < |cmd|
  {
    var ch := cmd[f.p];
    match f.state
    case SwStart => NargStep(f, ch)
    case SwNarg => NargStep(f, ch)
    case SwNargLf => if ch == LF then Goto(f, ReqType) else Reject
    case Sw(field, Len) => LenStep(f, field, ch)
    case Sw(field, LenLf) => if ch == LF then Next(f.(state := Sw(field, Body), p := f.p + 1)) else Reject
    case Sw(field, Body) => BodyStep(cmd, f, field)
    case Sw(field, Lf) => if ch == LF && f.ty.Some? then FieldEnd(f, field, f.ty.value.arity) else Reject
  }

  // Exhausted: the input ended before the command did; the result stays at its initial "ok".
  datatype Outcome = Accepted(f: Fsa) | Exhausted(f: Fsa) | Rejected

  function Run(cmd: seq<byte>, f: Fsa): Outcome
    decreases |cmd| - f.p
  {
    if f.p >= |cmd| then Exhausted(f) else
    match Step(cmd, f)
    case Next(g) => Run(cmd, g)
    case Done(g) => Accepted(g)
    case Reject => Rejected
  }
}
