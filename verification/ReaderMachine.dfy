// The incremental reply reader as a state machine over values: what one item of input does,
// and what any interleaving of feeds and get-reply calls produces.

module ReaderMachine {
  import opened Bytes
  import opened Resp

  datatype ItemKind = ErrorLine | StatusLine | IntegerLine | BulkItem | ArrayItem

  // An array whose elements are still arriving.
  datatype Frame = Frame(count: int, kids: seq<Reply>)

  // frames holds the open arrays, outermost first; cur is the kind of the item being read,
  // once its type byte has been consumed; input is what has not been consumed yet.
  datatype State = State(frames: seq<Frame>, cur: Option<ItemKind>, input: seq<byte>)

  datatype Failure = BadType(b: byte) | TooDeep

  datatype Outcome =
    | Starved(next: State)
    | Failed(why: Failure)
    | Moved(next: State)
    | Emitted(reply: Reply, next: State)

  // Nine tasks fit on the reader's stack: eight open arrays and the item being read.
  const MAX_OPEN := 8

  ghost predicate Wf(s: State) {
    && |s.frames| <= MAX_OPEN
    && (forall i :: 0 <= i < |s.frames| ==> |s.frames[i].kids| < s.frames[i].count)
    && (s.cur == Some(ArrayItem) ==> |s.frames| < MAX_OPEN)
  }

  function Start(input: seq<byte>): State { State([], None, input) }

  function Feed(s: State, more: seq<byte>): State { s.(input := s.input + more) }

  // ---------------------------------------------------------------- scanning a line

  predicate CrlfHere(s: seq<byte>, i: int) {
    0 <= i && i + 1 < |s| && s[i] == CR && s[i + 1] == LF
  }

  /** Index of the first CR LF pair, or -1. */
  function CrlfAt(s: seq<byte>): (k: int)
    ensures -1 <= k
    ensures k >= 0 ==> CrlfHere(s, k)
    ensures forall i :: CrlfHere(s, i) ==> 0 <= k <= i
  {
    if |s| < 2 then -1
    else if s[0] == CR && s[1] == LF then 0
    else
      var k := CrlfAt(s[1..]);
      assert forall i :: i > 0 && CrlfHere(s, i) ==> CrlfHere(s[1..], i - 1);
      if k < 0 then -1 else k + 1
  }

  lemma CrlfAtIs(s: seq<byte>, k: int)
    requires CrlfHere(s, k) && forall i :: CrlfHere(s, i) ==> k <= i
    ensures CrlfAt(s) == k
  {
  }

  lemma CrlfAtFeed(s: seq<byte>, more: seq<byte>)
    requires CrlfAt(s) >= 0
    ensures CrlfAt(s + more) == CrlfAt(s)
  {
    var k := CrlfAt(s);
    forall i | CrlfHere(s + more, i)
      ensures k <= i
    {
      if i < k {
        assert CrlfHere(s, i);
      }
    }
    CrlfAtIs(s + more, k);
  }

  lemma CrlfAtLine(line: seq<byte>, rest: seq<byte>)
    requires NoCrlf(line)
    ensures CrlfAt(line + CRLF + rest) == |line|
  {
    var s := line + CRLF + rest;
    forall i | CrlfHere(s, i)
      ensures |line| <= i
    {
      assert i < |line| - 1 ==> CrlfHere(line, i);
    }
    CrlfAtIs(s, |line|);
  }

  function BeforeCr(s: seq<byte>): seq<byte> {
    if s == [] || s[0] == CR then [] else [s[0]] + BeforeCr(s[1..])
  }

  lemma {:induction false} BeforeCrWhole(s: seq<byte>)
    requires CR !in s
    ensures BeforeCr(s) == s
  {
    if s != [] {
      BeforeCrWhole(s[1..]);
    }
  }

  function Unsigned(s: seq<byte>): seq<byte> {
    if s != [] && (s[0] == MINUS || s[0] == PLUS) then s[1..] else s
  }

  /** The number on a line: optional sign, digits up to the first CR, -1 if anything else is met. */
  function LineInt(line: seq<byte>): int {
    var digits := BeforeCr(Unsigned(line));
    if !AllDigits(digits) then -1
    else if line != [] && line[0] == MINUS then -(DecValue(digits) as int)
    else DecValue(digits)
  }

  lemma LineIntSigned(n: int)
    ensures LineInt(SignedDec(n)) == n
    ensures NoCrlf(SignedDec(n))
  {
    hide Dec;
    var d := Dec(if n < 0 then -n else n);
    DecRoundTrip(if n < 0 then -n else n);
    BeforeCrWhole(d);
    assert Unsigned(SignedDec(n)) == d;
    hide AllDigits, BeforeCr, DecValue;
  }

  /** A plus sign is no part of the number, and anything but digits makes it -1. */
  lemma LineIntForms(n: nat, line: seq<byte>)
    ensures LineInt([PLUS] + Dec(n)) == n
    ensures CR !in line && !AllDigits(Unsigned(line)) ==> LineInt(line) == -1
  {
    hide Dec, DecValue;
    DecRoundTrip(n);
    BeforeCrWhole(Dec(n));
    assert ([PLUS] + Dec(n))[1..] == Dec(n);
    if CR !in line {
      BeforeCrWhole(Unsigned(line));
    }
  }

  // ---------------------------------------------------------------- one item

  /** Puts a finished object in its place and closes every array that it completes. */
  function Complete(r: Reply, frames: seq<Frame>, rest: seq<byte>): (o: Outcome)
    ensures (o.Moved? || o.Emitted?) && o.next.input == rest && o.next.cur == None
    decreases |frames|
  {
    if frames == [] then Emitted(r, Start(rest)) else
    var top := |frames| - 1;
    var kids := frames[top].kids + [r];
    if |kids| == frames[top].count
    then Complete(Array(kids), frames[..top], rest)
    else Moved(State(frames[top := frames[top].(kids := kids)], None, rest))
  }

  function ItemKindOf(b: byte): Option<ItemKind> {
    if b == MINUS then Some(ErrorLine)
    else if b == PLUS then Some(StatusLine)
    else if b == COLON then Some(IntegerLine)
    else if b == DOLLAR then Some(BulkItem)
    else if b == STAR then Some(ArrayItem)
    else None
  }

  function TypeStep(s: State): Outcome {
    if s.input == [] then Starved(s) else
    match ItemKindOf(s.input[0])
    case None => Failed(BadType(s.input[0]))
    case Some(k) =>
      if k == ArrayItem && |s.frames| == MAX_OPEN then Failed(TooDeep)
      else Moved(s.(cur := Some(k), input := s.input[1..]))
  }

  function LineObject(kind: ItemKind, line: seq<byte>): Reply {
    match kind
    case ErrorLine => Error(line)
    case StatusLine => Status(line)
    case _ => Integer(LineInt(line))
  }

  function LineStep(s: State, kind: ItemKind): Outcome {
    var k := CrlfAt(s.input);
    if k < 0 then Starved(s) else
    Complete(LineObject(kind, s.input[..k]), s.frames, s.input[k + 2..])
  }

  function BulkStep(s: State): Outcome {
    var k := CrlfAt(s.input);
    if k < 0 then Starved(s) else
    var len := LineInt(s.input[..k]);
    if len < 0 then Complete(Nil, s.frames, s.input[k + 2..])
    else if k + 2 + len + 2 <= |s.input|
    then Complete(Bulk(s.input[k + 2..k + 2 + len]), s.frames, s.input[k + 2 + len + 2..])
    else Starved(s)
  }

  function NoElements(n: int): Reply {
    if n == -1 then Nil else if n == 0 then Array([]) else BadArray(n)
  }

  function ArrayStep(s: State): Outcome {
    var k := CrlfAt(s.input);
    if k < 0 then Starved(s) else
    var n, rest := LineInt(s.input[..k]), s.input[k + 2..];
    if n > 0 then Moved(State(s.frames + [Frame(n, [])], None, rest))
    else Complete(NoElements(n), s.frames, rest)
  }

  function Step(s: State): Outcome {
    match s.cur
    case None => TypeStep(s)
    case Some(BulkItem) => BulkStep(s)
    case Some(ArrayItem) => ArrayStep(s)
    case Some(kind) => LineStep(s, kind)
  }

  /** Completing an object keeps the stack well formed and leaves the given bytes unread. */
  lemma {:induction false} CompleteShape(r: Reply, frames: seq<Frame>, rest: seq<byte>, more: seq<byte>)
    ensures Wf(State(frames, None, rest)) ==> Wf(Complete(r, frames, rest).next)
    ensures Complete(r, frames, rest + more) ==
            match Complete(r, frames, rest)
            case Moved(t) => Moved(Feed(t, more))
            case Emitted(e, t) => Emitted(e, Feed(t, more))
            case o => o
    decreases |frames|
  {
    if frames != [] {
      var top := |frames| - 1;
      var kids := frames[top].kids + [r];
      if |kids| == frames[top].count {
        CompleteShape(Array(kids), frames[..top], rest, more);
      }
    }
  }

  lemma LineWf(s: State, kind: ItemKind)
    requires Wf(s) && !LineStep(s, kind).Starved?
    ensures Wf(LineStep(s, kind).next) && |LineStep(s, kind).next.input| < |s.input|
  {
    hide CrlfAt, LineInt, Complete;
    var k := CrlfAt(s.input);
    CompleteShape(LineObject(kind, s.input[..k]), s.frames, s.input[k + 2..], []);
  }

  lemma BulkWf(s: State)
    requires Wf(s) && !BulkStep(s).Starved?
    ensures Wf(BulkStep(s).next) && |BulkStep(s).next.input| < |s.input|
  {
    hide CrlfAt, LineInt, Complete;
    var k := CrlfAt(s.input);
    var len := LineInt(s.input[..k]);
    var e := if len < 0 then k else k + 2 + len;
    CompleteShape(if len < 0 then Nil else Bulk(s.input[k + 2..e]), s.frames, s.input[e + 2..], []);
  }

  lemma ArrayWf(s: State)
    requires Wf(s) && s.cur == Some(ArrayItem) && !ArrayStep(s).Starved?
    ensures Wf(ArrayStep(s).next) && |ArrayStep(s).next.input| < |s.input|
  {
    hide CrlfAt, LineInt, Complete;
    var k := CrlfAt(s.input);
    CompleteShape(NoElements(LineInt(s.input[..k])), s.frames, s.input[k + 2..], []);
  }

  /** The stack never holds more than eight open arrays, each with room for its next element,
      and every step that gets anywhere consumes input. */
  lemma StepKeepsWf(s: State)
    requires Wf(s)
    ensures var o := Step(s);
            && (o.Starved? ==> o.next == s)
            && (o.Moved? || o.Emitted? ==> Wf(o.next) && |o.next.input| < |s.input|)
  {
    hide CrlfAt, LineInt, Complete;
    if s.cur.Some? && !Step(s).Starved? {
      match s.cur.value
      case BulkItem => BulkWf(s);
      case ArrayItem => ArrayWf(s);
      case kind => LineWf(s, kind);
    }
  }

  function FeedOutcome(o: Outcome, more: seq<byte>): Outcome {
    match o
    case Starved(t) => Starved(Feed(t, more))
    case Failed(w) => o
    case Moved(t) => Moved(Feed(t, more))
    case Emitted(r, t) => Emitted(r, Feed(t, more))
  }

  lemma LineFeed(s: State, kind: ItemKind, more: seq<byte>)
    requires !LineStep(s, kind).Starved?
    ensures LineStep(Feed(s, more), kind) == FeedOutcome(LineStep(s, kind), more)
  {
    hide CrlfAt, LineInt, Complete;
    var k := CrlfAt(s.input);
    CrlfAtFeed(s.input, more);
    var fed := s.input + more;
    assert fed[..k] == s.input[..k] && fed[k + 2..] == s.input[k + 2..] + more;
    CompleteShape(LineObject(kind, s.input[..k]), s.frames, s.input[k + 2..], more);
  }

  lemma BulkFeed(s: State, more: seq<byte>)
    requires !BulkStep(s).Starved?
    ensures BulkStep(Feed(s, more)) == FeedOutcome(BulkStep(s), more)
  {
    hide CrlfAt, LineInt, Complete;
    var k := CrlfAt(s.input);
    CrlfAtFeed(s.input, more);
    var fed, len := s.input + more, LineInt(s.input[..k]);
    assert fed[..k] == s.input[..k];
    var e := if len < 0 then k else k + 2 + len;
    assert fed[e + 2..] == s.input[e + 2..] + more;
    if len < 0 {
      CompleteShape(Nil, s.frames, s.input[e + 2..], more);
    } else {
      assert fed[k + 2..e] == s.input[k + 2..e];
      CompleteShape(Bulk(s.input[k + 2..e]), s.frames, s.input[e + 2..], more);
    }
  }

  lemma ArrayFeed(s: State, more: seq<byte>)
    requires !ArrayStep(s).Starved?
    ensures ArrayStep(Feed(s, more)) == FeedOutcome(ArrayStep(s), more)
  {
    hide CrlfAt, LineInt, Complete;
    var k := CrlfAt(s.input);
    CrlfAtFeed(s.input, more);
    var fed := s.input + more;
    assert fed[..k] == s.input[..k] && fed[k + 2..] == s.input[k + 2..] + more;
    CompleteShape(NoElements(LineInt(s.input[..k])), s.frames, s.input[k + 2..], more);
  }

  /** Bytes that arrive later never change what a step made of the bytes already there. */
  lemma StepFeed(s: State, more: seq<byte>)
    ensures Step(s).Starved? ==> Step(s).next == s
    ensures !Step(s).Starved? ==> Step(Feed(s, more)) == FeedOutcome(Step(s), more)
  {
    if !Step(s).Starved? {
      match s.cur
      case None => assert (s.input + more)[1..] == s.input[1..] + more;
      case Some(BulkItem) => BulkFeed(s, more);
      case Some(ArrayItem) => ArrayFeed(s, more);
      case Some(kind) => LineFeed(s, kind, more);
    }
  }

  // ---------------------------------------------------------------- whole runs

  /** One get-reply call: items are read until a reply is whole, input runs out, or it is malformed. */
  function Pump(s: State): Outcome
    requires Wf(s)
    decreases |s.input|
  {
    StepKeepsWf(s);
    match Step(s)
    case Moved(t) => Pump(t)
    case o => o
  }

  datatype Ending = Waiting(s: State) | Broken(why: Failure)

  // Everything a stream yields: the replies in order, then where reading stops.
  datatype Trace = Trace(replies: seq<Reply>, end: Ending)

  function Then(replies: seq<Reply>, t: Trace): Trace { Trace(replies + t.replies, t.end) }

  lemma ThenThen(a: seq<Reply>, b: seq<Reply>, t: Trace)
    ensures Then(a, Then(b, t)) == Then(a + b, t)
  {
    assert a + (b + t.replies) == a + b + t.replies;
  }

  function Drain(s: State): Trace
    requires Wf(s)
    decreases |s.input|
  {
    StepKeepsWf(s);
    match Step(s)
    case Starved(_) => Trace([], Waiting(s))
    case Failed(w) => Trace([], Broken(w))
    case Moved(t) => Drain(t)
    case Emitted(r, t) => Then([r], Drain(t))
  }

  lemma {:induction false} PumpIsFirst(s: State)
    requires Wf(s)
    ensures match Pump(s)
            case Starved(t) => Wf(t) && Drain(s) == Drain(t) == Trace([], Waiting(t))
            case Failed(w) => Drain(s) == Trace([], Broken(w))
            case Emitted(r, t) => Wf(t) && |t.input| < |s.input| && Drain(s) == Then([r], Drain(t))
            case Moved(_) => false
    decreases |s.input|
  {
    StepKeepsWf(s);
    var o := Step(s);
    if o.Moved? {
      PumpIsFirst(o.next);
    }
  }

  /** Reading everything at once, or some now and the rest after more bytes came, is the same. */
  lemma {:induction false} DrainFeed(s: State, more: seq<byte>)
    requires Wf(s)
    ensures match Drain(s).end
            case Waiting(t) => Wf(t) && Drain(Feed(s, more)) == Then(Drain(s).replies, Drain(Feed(t, more)))
            case Broken(_) => Drain(Feed(s, more)) == Drain(s)
    decreases |s.input|
  {
    hide Step;
    StepKeepsWf(s);
    StepFeed(s, more);
    match Step(s)
    case Starved(t) =>
      assert Then([], Drain(Feed(s, more))) == Drain(Feed(s, more));
    case Failed(w) =>
    case Moved(t) =>
      DrainFeed(t, more);
    case Emitted(r, t) =>
      DrainFeed(t, more);
      var d := Drain(t);
      if d.end.Waiting? {
        ThenThen([r], d.replies, Drain(Feed(d.end.s, more)));
      }
  }

  // A reader between calls: reading on, or stopped for good by an error.
  datatype Reader = Live(s: State) | Dead(why: Failure)

  datatype Op = FeedBytes(chunk: seq<byte>) | GetReply

  ghost predicate ReaderWf(r: Reader) { r.Live? ==> Wf(r.s) }

  function Apply(r: Reader, op: Op): (Reader, Option<Reply>)
    requires ReaderWf(r)
  {
    if r.Dead? then (r, None) else
    match op
    case FeedBytes(chunk) => (Live(Feed(r.s, chunk)), None)
    case GetReply =>
      match Pump(r.s)
      case Starved(t) => (Live(t), None)
      case Failed(w) => (Dead(w), None)
      case Emitted(reply, t) => (Live(t), Some(reply))
      case Moved(t) => (Live(t), None)
  }

  lemma ApplyKeepsWf(r: Reader, op: Op)
    requires ReaderWf(r)
    ensures ReaderWf(Apply(r, op).0)
  {
    if r.Live? {
      PumpIsFirst(r.s);
    }
  }

  function Run(r: Reader, ops: seq<Op>): (res: (Reader, seq<Reply>))
    requires ReaderWf(r)
    ensures ReaderWf(res.0)
    decreases |ops|
  {
    if ops == [] then (r, []) else
    ApplyKeepsWf(r, ops[0]);
    var (r1, got) := Apply(r, ops[0]);
    var (r2, rest) := Run(r1, ops[1..]);
    (r2, Emission(got) + rest)
  }

  function Emission(got: Option<Reply>): seq<Reply> {
    if got.Some? then [got.value] else []
  }

  function Offered(ops: seq<Op>): seq<byte> {
    if ops == [] then []
    else (match ops[0] case FeedBytes(chunk) => chunk case GetReply => []) + Offered(ops[1..])
  }

  // Everything the reader will have yielded once `more` has been offered too.
  ghost function Eventually(r: Reader, more: seq<byte>): Trace
    requires ReaderWf(r)
  {
    match r
    case Live(s) => Drain(Feed(s, more))
    case Dead(w) => Trace([], Broken(w))
  }

  lemma PumpFeed(s: State, more: seq<byte>)
    requires Wf(s)
    ensures match Pump(s)
            case Starved(t) => Wf(t) && Drain(Feed(s, more)) == Drain(Feed(t, more))
            case Failed(w) => Drain(Feed(s, more)) == Trace([], Broken(w))
            case Emitted(r, t) => Wf(t) && Drain(Feed(s, more)) == Then([r], Drain(Feed(t, more)))
            case Moved(_) => true
    decreases |s.input|
  {
    StepKeepsWf(s);
    StepFeed(s, more);
    var o := Step(s);
    if o.Moved? {
      PumpFeed(o.next, more);
    }
  }

  lemma ApplyAccounts(r: Reader, op: Op, later: seq<byte>)
    requires ReaderWf(r)
    ensures ReaderWf(Apply(r, op).0)
    ensures Eventually(r, Offered([op]) + later)
         == Then(Emission(Apply(r, op).1), Eventually(Apply(r, op).0, later))
  {
    ApplyKeepsWf(r, op);
    assert Offered([op]) == match op case FeedBytes(chunk) => chunk case GetReply => [];
    if r.Live? {
      if op.FeedBytes? {
        assert Feed(r.s, op.chunk + later) == Feed(Feed(r.s, op.chunk), later);
      } else {
        assert [] + later == later;
        PumpIsFirst(r.s);
        PumpFeed(r.s, later);
      }
    }
  }

  /** The replies emitted so far, followed by what is still to come, are all the stream yields. */
  lemma {:induction false} RunAccountsForAll(r: Reader, ops: seq<Op>)
    requires ReaderWf(r)
    ensures Eventually(r, Offered(ops)) == Then(Run(r, ops).1, Eventually(Run(r, ops).0, []))
    decreases |ops|
  {
    if ops != [] {
      var later := Offered(ops[1..]);
      ApplyAccounts(r, ops[0], later);
      var (r1, got) := Apply(r, ops[0]);
      RunAccountsForAll(r1, ops[1..]);
      var (r2, rest) := Run(r1, ops[1..]);
      calc {
        Eventually(r, Offered(ops));
        { assert Offered(ops) == Offered([ops[0]]) + later; }
        Then(Emission(got), Eventually(r1, later));
        Then(Emission(got), Then(rest, Eventually(r2, [])));
        { ThenThen(Emission(got), rest, Eventually(r2, [])); }
        Then(Emission(got) + rest, Eventually(r2, []));
      }
    }
  }

  ghost predicate Drained(r: Reader)
    requires ReaderWf(r)
  {
    Apply(r, GetReply) == (r, None)
  }

  lemma DrainedEventually(r: Reader)
    requires ReaderWf(r) && Drained(r)
    ensures Eventually(r, []) == Trace([], match r case Live(s) => Waiting(s) case Dead(w) => Broken(w))
  {
    if r.Live? {
      PumpIsFirst(r.s);
      assert Feed(r.s, []) == r.s;
    }
  }

  /** However a stream is cut into feeds and however get-reply calls fall between them, two readers
      offered the same bytes and asked until nothing is left have emitted the same replies and are
      in the same state, error included. */
  lemma ChunkIndependence(ops1: seq<Op>, ops2: seq<Op>)
    requires Offered(ops1) == Offered(ops2)
    requires Drained(Run(Live(Start([])), ops1).0) && Drained(Run(Live(Start([])), ops2).0)
    ensures Run(Live(Start([])), ops1) == Run(Live(Start([])), ops2)
  {
    var init := Live(Start([]));
    RunAccountsForAll(init, ops1);
    RunAccountsForAll(init, ops2);
    var (r1, out1) := Run(init, ops1);
    var (r2, out2) := Run(init, ops2);
    DrainedEventually(r1);
    DrainedEventually(r2);
    assert out1 + [] == out1 && out2 + [] == out2;
  }
}
