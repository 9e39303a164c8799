// The reader undoes the printer: every printable reply nested at most eight arrays deep is read
// back as it was, and every deeper one is refused.

module ReaderRoundTrip {
  import opened Bytes
  import opened Resp
  import opened ReaderMachine

  /** What is still to come once `r` has been put in its place. */
  function After(r: Reply, frames: seq<Frame>, rest: seq<byte>): Trace
    requires Wf(State(frames, None, []))
  {
    CompleteShape(r, frames, rest, []);
    assert Wf(State(frames, None, rest));
    var o := Complete(r, frames, rest);
    if o.Moved? then Drain(o.next) else Then([o.reply], Drain(o.next))
  }

  lemma DrainTyped(frames: seq<Frame>, b: byte, body: seq<byte>)
    requires ItemKindOf(b).Some? && Wf(State(frames, ItemKindOf(b), body))
    ensures Drain(State(frames, None, [b] + body)) == Drain(State(frames, ItemKindOf(b), body))
  {
    assert ([b] + body)[1..] == body;
  }

  /** An item whose step completes an object. */
  lemma DrainObject(frames: seq<Frame>, kind: ItemKind, body: seq<byte>, r: Reply, rest: seq<byte>)
    requires Wf(State(frames, None, [])) && Wf(State(frames, Some(kind), body))
    requires Step(State(frames, Some(kind), body)) == Complete(r, frames, rest)
    ensures Drain(State(frames, Some(kind), body)) == After(r, frames, rest)
  {
    hide Complete, Step;
    CompleteShape(r, frames, rest, []);
  }

  lemma ReadLine(frames: seq<Frame>, b: byte, line: seq<byte>, rest: seq<byte>)
    requires b in [PLUS, MINUS, COLON] && NoCrlf(line) && Wf(State(frames, None, []))
    ensures Drain(State(frames, None, [b] + line + CRLF + rest))
         == After(LineObject(ItemKindOf(b).value, line), frames, rest)
  {
    var body := line + CRLF + rest;
    assert [b] + line + CRLF + rest == [b] + body;
    DrainTyped(frames, b, body);
    CrlfAtLine(line, rest);
    assert body[..|line|] == line && body[|line| + 2..] == rest;
    CompleteShape(LineObject(ItemKindOf(b).value, line), frames, rest, []);
  }

  lemma BulkStepFound(frames: seq<Frame>, input: seq<byte>, k: nat, len: nat)
    requires CrlfAt(input) == k && k + 2 + len + 2 <= |input| && LineInt(input[..k]) == len
    ensures BulkStep(State(frames, Some(BulkItem), input))
         == Complete(Bulk(input[k + 2..k + 2 + len]), frames, input[k + 2 + len + 2..])
  {
    hide CrlfAt, LineInt, Complete;
  }

  lemma BulkSlices(d: seq<byte>, text: seq<byte>, rest: seq<byte>)
    ensures var body, k := d + CRLF + (text + CRLF + rest), |d|;
            && |body| == k + 2 + |text| + 2 + |rest| && body[..k] == d
            && body[k + 2..k + 2 + |text|] == text && body[k + 2 + |text| + 2..] == rest
  {
    var tail := text + CRLF + rest;
    var body, k := d + CRLF + tail, |d|;
    assert body[k + 2..] == tail;
    assert body[k + 2..k + 2 + |text|] == tail[..|text|] == text;
    assert body[k + 2 + |text| + 2..] == tail[|text| + 2..] == rest;
  }

  lemma BulkStepOn(frames: seq<Frame>, text: seq<byte>, rest: seq<byte>)
    ensures BulkStep(State(frames, Some(BulkItem), Dec(|text|) + CRLF + (text + CRLF + rest)))
         == Complete(Bulk(text), frames, rest)
  {
    hide CrlfAt, LineInt, Complete, Dec, BulkStep;
    var d, tail := Dec(|text|), text + CRLF + rest;
    LineIntSigned(|text|);
    CrlfAtLine(d, tail);
    BulkSlices(d, text, rest);
    BulkStepFound(frames, d + CRLF + tail, |d|, |text|);
  }

  lemma ReadBulk(frames: seq<Frame>, text: seq<byte>, rest: seq<byte>)
    requires Wf(State(frames, None, []))
    ensures Drain(State(frames, None, Print(Bulk(text)) + rest)) == After(Bulk(text), frames, rest)
  {
    hide BulkStep, Complete, Drain, Dec;
    var body := Dec(|text|) + CRLF + (text + CRLF + rest);
    assert Print(Bulk(text)) + rest == [DOLLAR] + body;
    DrainTyped(frames, DOLLAR, body);
    BulkStepOn(frames, text, rest);
    DrainObject(frames, BulkItem, body, Bulk(text), rest);
  }

  lemma NilStepOn(frames: seq<Frame>, n: int, rest: seq<byte>)
    requires n < 0
    ensures BulkStep(State(frames, Some(BulkItem), SignedDec(n) + CRLF + rest)) == Complete(Nil, frames, rest)
  {
    hide CrlfAt, LineInt, Complete, SignedDec;
    var d := SignedDec(n);
    LineIntSigned(n);
    CrlfAtLine(d, rest);
    var body := d + CRLF + rest;
    assert body[..|d|] == d && body[|d| + 2..] == rest;
  }

  lemma ArrayStepFound(frames: seq<Frame>, line: seq<byte>, rest: seq<byte>, n: int)
    requires NoCrlf(line) && LineInt(line) == n != -1 && |frames| < MAX_OPEN
    ensures ArrayStep(State(frames, Some(ArrayItem), line + CRLF + rest))
         == if n > 0 then Moved(State(frames + [Frame(n, [])], None, rest)) else Complete(NoElements(n), frames, rest)
  {
    hide LineInt, Complete;
    CrlfAtLine(line, rest);
    var body := line + CRLF + rest;
    assert body[..|line|] == line && body[|line| + 2..] == rest;
  }

  lemma ReadArrayHeader(frames: seq<Frame>, n: int, rest: seq<byte>)
    requires Wf(State(frames, None, [])) && |frames| < MAX_OPEN && n != -1
    ensures Drain(State(frames, None, [STAR] + SignedDec(n) + CRLF + rest))
         == if n > 0 then Drain(State(frames + [Frame(n, [])], None, rest))
            else After(NoElements(n), frames, rest)
  {
    var d := SignedDec(n);
    var body := d + CRLF + rest;
    assert [STAR] + d + CRLF + rest == [STAR] + body;
    DrainTyped(frames, STAR, body);
    LineIntSigned(n);
    ArrayStepFound(frames, d, rest, n);
    hide ArrayStep, LineInt, SignedDec;
    if n <= 0 {
      DrainObject(frames, ArrayItem, body, NoElements(n), rest);
    }
  }

  // The other wire form of nil.
  const NULL_ARRAY: seq<byte> := [STAR] + SignedDec(-1) + CRLF

  /** An array header with the count -1 is nil, at any place where an array may stand. */
  lemma ReadNullArray(frames: seq<Frame>, rest: seq<byte>)
    requires Wf(State(frames, None, [])) && |frames| < MAX_OPEN
    ensures Drain(State(frames, None, [STAR] + SignedDec(-1) + CRLF + rest)) == After(Nil, frames, rest)
  {
    hide ArrayStep, LineInt, SignedDec, Complete, Drain;
    var d := SignedDec(-1);
    assert [STAR] + d + CRLF + rest == [STAR] + (d + CRLF + rest);
    DrainTyped(frames, STAR, d + CRLF + rest);
    LineIntSigned(-1);
    NullStepOn(frames, d, rest);
    DrainObject(frames, ArrayItem, d + CRLF + rest, Nil, rest);
  }

  /** With eight arrays open the two forms differ: the array form is refused, the bulk form is nil. */
  lemma NullArrayTooDeep(frames: seq<Frame>, rest: seq<byte>)
    requires Wf(State(frames, None, [])) && |frames| == MAX_OPEN
    ensures Drain(State(frames, None, NULL_ARRAY + rest)) == Trace([], Broken(TooDeep))
    ensures Drain(State(frames, None, Print(Nil) + rest)) == After(Nil, frames, rest)
  {
    hide SignedDec;
    assert (NULL_ARRAY + rest)[0] == STAR;
    ReadNegativeBulk(frames, -1, rest);
  }

  lemma NullStepOn(frames: seq<Frame>, line: seq<byte>, rest: seq<byte>)
    requires NoCrlf(line) && LineInt(line) == -1
    ensures ArrayStep(State(frames, Some(ArrayItem), line + CRLF + rest)) == Complete(Nil, frames, rest)
  {
    hide LineInt, Complete;
    CrlfAtLine(line, rest);
    var body := line + CRLF + rest;
    assert body[..|line|] == line && body[|line| + 2..] == rest;
  }

  /** Any negative length makes a bulk item nil. */
  lemma ReadNegativeBulk(frames: seq<Frame>, n: int, rest: seq<byte>)
    requires Wf(State(frames, None, [])) && n < 0
    ensures Drain(State(frames, None, [DOLLAR] + SignedDec(n) + CRLF + rest)) == After(Nil, frames, rest)
  {
    hide BulkStep, LineInt, SignedDec, Complete, Drain;
    var d := SignedDec(n);
    assert [DOLLAR] + d + CRLF + rest == [DOLLAR] + (d + CRLF + rest);
    DrainTyped(frames, DOLLAR, d + CRLF + rest);
    NilStepOn(frames, n, rest);
    DrainObject(frames, BulkItem, d + CRLF + rest, Nil, rest);
  }

  /** Anything but the five type bytes where a reply has to begin is a protocol error, and ends the reading. */
  lemma RefuseType(frames: seq<Frame>, b: byte, rest: seq<byte>)
    requires Wf(State(frames, None, [b] + rest)) && b !in [PLUS, MINUS, COLON, DOLLAR, STAR]
    ensures Drain(State(frames, None, [b] + rest)) == Trace([], Broken(BadType(b)))
  {
  }

  /** Reading a printed reply is the same as having it handed over whole. */
  lemma {:induction false} ReadReply(frames: seq<Frame>, r: Reply, rest: seq<byte>)
    requires Printable(r) && Wf(State(frames, None, [])) && |frames| + Depth(r) <= MAX_OPEN
    ensures Drain(State(frames, None, Print(r) + rest)) == After(r, frames, rest)
    decreases r, 0
  {
    match r
    case Status(t) => ReadLine(frames, PLUS, t, rest);
    case Error(t) => ReadLine(frames, MINUS, t, rest);
    case Integer(n) =>
      LineIntSigned(n);
      ReadLine(frames, COLON, SignedDec(n), rest);
    case Bulk(t) => ReadBulk(frames, t, rest);
    case Nil => ReadNegativeBulk(frames, -1, rest);
    case BadArray(n) => ReadArrayHeader(frames, n, rest);
    case Array(es) => ReadArray(frames, es, rest);
  }

  lemma {:induction false} ReadArray(frames: seq<Frame>, es: seq<Reply>, rest: seq<byte>)
    requires PrintableAll(es) && Wf(State(frames, None, [])) && |frames| + 1 + DepthAll(es) <= MAX_OPEN
    ensures Drain(State(frames, None, Print(Array(es)) + rest)) == After(Array(es), frames, rest)
    decreases es, 2
  {
    assert Print(Array(es)) + rest == [STAR] + SignedDec(|es|) + CRLF + (PrintAll(es) + rest);
    hide Print, Drain, SignedDec, Complete;
    ReadArrayHeader(frames, |es|, PrintAll(es) + rest);
    if es == [] {
      assert PrintAll(es) + rest == rest;
    } else {
      ReadElements(frames, |es|, [], es, rest);
      assert [] + es == es;
    }
  }

  /** Storing an element either closes its array or leaves it open with one more element. */
  lemma AfterElement(frames: seq<Frame>, n: nat, done: seq<Reply>, e: Reply, tail: seq<byte>)
    requires |done| < n && Wf(State(frames, None, [])) && |frames| < MAX_OPEN
    ensures Wf(State(frames + [Frame(n, done)], None, []))
    ensures After(e, frames + [Frame(n, done)], tail)
         == if |done| + 1 == n then After(Array(done + [e]), frames, tail)
            else Drain(State(frames + [Frame(n, done + [e])], None, tail))
  {
    var open := frames + [Frame(n, done)];
    assert open[..|frames|] == frames;
    assert open[|frames| := Frame(n, done + [e])] == frames + [Frame(n, done + [e])];
  }

  lemma {:induction false} ReadElements(frames: seq<Frame>, n: nat, done: seq<Reply>, es: seq<Reply>, rest: seq<byte>)
    requires es != [] && PrintableAll(es) && |done| + |es| == n
    requires Wf(State(frames, None, [])) && |frames| + 1 + DepthAll(es) <= MAX_OPEN
    ensures Wf(State(frames + [Frame(n, done)], None, []))
    ensures Drain(State(frames + [Frame(n, done)], None, PrintAll(es) + rest))
         == After(Array(done + es), frames, rest)
    decreases es, 1
  {
    hide Drain, After, Print;
    var tail := PrintAll(es[1..]) + rest;
    assert PrintAll(es) + rest == Print(es[0]) + tail;
    ReadReply(frames + [Frame(n, done)], es[0], tail);
    AfterElement(frames, n, done, es[0], tail);
    if |es| == 1 {
      assert tail == rest && [es[0]] == es;
    } else {
      ReadElements(frames, n, done + [es[0]], es[1..], rest);
      assert done + es == done + [es[0]] + es[1..];
    }
  }

  /** The elements of an array that is still open after them. */
  lemma {:induction false} ReadFront(frames: seq<Frame>, n: nat, done: seq<Reply>, es: seq<Reply>, rest: seq<byte>)
    requires PrintableAll(es) && |done| + |es| < n
    requires Wf(State(frames, None, [])) && |frames| + 1 + DepthAll(es) <= MAX_OPEN
    ensures Wf(State(frames + [Frame(n, done)], None, [])) && Wf(State(frames + [Frame(n, done + es)], None, []))
    ensures Drain(State(frames + [Frame(n, done)], None, PrintAll(es) + rest))
         == Drain(State(frames + [Frame(n, done + es)], None, rest))
    decreases |es|
  {
    hide Drain, After, Print;
    if es == [] {
      assert done + es == done && PrintAll(es) + rest == rest;
    } else {
      var tail := PrintAll(es[1..]) + rest;
      assert PrintAll(es) + rest == Print(es[0]) + tail;
      ReadReply(frames + [Frame(n, done)], es[0], tail);
      AfterElement(frames, n, done, es[0], tail);
      ReadFront(frames, n, done + [es[0]], es[1..], rest);
      assert done + es == done + [es[0]] + es[1..];
    }
  }

  /** Both wire forms of nil are read alike as an element of an array, whatever stands before and after. */
  lemma NilsAlike(frames: seq<Frame>, n: nat, es: seq<Reply>, rest: seq<byte>)
    requires PrintableAll(es) && |es| < n
    requires Wf(State(frames, None, [])) && |frames| + 1 + DepthAll(es) <= MAX_OPEN && |frames| + 1 < MAX_OPEN
    ensures Wf(State(frames + [Frame(n, [])], None, []))
    ensures Drain(State(frames + [Frame(n, [])], None, PrintAll(es) + (NULL_ARRAY + rest)))
         == Drain(State(frames + [Frame(n, [])], None, PrintAll(es) + (Print(Nil) + rest)))
         == After(Nil, frames + [Frame(n, es)], rest)
  {
    hide Drain, After, Print, PrintAll;
    assert [] + es == es;
    ReadFront(frames, n, [], es, NULL_ARRAY + rest);
    ReadFront(frames, n, [], es, Print(Nil) + rest);
    ReadNullArray(frames + [Frame(n, es)], rest);
    ReadReply(frames + [Frame(n, es)], Nil, rest);
  }

  /** A ninth level of nesting is a protocol error, and nothing of the reply is emitted. */
  lemma {:induction false} RefuseDeep(frames: seq<Frame>, r: Reply, rest: seq<byte>)
    requires Printable(r) && Wf(State(frames, None, [])) && |frames| + Depth(r) > MAX_OPEN
    ensures Drain(State(frames, None, Print(r) + rest)) == Trace([], Broken(TooDeep))
    decreases r, 0
  {
    if |frames| == MAX_OPEN {
      assert (Print(r) + rest)[0] == STAR;
    } else {
      var es := r.elems;
      ReadArrayHeader(frames, |es|, PrintAll(es) + rest);
      assert Print(r) + rest == [STAR] + SignedDec(|es|) + CRLF + (PrintAll(es) + rest);
      RefuseDeepElement(frames, |es|, [], es, rest);
    }
  }

  lemma {:induction false} RefuseDeepElement(frames: seq<Frame>, n: nat, done: seq<Reply>, es: seq<Reply>,
                                             rest: seq<byte>)
    requires PrintableAll(es) && |done| + |es| == n
    requires Wf(State(frames, None, [])) && |frames| < MAX_OPEN < |frames| + 1 + DepthAll(es)
    ensures Wf(State(frames + [Frame(n, done)], None, []))
    ensures Drain(State(frames + [Frame(n, done)], None, PrintAll(es) + rest)) == Trace([], Broken(TooDeep))
    decreases es, 1
  {
    var open := frames + [Frame(n, done)];
    var tail := PrintAll(es[1..]) + rest;
    assert PrintAll(es) + rest == Print(es[0]) + tail;
    if |open| + Depth(es[0]) > MAX_OPEN {
      RefuseDeep(open, es[0], tail);
    } else {
      ReadReply(open, es[0], tail);
      AfterElement(frames, n, done, es[0], tail);
      RefuseDeepElement(frames, n, done + [es[0]], es[1..], rest);
    }
  }

  lemma DrainIdle()
    ensures Drain(Start([])) == Trace([], Waiting(Start([])))
  {
  }

  lemma RoundTrip(r: Reply)
    requires Printable(r)
    ensures Drain(Start(Print(r))) ==
            if Depth(r) <= MAX_OPEN then Trace([r], Waiting(Start([]))) else Trace([], Broken(TooDeep))
  {
    assert Print(r) + [] == Print(r);
    if Depth(r) <= MAX_OPEN {
      ReadReply([], r, []);
      DrainIdle();
    } else {
      RefuseDeep([], r, []);
    }
  }

  lemma {:induction false} StreamRoundTrip(rs: seq<Reply>)
    requires PrintableAll(rs) && DepthAll(rs) <= MAX_OPEN
    ensures Drain(Start(PrintAll(rs))) == Trace(rs, Waiting(Start([])))
  {
    if rs == [] {
      DrainIdle();
    } else {
      ReadReply([], rs[0], PrintAll(rs[1..]));
      StreamRoundTrip(rs[1..]);
      assert [rs[0]] + rs[1..] == rs;
    }
  }

  /** A printed stream, however it arrives, is read back as the replies that were printed. */
  lemma AnyChunkingReadsBack(rs: seq<Reply>, ops: seq<Op>)
    requires PrintableAll(rs) && DepthAll(rs) <= MAX_OPEN && Offered(ops) == PrintAll(rs)
    requires Drained(Run(Live(Start([])), ops).0)
    ensures Run(Live(Start([])), ops) == (Live(Start([])), rs)
  {
    var init := Live(Start([]));
    RunAccountsForAll(init, ops);
    DrainedEventually(Run(init, ops).0);
    StreamRoundTrip(rs);
    assert [] + PrintAll(rs) == PrintAll(rs);
    assert Run(init, ops).1 + [] == Run(init, ops).1;
  }
}
