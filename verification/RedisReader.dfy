// The reader as the program keeps it: a buffer with a cursor and a nine-deep stack of read tasks,
// updated in place, refining the state machine of ReaderMachine.

module RedisReader {
  import opened Bytes
  import opened Resp
  import opened ReaderMachine

  // sds strings end in a NUL that the scanners may look at.
  function ByteAt(s: seq<byte>, i: nat): byte
    requires i <= |s|
  {
    if i < |s| then s[i] else 0
  }

  method SeekNewline(s: seq<byte>) returns (k: int)
    ensures k == CrlfAt(s)
  {
    var p, last := 0, |s| - 1;
    while p < last
      invariant 0 <= p <= |s|
      invariant forall i :: 0 <= i < p ==> !CrlfHere(s, i)
    {
      while p < last && s[p] != CR
        invariant 0 <= p <= last
        invariant forall i :: 0 <= i < p ==> !CrlfHere(s, i)
      {
        p := p + 1;
      }
      if ByteAt(s, p) != CR {
        return -1;
      } else if ByteAt(s, p + 1) == LF {
        CrlfAtIs(s, p);
        return p;
      } else {
        p := p + 1;
      }
    }
    return -1;
  }

  lemma {:induction false} BeforeCrIs(t: seq<byte>, n: nat)
    requires n <= |t| && CR !in t[..n] && (n < |t| ==> t[n] == CR)
    ensures BeforeCr(t) == t[..n]
  {
    if n > 0 {
      assert t[..n][0] == t[0] && t[1..][..n - 1] == t[..n][1..];
      BeforeCrIs(t[1..], n - 1);
    }
  }

  lemma {:induction false} BeforeCrKeeps(t: seq<byte>, n: nat)
    requires n < |t| && CR !in t[..n + 1]
    ensures n < |BeforeCr(t)| && BeforeCr(t)[n] == t[n]
  {
    assert t[..n + 1][0] == t[0];
    if n > 0 {
      assert t[1..][..n] == t[..n + 1][1..];
      BeforeCrKeeps(t[1..], n - 1);
    }
  }

  method ReadLongLong(s: seq<byte>) returns (v: int)
    requires CrlfAt(s) >= 0
    ensures v == LineInt(s[..CrlfAt(s)])
  {
    ghost var k := CrlfAt(s);
    ghost var body := Unsigned(s[..k]);
    var from, mult := 0, 1;
    if s[0] == MINUS {
      mult, from := -1, 1;
    } else if s[0] == PLUS {
      from := 1;
    }
    assert |body| == k - from && forall j :: 0 <= j < |body| ==> body[j] == s[from + j];
    ghost var n := 0;  // digits read
    var i, value := from, 0;
    while s[i] != CR
      invariant i == from + n <= k
      invariant CR !in body[..n] && AllDigits(body[..n]) && value == DecValue(body[..n])
      decreases k - i
    {
      hide DecValue, CrlfAt;
      var dec := s[i] - ZERO;
      assert body[..n + 1] == body[..n] + [body[n]];
      if dec < 0 || dec >= 10 {
        BeforeCrKeeps(body, n);
        return -1;
      }
      DecValueGrows(body, n);
      value := value * 10 + dec;
      i := i + 1;
      n := n + 1;
    }
    BeforeCrIs(body, n);
    return mult * value;
  }

  // kind is None until the type byte has been read; obj holds the elements of an open array.
  datatype Task = Task(kind: Option<ItemKind>, elements: int, idx: int, obj: seq<Reply>)

  /** What processItem does: the type byte if it is still due, then the typed item. */
  function ItemStep(s: State): Outcome {
    if s.cur.Some? then Step(s) else
    match TypeStep(s)
    case Moved(t) => Step(t)
    case o => o
  }

  lemma PumpByItems(s: State)
    requires Wf(s)
    ensures var o := ItemStep(s);
            && (o.Starved? || o.Moved? ==> Wf(o.next))
            && (o.Moved? ==> |o.next.input| < |s.input|)
            && Pump(s) == match o case Moved(t) => Pump(t) case _ => o
  {
    StepKeepsWf(s);
    if s.cur.None? && TypeStep(s).Moved? {
      StepKeepsWf(TypeStep(s).next);
    }
  }

  class RedisReader {
    var err: Option<Failure>
    var buf: seq<byte>
    var pos: nat
    const rstack: array<Task>
    var ridx: int
    var reply: Option<Reply>
    ghost var frames: seq<Frame>  // the open arrays, as the stack holds them

    ghost predicate StackOk()
      reads this, rstack
    {
      && rstack.Length == MAX_OPEN + 1
      && pos <= |buf|
      && -1 <= ridx <= MAX_OPEN
      && |frames| == (if ridx < 0 then 0 else ridx)
      && (forall i :: 0 <= i < ridx ==> Open(rstack[i], rstack[i + 1].idx, frames[i]))
    }

    // The task of an open array, its child's index being next.
    static ghost predicate Open(t: Task, next: int, f: Frame) {
      t.kind == Some(ArrayItem) && f == Frame(t.elements, t.obj) && |t.obj| == next < t.elements
    }

    /** The abstract state; a reader with an empty stack is about to read a type byte. */
    ghost function Abs(): State
      reads this, rstack
      requires StackOk()
    {
      State(frames, if ridx < 0 then None else rstack[ridx].kind, buf[pos..])
    }

    ghost predicate Valid()
      reads this, rstack
    {
      && StackOk()
      && Wf(Abs())
      && reply == None
      && (err.Some? ==> ridx == -1 && buf == [])
    }

    ghost function View(): Reader
      reads this, rstack
      requires Valid()
    {
      if err.Some? then Dead(err.value) else Live(Abs())
    }

    constructor ()
      ensures Valid() && fresh(rstack) && View() == Live(Start([]))
    {
      err, buf, pos, ridx, reply, frames := None, [], 0, -1, None, [];
      rstack := new Task[MAX_OPEN + 1](_ => Task(None, -1, -1, []));
    }

    // The state of the fields once an item has had the given outcome.
    ghost predicate Shows(o: Outcome)
      reads this, rstack
    {
      && StackOk()
      && (err == if o.Failed? then Some(o.why) else None)
      && (reply == if o.Emitted? then Some(o.reply) else None)
      && (ridx == -1 <==> o.Emitted? || o.Failed?)
      && (if o.Failed? then buf == [] else Abs() == o.next)
    }

    method SetError(why: Failure)
      requires rstack.Length == MAX_OPEN + 1
      modifies this
      ensures Shows(Failed(why))
    {
      reply, buf, pos, ridx, err, frames := None, [], 0, -1, Some(why), [];
    }

    /** Stores a finished object with its parent; the parent is popped to if that completes it. */
    method StoreInParent(o: Reply) returns (full: bool, parent: Reply)
      requires StackOk() && ridx > 0
      modifies this`ridx, this`frames, rstack
      ensures StackOk() && ridx >= 0
      ensures var n := old(ridx) - 1;
              var kids := old(frames[n].kids) + [o];
              full == (|kids| == old(frames[n].count)) && parent == Array(kids) &&
              frames == (if full then old(frames)[..n] else old(frames)[n := Frame(old(frames[n].count), kids)]) &&
              (!full ==> ridx > 0 && rstack[ridx].kind == None)
    {
      var n := ridx - 1;
      var cur, prv := rstack[ridx], rstack[n];
      var kids := prv.obj + [o];
      parent := Array(kids);
      assert Open(prv, cur.idx, frames[n]);
      rstack[n] := prv.(obj := kids);
      full := cur.idx == prv.elements - 1;
      if full {
        ridx, frames := n, frames[..n];
      } else {
        rstack[ridx] := cur.(kind := None, elements := -1, idx := cur.idx + 1);
        frames := frames[n := Frame(prv.elements, kids)];
      }
    }

    /** Puts a finished object in its place and pops every array that it completes. */
    method MoveToNextTask(obj: Reply)
      requires StackOk() && ridx >= 0 && err == None && reply == None
      modifies this`ridx, this`reply, this`frames, rstack
      ensures Shows(Complete(obj, old(frames), old(buf[pos..])))
    {
      var o := obj;
      while ridx > 0
        invariant StackOk() && ridx >= 0 && reply == None
        invariant Complete(o, frames, buf[pos..]) == Complete(obj, old(frames), buf[pos..])
        decreases ridx
      {
        ghost var was := frames;
        var full, parent := StoreInParent(o);
        if !full {
          assert Complete(o, was, buf[pos..]) == Moved(State(frames, None, buf[pos..]));
          return;
        }
        o := parent;
      }
      reply, ridx := Some(o), -1;
    }

    method ProcessLineItem(kind: ItemKind) returns (ok: bool)
      requires StackOk() && ridx >= 0 && err == None && reply == None
      requires kind in {ErrorLine, StatusLine, IntegerLine} && rstack[ridx].kind == Some(kind)
      modifies this, rstack
      ensures Shows(old(LineStep(Abs(), kind)))
      ensures ok == !old(LineStep(Abs(), kind)).Starved?
    {
      var p := buf[pos..];
      var len := SeekNewline(p);
      if len < 0 {
        return false;
      }
      var obj;
      if kind == IntegerLine {
        var n := ReadLongLong(p);
        obj := Integer(n);
      } else {
        obj := if kind == ErrorLine then Error(p[..len]) else Status(p[..len]);
      }
      pos := pos + len + 2;
      assert buf[pos..] == p[len + 2..];
      CompleteShape(obj, frames, buf[pos..], []);
      MoveToNextTask(obj);
      return true;
    }

    method ProcessBulkItem() returns (ok: bool)
      requires StackOk() && ridx >= 0 && err == None && reply == None
      requires rstack[ridx].kind == Some(BulkItem)
      modifies this, rstack
      ensures Shows(old(BulkStep(Abs())))
      ensures ok == !old(BulkStep(Abs())).Starved?
    {
      hide CrlfAt, LineInt, Complete;
      ghost var was := Abs();
      var p := buf[pos..];
      var s := SeekNewline(p);
      if s < 0 {
        return false;
      }
      var bytelen := s + 2;
      var len := ReadLongLong(p);
      var obj;
      if len < 0 {
        obj := Nil;
      } else {
        bytelen := bytelen + len + 2;
        if pos + bytelen > |buf| {
          return false;
        }
        obj := Bulk(p[s + 2..s + 2 + len]);
      }
      assert BulkStep(was) == Complete(obj, was.frames, p[bytelen..]);
      CompleteShape(obj, was.frames, p[bytelen..], []);
      pos := pos + bytelen;
      assert buf[pos..] == p[bytelen..];
      MoveToNextTask(obj);
      return true;
    }

    method ProcessMultiBulkItem() returns (ok: bool)
      requires StackOk() && ridx >= 0 && err == None && reply == None
      requires rstack[ridx].kind == Some(ArrayItem)
      modifies this, rstack
      ensures old(ridx) == MAX_OPEN ==> !ok && Shows(Failed(TooDeep))
      ensures old(ridx) < MAX_OPEN ==> Shows(old(ArrayStep(Abs()))) && ok == !old(ArrayStep(Abs())).Starved?
    {
      hide CrlfAt, LineInt, Complete;
      if ridx == MAX_OPEN {
        SetError(TooDeep);
        return false;
      }
      ghost var was := Abs();
      var p := buf[pos..];
      var len := SeekNewline(p);
      if len < 0 {
        return false;
      }
      var elements := ReadLongLong(p);
      pos := pos + len + 2;
      assert buf[pos..] == p[len + 2..];
      if elements > 0 {
        PushTask(elements);
      } else {
        var obj := if elements == -1 then Nil else if elements == 0 then Array([]) else BadArray(elements);
        assert ArrayStep(was) == Complete(obj, was.frames, p[len + 2..]);
        CompleteShape(obj, was.frames, p[len + 2..], []);
        MoveToNextTask(obj);
      }
      return true;
    }

    /** Opens an array: its elements are read by a task of their own. */
    method PushTask(elements: int)
      requires StackOk() && 0 <= ridx < MAX_OPEN && rstack[ridx].kind == Some(ArrayItem) && elements > 0
      modifies this`ridx, this`frames, rstack
      ensures StackOk() && ridx == old(ridx) + 1
      ensures Abs() == State(old(frames) + [Frame(elements, [])], None, buf[pos..])
    {
      frames := frames + [Frame(elements, [])];
      rstack[ridx] := rstack[ridx].(elements := elements, obj := []);
      ridx := ridx + 1;
      rstack[ridx] := Task(None, -1, 0, []);
    }

    method ProcessItem() returns (ok: bool)
      requires Valid() && ridx >= 0 && err == None
      modifies this, rstack
      ensures Shows(old(ItemStep(Abs())))
      ensures ok == (old(ItemStep(Abs())).Moved? || old(ItemStep(Abs())).Emitted?)
    {
      hide LineStep, BulkStep, ArrayStep;
      if rstack[ridx].kind == None {
        if pos == |buf| {
          return false;
        }
        var kind := ItemKindOf(buf[pos]);
        if kind == None {
          SetError(BadType(buf[pos]));
          return false;
        }
        TakeType(kind.value);
      }
      ok := ProcessTyped();
    }

    /** The type byte is consumed. */
    method TakeType(kind: ItemKind)
      requires StackOk() && ridx >= 0 && err == None && reply == None && rstack[ridx].kind == None && pos < |buf|
      modifies this`pos, rstack
      ensures StackOk() && Abs() == old(Abs()).(cur := Some(kind), input := old(Abs()).input[1..])
    {
      pos := pos + 1;
      rstack[ridx] := rstack[ridx].(kind := Some(kind));
      assert old(buf[pos..])[1..] == buf[pos..];
    }

    /** The item whose type is known. */
    method ProcessTyped() returns (ok: bool)
      requires StackOk() && ridx >= 0 && err == None && reply == None && rstack[ridx].kind.Some?
      modifies this, rstack
      ensures old(ridx) == MAX_OPEN && old(rstack[ridx].kind) == Some(ArrayItem) ==> !ok && Shows(Failed(TooDeep))
      ensures old(ridx) < MAX_OPEN || old(rstack[ridx].kind) != Some(ArrayItem) ==>
                Shows(old(Step(Abs()))) && ok == (old(Step(Abs())).Moved? || old(Step(Abs())).Emitted?)
    {
      StepOutcome(Abs());
      match rstack[ridx].kind
      case Some(BulkItem) => ok := ProcessBulkItem();
      case Some(ArrayItem) => ok := ProcessMultiBulkItem();
      case Some(kind) => ok := ProcessLineItem(kind);
    }

    /** The loop of get-reply: items until a reply is complete or no progress is possible. */
    method ProcessItems()
      requires Valid() && ridx >= 0 && err == None
      modifies this, rstack
      ensures Shows(Pump(old(Abs())))
    {
      ghost var s := Abs();
      ghost var o := Starved(s);
      while ridx >= 0
        invariant Shows(o)
        invariant o.Starved? ==> Valid() && Pump(o.next) == Pump(s)
        invariant o.Emitted? ==> o == Pump(s)
        invariant !o.Failed? && !o.Moved?
        decreases if ridx >= 0 then |Abs().input| + 1 else 0
      {
        PumpByItems(Abs());
        o := ItemStep(Abs());
        var more := ProcessItem();
        if !more {
          break;
        }
        if o.Moved? {
          o := Starved(o.next);
        }
      }
    }

    /** Appends what the socket delivered. */
    method Feed(chunk: seq<byte>) returns (ok: bool)
      requires Valid()
      modifies this
      ensures Valid() && View() == Apply(old(View()), FeedBytes(chunk)).0
      ensures ok == old(View()).Live?
    {
      if err.Some? {
        return false;
      }
      if |chunk| >= 1 {
        assert (buf + chunk)[pos..] == buf[pos..] + chunk;
        buf := buf + chunk;
      } else {
        assert buf[pos..] + chunk == buf[pos..];
      }
      return true;
    }

    /** Reads items until a reply is complete; at most one reply is handed out per call. */
    method GetReply() returns (ok: bool, got: Option<Reply>)
      requires Valid()
      modifies this, rstack
      ensures Valid() && (View(), got) == Apply(old(View()), ReaderMachine.GetReply)
      ensures ok == View().Live?
    {
      if err.Some? {
        return false, None;
      }
      if |buf| == 0 {
        return true, None;
      }
      if ridx == -1 {
        rstack[0] := Task(None, -1, -1, []);
        ridx := 0;
      }
      PumpIsFirst(old(Abs()));
      ProcessItems();
      if err.Some? {
        return false, None;
      }
      if pos >= 1024 {
        buf := buf[pos..];
        pos := 0;
      }
      got := None;
      if ridx == -1 {
        got := reply;
        reply := None;
      }
      return true, got;
    }
  }

  lemma StepOutcome(s: State)
    ensures s.cur.Some? && Step(s).Starved? ==> Step(s).next == s
    ensures s.cur.Some? ==> !Step(s).Failed?
  {
    hide CrlfAt, LineInt, Complete;
  }
}
