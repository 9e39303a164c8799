// Replies of the Redis serialization protocol and their wire form.

module Resp {
  import opened Bytes

  // BadArray is the object that an array header with a count below -1 leaves behind:
  // a reply of array type that carries the count and no elements.
  datatype Reply =
    | Status(text: seq<byte>)
    | Error(text: seq<byte>)
    | Integer(n: int)
    | Bulk(text: seq<byte>)
    | Nil
    | Array(elems: seq<Reply>)
    | BadArray(count: int)

  function Print(r: Reply): seq<byte>
    decreases r, 0
  {
    match r
    case Status(t) => [PLUS] + t + CRLF
    case Error(t) => [MINUS] + t + CRLF
    case Integer(n) => [COLON] + SignedDec(n) + CRLF
    case Bulk(t) => [DOLLAR] + Dec(|t|) + CRLF + t + CRLF
    case Nil => [DOLLAR] + SignedDec(-1) + CRLF
    case Array(es) => [STAR] + Dec(|es|) + CRLF + PrintAll(es)
    case BadArray(n) => [STAR] + SignedDec(n) + CRLF
  }

  function PrintAll(rs: seq<Reply>): seq<byte>
    decreases rs, 1
  {
    if rs == [] then [] else Print(rs[0]) + PrintAll(rs[1..])
  }

  /** How many arrays deep the reply is nested. */
  function Depth(r: Reply): nat
    decreases r, 0
  {
    match r
    case Array(es) => 1 + DepthAll(es)
    case BadArray(_) => 1
    case _ => 0
  }

  function DepthAll(rs: seq<Reply>): nat
    decreases rs, 1
  {
    if rs == [] then 0 else
    var d, e := Depth(rs[0]), DepthAll(rs[1..]);
    if d > e then d else e
  }

  predicate NoCrlf(s: seq<byte>) {
    forall i :: 0 <= i < |s| - 1 ==> !(s[i] == CR && s[i + 1] == LF)
  }

  /** The replies that have a wire form: line replies hold no CR LF pair. */
  predicate Printable(r: Reply)
    decreases r, 0
  {
    match r
    case Status(t) => NoCrlf(t)
    case Error(t) => NoCrlf(t)
    case Array(es) => PrintableAll(es)
    case BadArray(n) => n < -1
    case _ => true
  }

  predicate PrintableAll(rs: seq<Reply>)
    decreases rs, 1
  {
    rs == [] || (Printable(rs[0]) && PrintableAll(rs[1..]))
  }
}
