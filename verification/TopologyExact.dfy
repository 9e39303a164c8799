// Exactly which tokens, lines and regions the two topology parsers take, and what they refuse.

module TopologyExact {
  import opened Bytes
  import opened Resp
  import opened Numerals
  import opened Sds
  import opened Topology

  /** A numeral is read as a number exactly when it is nothing but digits, and as that number modulo 2^32
      provided it is below 2^31. */
  lemma AtoiExactly(line: seq<byte>, n: nat)
    ensures Atoi(line) == n <==>
            line != [] && AllDigits(line) && n < 0x8000_0000 && DecValue(line) % 0x1_0000_0000 == n
  {
    if AllDigits(line) {
      WrapIsModulo(DecValue(line));
    }
  }

  lemma WrapIsModulo(v: nat)
    ensures Wrap32(v) == if v % UINT32 < 0x8000_0000 then v % UINT32 else v % UINT32 - UINT32
  {
  }

  // The token is one number, or two around a minus sign.
  ghost predicate Numbers(token: seq<byte>, start: int, end: int, x: seq<byte>, y: seq<byte>) {
    && MINUS !in x && MINUS !in y && Atoi(x) == start && Atoi(y) == end
    && (token == x + [MINUS] + y || (token == x == y && x != []))
  }

  /** A token gives a range exactly when it is one number or two, in order and within the 16384 slots. */
  lemma TokenExactly(token: seq<byte>, span: Span)
    ensures TokenSpan(token) == Some(span) <==>
            0 <= span.start <= span.end <= 16383 && exists x, y :: Numbers(token, span.start, span.end, x, y)
  {
    hide SplitAll, Join, Atoi;
    var parts := SplitAll(token, MINUS);
    JoinSplit(token, MINUS);
    if TokenSpan(token) == Some(span) {
      if |parts| == 2 {
        JoinTwo(parts[0], parts[1], MINUS);
        assert parts == [parts[0], parts[1]];
        assert Numbers(token, span.start, span.end, parts[0], parts[1]);
      } else {
        assert parts == [parts[0]];
        JoinOne(parts[0], MINUS);
        assert Numbers(token, span.start, span.end, token, token);
      }
    }
    if 0 <= span.start <= span.end <= 16383 {
      if x, y :| Numbers(token, span.start, span.end, x, y) {
        if token == x + [MINUS] + y {
          JoinTwo(x, y, MINUS);
          SplitJoin([x, y], MINUS);
        } else {
          NoSeparator(token, MINUS);
        }
      }
    }
  }

  lemma JoinOne(a: seq<byte>, sep: byte)
    ensures Join([a], sep) == a
  {
  }

  // ---------------------------------------------------------------- lines

  // "master" and "myself," as bytes.
  const MASTER_WORD: seq<byte> := [109, 97, 115, 116, 101, 114]
  const MYSELF_WORD: seq<byte> := [109, 121, 115, 101, 108, 102, 44]

  ghost predicate MasterFlags(flags: seq<byte>) {
    exists more :: flags == MASTER_WORD + more || flags == MYSELF_WORD + MASTER_WORD + more
  }

  lemma MasterFlagsAre(flags: seq<byte>)
    ensures MASTER <= RoleOf(flags) <==> MasterFlags(flags)
  {
    if MASTER <= RoleOf(flags) {
      var more := RoleOf(flags)[6..];
      assert RoleOf(flags) == MASTER_WORD + more;
      assert MYSELF <= flags ==> flags == MYSELF_WORD + MASTER_WORD + more;
    }
    if more :| flags == MASTER_WORD + more || flags == MYSELF_WORD + MASTER_WORD + more {
      if flags == MASTER_WORD + more {
        assert flags[1] != MYSELF[1];
      } else {
        assert flags == MYSELF_WORD + (MASTER_WORD + more);
        assert RoleOf(flags) == MASTER_WORD + more;
      }
    }
  }

  ghost predicate HostPort(addr: seq<byte>, host: seq<byte>, port: seq<byte>) {
    COLON !in host && COLON !in port && addr == host + [COLON] + port
  }

  lemma HostPortIs(addr: seq<byte>)
    ensures |Split(addr, COLON)| == 2 <==> exists host, port :: HostPort(addr, host, port)
    ensures forall host, port :: HostPort(addr, host, port) ==> Split(addr, COLON) == [host, port]
  {
    hide SplitAll, Join;
    JoinSplit(addr, COLON);
    var parts := SplitAll(addr, COLON);
    if |Split(addr, COLON)| == 2 {
      JoinTwo(parts[0], parts[1], COLON);
      assert parts == [parts[0], parts[1]];
      assert HostPort(addr, parts[0], parts[1]);
    }
    forall host, port | HostPort(addr, host, port)
      ensures Split(addr, COLON) == [host, port]
    {
      JoinTwo(host, port, COLON);
      SplitJoin([host, port], COLON);
    }
  }

  // The fields of a line, between single spaces.
  ghost predicate FieldsOf(line: seq<byte>, part: seq<seq<byte>>) {
    part != [] && line != [] && line == Join(part, SPACE) && forall i :: 0 <= i < |part| ==> SPACE !in part[i]
  }

  /** An empty line is refused; every other line has fields. */
  lemma EveryLine(nodes: seq<NodeInfo>, line: seq<byte>)
    ensures line == [] ==> ParseLine(nodes, line) == None
    ensures line != [] ==> FieldsOf(line, SplitAll(line, SPACE))
  {
    hide HasAddr, TokenSpans;
    JoinSplit(line, SPACE);
  }

  // The line is that of a master with an address.
  ghost predicate OfMaster(part: seq<seq<byte>>) {
    |part| >= 8 && part[1] != [58, 48] && MasterFlags(part[2])
  }

  /** A line is refused exactly when it has fewer than eight fields, or is that of a master whose address is
      not a host and a port, or is there already. Any other line adds its master, or nothing. */
  lemma LineExactly(nodes: seq<NodeInfo>, line: seq<byte>, part: seq<seq<byte>>)
    requires FieldsOf(line, part)
    ensures ParseLine(nodes, line) == None <==>
            || |part| < 8
            || (OfMaster(part) && ((forall host, port :: !HostPort(part[1], host, port)) || HasAddr(nodes, part[1])))
    ensures |part| >= 8 && !OfMaster(part) ==> ParseLine(nodes, line) == Some(nodes)
    ensures forall host, port :: OfMaster(part) && HostPort(part[1], host, port) && !HasAddr(nodes, part[1]) ==>
              ParseLine(nodes, line)
              == Some(nodes + [NodeInfo(part[1], host, Atoi(port), TokenSpans(part[8..]))])
  {
    hide SplitAll, Join, RoleOf, Atoi, TokenSpans, HasAddr, HostPort, MasterFlags, MASTER;
    SplitJoin(part, SPACE);
    if |part| >= 8 {
      MasterFlagsAre(part[2]);
      HostPortIs(part[1]);
    }
  }

  // ---------------------------------------------------------------- regions

  ghost predicate NodeForm(e: Reply) { exists host, port, id :: e == Array([Bulk(host), Integer(port), id]) }

  ghost predicate RegionForm(e: Reply, start: int, end: int, host: seq<byte>, port: int, id: Reply, more: seq<Reply>) {
    e == Array([Integer(start), Integer(end), Array([Bulk(host), Integer(port), id])] + more)
  }

  lemma NodeFormIs(e: Reply)
    ensures IsNode(e) <==> NodeForm(e)
  {
    if IsNode(e) {
      assert e.elems == [Bulk(e.elems[0].text), Integer(e.elems[1].n), e.elems[2]];
    }
  }

  // The master is known already, or is new with a host, a port and well-formed replicas.
  ghost predicate MasterTaken(nodes: seq<NodeInfo>, host: seq<byte>, port: int, replicas: seq<Reply>) {
    || HasAddr(nodes, AddrText(host, port))
    || (host != [] && port > 0 && 1 <= Wrap32(port) <= 65535
        && forall i :: 0 <= i < |replicas| ==> NodeForm(replicas[i]))
  }

  lemma ReplicasAre(e: Reply)
    requires e.Array? && |e.elems| >= 3
    ensures (exists i :: 3 <= i < |e.elems| && !IsNode(e.elems[i])) <==>
            exists i :: 0 <= i < |e.elems[3..]| && !NodeForm(e.elems[3..][i])
  {
    hide IsNode, NodeForm;
    forall i | 3 <= i < |e.elems|
      ensures IsNode(e.elems[i]) <==> NodeForm(e.elems[3..][i - 3])
    {
      NodeFormIs(e.elems[i]);
      assert e.elems[3..][i - 3] == e.elems[i];
    }
    if i :| 0 <= i < |e.elems[3..]| && !NodeForm(e.elems[3..][i]) {
      assert e.elems[3..][i + 3 - 3] == e.elems[i + 3] && !IsNode(e.elems[i + 3]);
    }
  }

  lemma RegionFormIs(e: Reply)
    requires e.Array? && |e.elems| >= 3 && e.elems[0].Integer? && e.elems[1].Integer? && IsNode(e.elems[2])
    ensures var m := e.elems[2].elems;
            RegionForm(e, e.elems[0].n, e.elems[1].n, m[0].text, m[1].n, m[2], e.elems[3..])
  {
    var m := e.elems[2].elems;
    assert m == [Bulk(m[0].text), Integer(m[1].n), m[2]];
    assert e.elems == [Integer(e.elems[0].n), Integer(e.elems[1].n), e.elems[2]] + e.elems[3..];
  }

  lemma RegionFormTells(e: Reply, start: int, end: int, host: seq<byte>, port: int, id: Reply, more: seq<Reply>)
    requires RegionForm(e, start, end, host, port, id, more)
    ensures e.Array? && |e.elems| >= 3 && e.elems[0] == Integer(start) && e.elems[1] == Integer(end)
    ensures e.elems[2] == Array([Bulk(host), Integer(port), id]) && e.elems[3..] == more
  {
  }

  /** A region is taken exactly when it has the form of one, its bounds are in order as the source's 32-bit
      numbers, and its master can be taken. */
  lemma RegionExactly(nodes: seq<NodeInfo>, e: Reply)
    ensures ParseRegion(nodes, e).Some? <==>
            exists start, end, host, port, id, more ::
              && RegionForm(e, start, end, host, port, id, more)
              && start % 0x1_0000_0000 <= end % 0x1_0000_0000 && MasterTaken(nodes, host, port, more)
  {
    hide HasAddr, AddrText, AddSlot, RegionForm, NodeForm;
    if e.Array? && |e.elems| >= 3 && e.elems[0].Integer? && e.elems[1].Integer? && IsNode(e.elems[2]) {
      RegionFormIs(e);
      ReplicasAre(e);
    }
    forall start, end, host, port, id, more | RegionForm(e, start, end, host, port, id, more)
      ensures e.Array? && |e.elems| >= 3 && e.elems[0] == Integer(start) && e.elems[1] == Integer(end)
      ensures e.elems[2] == Array([Bulk(host), Integer(port), id]) && e.elems[3..] == more
    {
      RegionFormTells(e, start, end, host, port, id, more);
    }
  }
}
