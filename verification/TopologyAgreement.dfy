// Both topology parsers read back what describes one topology, and the routes they lead to agree.

module TopologyAgreement {
  import opened Bytes
  import opened KeySlot
  import opened Numerals
  import opened Resp
  import opened Sds
  import opened Topology
  import opened Permutations
  import Routing

  // ---------------------------------------------------------------- describing the text

  // The slot tokens of a node line: a slot, a range, or a slot that is being moved.
  datatype Token =
    | Single(n: nat)
    | Range(a: nat, b: nat)
    | Open(n: nat, towards: byte, remote: seq<byte>)

  const BRACKET: byte := 91
  const BRACKET_END: byte := 93

  function TokenParts(t: Token): seq<seq<byte>> {
    match t
    case Single(n) => [Dec(n)]
    case Range(a, b) => [Dec(a), Dec(b)]
    case Open(n, towards, remote) => [[BRACKET] + Dec(n), [towards], remote + [BRACKET_END]]
  }

  function TokenText(t: Token): seq<byte> { Join(TokenParts(t), MINUS) }

  predicate Clean(text: seq<byte>) { SPACE !in text && LF !in text }

  predicate ValidToken(t: Token) {
    match t
    case Single(n) => n < SLOTS
    case Range(a, b) => a <= b < SLOTS
    case Open(n, towards, remote) => towards != MINUS && Clean([towards]) && MINUS !in remote && Clean(remote)
  }

  function TokenGives(t: Token): Option<Span> {
    match t
    case Single(n) => Some(Span(n, n))
    case Range(a, b) => Some(Span(a, b))
    case Open(_, _, _) => None
  }

  lemma DecClean(n: nat)
    ensures Clean(Dec(n)) && MINUS !in Dec(n) && COLON !in Dec(n)
  {
  }

  lemma TokenSplit(t: Token)
    requires ValidToken(t)
    ensures Split(TokenText(t), MINUS) == TokenParts(t)
  {
    hide SplitAll, Dec;
    var parts := TokenParts(t);
    forall i | 0 <= i < |parts|
      ensures MINUS !in parts[i]
    {
      DecClean(if t.Range? && i == 0 then t.a else if t.Range? then t.b else t.n);
    }
    SplitJoin(parts, MINUS);
    assert parts[0] != [];
  }

  lemma TokenClean(t: Token)
    requires ValidToken(t)
    ensures Clean(TokenText(t))
  {
    hide Dec;
    var parts := TokenParts(t);
    forall i | 0 <= i < |parts|
      ensures Clean(parts[i])
    {
      DecClean(if t.Range? && i == 0 then t.a else if t.Range? then t.b else t.n);
    }
    JoinClean(parts, MINUS);
  }

  lemma {:induction false} JoinClean(parts: seq<seq<byte>>, sep: byte)
    requires sep != LF
    requires forall i :: 0 <= i < |parts| ==> Clean(parts[i])
    ensures LF !in Join(parts, sep) && (sep != SPACE ==> Clean(Join(parts, sep)))
  {
    if |parts| > 1 {
      JoinClean(parts[1..], sep);
    }
  }

  lemma TokenRead(t: Token)
    requires ValidToken(t)
    ensures TokenSpan(TokenText(t)) == TokenGives(t) && Clean(TokenText(t))
  {
    hide SplitAll, Split, Dec, TokenText, Atoi;
    TokenSplit(t);
    TokenClean(t);
    match t
    case Single(n) => AtoiDec(n);
    case Range(a, b) =>
      AtoiDec(a);
      AtoiDec(b);
    case Open(_, _, _) =>
  }

  datatype Line =
    | MasterLine(id: seq<byte>, host: seq<byte>, port: nat, myself: bool, more: seq<byte>, rest: seq<seq<byte>>,
                 tokens: seq<Token>)
    | OtherLine(fields: seq<seq<byte>>)

  function TokenTexts(tokens: seq<Token>): (r: seq<seq<byte>>)
    ensures |r| == |tokens| && forall i :: 0 <= i < |r| ==> r[i] == TokenText(tokens[i])
  {
    seq(|tokens|, i requires 0 <= i < |tokens| => TokenText(tokens[i]))
  }

  function Flags(l: Line): seq<byte>
    requires l.MasterLine?
  {
    (if l.myself then MYSELF else []) + MASTER + l.more
  }

  function Fields(l: Line): seq<seq<byte>> {
    match l
    case MasterLine(id, host, port, _, _, rest, tokens) =>
      [id, host + [COLON] + Dec(port), Flags(l)] + rest + TokenTexts(tokens)
    case OtherLine(fields) => fields
  }

  function LineText(l: Line): seq<byte> { Join(Fields(l), SPACE) }

  ghost predicate AllClean(fields: seq<seq<byte>>) { forall i :: 0 <= i < |fields| ==> Clean(fields[i]) }

  // Lines that are no master's, or have no address, describe nothing.
  ghost predicate ValidLine(l: Line) {
    match l
    case MasterLine(id, host, port, _, more, rest, tokens) =>
      && Clean(id) && Clean(host) && host != [] && COLON !in host && 1 <= port <= 65535 && Clean(more)
      && |rest| == 5 && AllClean(rest) && forall i :: 0 <= i < |tokens| ==> ValidToken(tokens[i])
    case OtherLine(fields) =>
      && |fields| >= 8 && AllClean(fields) && (fields[1] == NO_ADDR || !(MASTER <= RoleOf(fields[2])))
  }

  function Gives(tokens: seq<Token>): seq<Span> {
    if tokens == [] then [] else
    Gives(tokens[..|tokens| - 1]) + match TokenGives(tokens[|tokens| - 1]) case None => [] case Some(span) => [span]
  }

  function Info(l: Line): NodeInfo
    requires l.MasterLine?
  {
    NodeInfo(l.host + [COLON] + Dec(l.port), l.host, l.port, Gives(l.tokens))
  }

  function Infos(lines: seq<Line>): seq<NodeInfo> {
    if lines == [] then [] else (if lines[0].MasterLine? then [Info(lines[0])] else []) + Infos(lines[1..])
  }

  lemma {:induction false} TokensRead(tokens: seq<Token>)
    requires forall i :: 0 <= i < |tokens| ==> ValidToken(tokens[i])
    ensures TokenSpans(TokenTexts(tokens)) == Gives(tokens) && AllClean(TokenTexts(tokens))
  {
    hide TokenText, TokenSpan, TokenGives, ValidToken;
    if tokens != [] {
      var n := |tokens| - 1;
      TokensRead(tokens[..n]);
      TokenRead(tokens[n]);
      assert TokenTexts(tokens)[..n] == TokenTexts(tokens[..n]);
      forall i | 0 <= i < |tokens|
        ensures Clean(TokenTexts(tokens)[i])
      {
        TokenRead(tokens[i]);
      }
    }
  }

  lemma FieldsClean(l: Line)
    requires ValidLine(l)
    ensures AllClean(Fields(l)) && |Fields(l)| >= 8
    ensures Split(LineText(l), SPACE) == Fields(l) && LineText(l) != [] && LF !in LineText(l)
  {
    hide SplitAll, TokenText;
    var fields := Fields(l);
    if l.MasterLine? {
      TokensRead(l.tokens);
      assert AllClean(l.rest) && AllClean(TokenTexts(l.tokens));
      assert Clean(fields[0]) && Clean(fields[1]) && Clean(fields[2]);
      assert forall i :: 3 <= i < 8 ==> fields[i] == l.rest[i - 3];
      assert forall i :: 8 <= i < |fields| ==> fields[i] == TokenTexts(l.tokens)[i - 8];
    }
    SplitJoin(fields, SPACE);
    JoinClean(fields, SPACE);
    assert LineText(l) != [] by {
      assert LineText(l) == fields[0] + [SPACE] + Join(fields[1..], SPACE);
    }
  }

  lemma RoleFound(l: Line)
    requires l.MasterLine?
    ensures MASTER <= RoleOf(Flags(l))
  {
    var f := Flags(l);
    if l.myself {
      assert f[..7] == MYSELF;
      assert f[7..] == MASTER + l.more;
    } else {
      assert f == MASTER + l.more;
      assert f[1] != MYSELF[1];
    }
  }

  /** A line of the text is read as what it describes. */
  lemma LineRead(nodes: seq<NodeInfo>, l: Line)
    requires ValidLine(l)
    ensures ParseLine(nodes, LineText(l))
         == if l.OtherLine? then Some(nodes)
            else if HasAddr(nodes, Info(l).addr) then None else Some(nodes + [Info(l)])
  {
    hide SplitAll, TokenText, TokenSpan, LineText;
    FieldsClean(l);
    if l.MasterLine? {
      var fields := Fields(l);
      RoleFound(l);
      TokensRead(l.tokens);
      assert fields[8..] == TokenTexts(l.tokens);
      var parts := [l.host, Dec(l.port)];
      assert parts[1..] == [Dec(l.port)];
      SplitJoin(parts, COLON);
      assert Join(parts, COLON) == fields[1];
      AtoiDec(l.port);
      assert fields[1] != NO_ADDR by {
        assert fields[1][|l.host|] == COLON;
        assert l.host[0] == fields[1][0];
      }
    }
  }

  function LineTexts(lines: seq<Line>): (r: seq<seq<byte>>)
    ensures |r| == |lines|
  {
    if lines == [] then [] else [LineText(lines[0])] + LineTexts(lines[1..])
  }

  ghost predicate AddrsDistinct(nodes: seq<NodeInfo>) {
    forall i, j :: 0 <= i < j < |nodes| ==> nodes[i].addr != nodes[j].addr
  }

  lemma Repeated(nodes: seq<NodeInfo>, info: NodeInfo, rest: seq<NodeInfo>)
    requires HasAddr(nodes, info.addr)
    ensures !AddrsDistinct(nodes + ([info] + rest))
  {
    var i :| 0 <= i < |nodes| && nodes[i].addr == info.addr;
    var all := nodes + ([info] + rest);
    assert all[i] == nodes[i] && all[|nodes|] == info;
  }

  lemma {:induction false} LinesRead(nodes: seq<NodeInfo>, lines: seq<Line>)
    requires forall i :: 0 <= i < |lines| ==> ValidLine(lines[i])
    requires AddrsDistinct(nodes)
    ensures ParseLines(nodes, LineTexts(lines))
         == if AddrsDistinct(nodes + Infos(lines)) then Some(nodes + Infos(lines)) else None
    decreases |lines|
  {
    hide ParseLine, LineText, Info, ValidLine, AddrsDistinct;
    if lines == [] {
      assert nodes + [] == nodes;
    } else {
      var l, rest := lines[0], Infos(lines[1..]);
      LineRead(nodes, l);
      assert LineTexts(lines)[1..] == LineTexts(lines[1..]);
      if l.OtherLine? {
        LinesRead(nodes, lines[1..]);
        assert Infos(lines) == rest;
      } else {
        ConcatTwice(nodes, [Info(l)], rest);
        if HasAddr(nodes, Info(l).addr) {
          Repeated(nodes, Info(l), rest);
        } else {
          DistinctGrows(nodes, Info(l));
          LinesRead(nodes + [Info(l)], lines[1..]);
        }
      }
    }
  }

  lemma DistinctGrows(nodes: seq<NodeInfo>, info: NodeInfo)
    requires AddrsDistinct(nodes) && !HasAddr(nodes, info.addr)
    ensures AddrsDistinct(nodes + [info])
  {
  }

  /** The text of any lines is read as the masters among them, in order, lines without an address and
      open slots giving nothing; it is refused exactly when two masters have the same address. */
  lemma {:induction false} NodesRead(lines: seq<Line>)
    requires forall i :: 0 <= i < |lines| ==> ValidLine(lines[i])
    ensures ParseNodes(Unlines(LineTexts(lines)))
         == if AddrsDistinct(Infos(lines)) then Some(Infos(lines)) else None
  {
    hide ParseLine, LineText, Info, ValidLine;
    TextsFit(lines);
    CutUnlines(LineTexts(lines), 0);
    LinesRead([], lines);
    assert [] + Infos(lines) == Infos(lines);
  }

  lemma {:induction false} TextsFit(lines: seq<Line>)
    requires forall i :: 0 <= i < |lines| ==> ValidLine(lines[i])
    ensures forall i :: 0 <= i < |lines| ==> LF !in LineTexts(lines)[i] && LineTexts(lines)[i] != []
  {
    hide LineText, ValidLine;
    if lines != [] {
      FieldsClean(lines[0]);
      TextsFit(lines[1..]);
    }
  }

  // ---------------------------------------------------------------- describing the reply

  datatype Region = Region(span: Span, host: seq<byte>, port: nat, id: Reply, replicas: seq<Reply>)

  function RegionReply(r: Region): Reply {
    Array([Integer(r.span.start), Integer(r.span.end), Array([Bulk(r.host), Integer(r.port), r.id])] + r.replicas)
  }

  function RegionReplies(regions: seq<Region>): (rs: seq<Reply>)
    ensures |rs| == |regions|
  {
    if regions == [] then [] else [RegionReply(regions[0])] + RegionReplies(regions[1..])
  }

  ghost predicate ValidRegion(r: Region) {
    && r.span.start <= r.span.end < SLOTS && r.host != [] && 1 <= r.port <= 65535
    && forall i :: 0 <= i < |r.replicas| ==> IsNode(r.replicas[i])
  }

  // A range with the address of the node that serves it.
  datatype Assign = Assign(span: Span, host: seq<byte>, port: int)

  function AssignsOf(n: NodeInfo): (r: seq<Assign>)
    ensures |r| == |n.slots| && forall i :: 0 <= i < |r| ==> r[i] == Assign(n.slots[i], n.host, n.port)
  {
    seq(|n.slots|, i requires 0 <= i < |n.slots| => Assign(n.slots[i], n.host, n.port))
  }

  function Assigns(nodes: seq<NodeInfo>): seq<Assign> {
    if nodes == [] then [] else AssignsOf(nodes[0]) + Assigns(nodes[1..])
  }

  function RegionAssigns(regions: seq<Region>): (r: seq<Assign>)
    ensures |r| == |regions|
  {
    if regions == [] then [] else
    [Assign(regions[0].span, regions[0].host, regions[0].port)] + RegionAssigns(regions[1..])
  }

  lemma {:induction false} AssignsAppend(a: seq<NodeInfo>, b: seq<NodeInfo>)
    ensures Assigns(a + b) == Assigns(a) + Assigns(b)
  {
    hide AssignsOf;
    if a == [] {
      assert a + b == b;
    } else {
      AssignsAppend(a[1..], b);
      assert (a + b)[1..] == a[1..] + b && (a + b)[0] == a[0];
      ConcatTwice(AssignsOf(a[0]), Assigns(a[1..]), Assigns(b));
    }
  }

  // Every node is filed under its own host and port.
  ghost predicate OwnAddrs(nodes: seq<NodeInfo>) {
    forall i :: 0 <= i < |nodes| ==>
      nodes[i].addr == AddrText(nodes[i].host, nodes[i].port) && 1 <= nodes[i].port <= 65535
  }

  lemma ColonIsLast(h: seq<byte>, d: seq<byte>)
    requires COLON !in d
    ensures var s := h + [COLON] + d; forall i :: |h| < i < |s| ==> s[i] != COLON
  {
    var s := h + [COLON] + d;
    forall i | |h| < i < |s|
      ensures s[i] != COLON
    {
      assert s[i] == d[i - |h| - 1];
    }
  }

  /** An address text tells its host and its port. */
  lemma AddrTells(h: seq<byte>, p: int, k: seq<byte>, q: int)
    requires AddrText(h, p) == AddrText(k, q) && 1 <= p <= 65535 && 1 <= q <= 65535
    ensures h == k && p == q
  {
    hide Dec;
    var s := AddrText(h, p);
    DecClean(p);
    DecClean(q);
    assert s[|h|] == COLON && s[|k|] == COLON;
    assert s == h + [COLON] + Dec(p) && s == k + [COLON] + Dec(q);
    ColonIsLast(h, Dec(p));
    ColonIsLast(k, Dec(q));
    assert s[|h| + 1..] == Dec(p) && s[|k| + 1..] == Dec(q);
    assert h == s[..|h|] && k == s[..|k|];
    DecRoundTrip(p);
    DecRoundTrip(q);
  }

  lemma {:induction false} AddSlotAssigns(nodes: seq<NodeInfo>, host: seq<byte>, port: nat, span: Span)
    requires OwnAddrs(nodes) && HasAddr(nodes, AddrText(host, port)) && 1 <= port <= 65535
    ensures var more := AddSlot(nodes, AddrText(host, port), span);
            && OwnAddrs(more)
            && multiset(Assigns(more)) == multiset(Assigns(nodes)) + multiset{Assign(span, host, port)}
  {
    hide AddrText;
    var addr := AddrText(host, port);
    var more := AddSlot(nodes, addr, span);
    if nodes[0].addr == addr {
      AddrTells(nodes[0].host, nodes[0].port, host, port);
      assert more[1..] == nodes[1..];
      assert AssignsOf(more[0]) == AssignsOf(nodes[0]) + [Assign(span, host, port)];
    } else {
      AddSlotAssigns(nodes[1..], host, port, span);
      assert more[1..] == AddSlot(nodes[1..], addr, span);
    }
  }

  lemma RegionParsed(nodes: seq<NodeInfo>, r: Region)
    requires ValidRegion(r)
    ensures var addr := AddrText(r.host, r.port);
            ParseRegion(nodes, RegionReply(r))
            == Some(if HasAddr(nodes, addr) then AddSlot(nodes, addr, r.span)
                    else nodes + [NodeInfo(addr, r.host, r.port, [r.span])])
  {
    hide AddrText, HasAddr, AddSlot;
    var e := RegionReply(r);
    var master := Array([Bulk(r.host), Integer(r.port), r.id]);
    assert e.elems[2] == master && master.elems[1].n == r.port;
    forall i | 3 <= i < |e.elems|
      ensures IsNode(e.elems[i])
    {
      assert e.elems[i] == r.replicas[i - 3];
    }
  }

  lemma {:induction false} RegionRead(nodes: seq<NodeInfo>, r: Region)
    requires ValidRegion(r) && OwnAddrs(nodes)
    ensures ParseRegion(nodes, RegionReply(r)).Some?
    ensures var more := ParseRegion(nodes, RegionReply(r)).value;
            && OwnAddrs(more)
            && multiset(Assigns(more)) == multiset(Assigns(nodes)) + multiset{Assign(r.span, r.host, r.port)}
  {
    hide AddrText, ParseRegion, RegionReply;
    RegionParsed(nodes, r);
    var addr := AddrText(r.host, r.port);
    if HasAddr(nodes, addr) {
      AddSlotAssigns(nodes, r.host, r.port, r.span);
    } else {
      var info := NodeInfo(addr, r.host, r.port, [r.span]);
      AssignsAppend(nodes, [info]);
      assert AssignsOf(info) == [Assign(r.span, r.host, r.port)];
      assert Assigns([info]) == AssignsOf(info) + Assigns([]);
    }
  }

  lemma {:induction false} RegionsRead(nodes: seq<NodeInfo>, regions: seq<Region>)
    requires OwnAddrs(nodes) && forall i :: 0 <= i < |regions| ==> ValidRegion(regions[i])
    ensures ParseRegions(nodes, RegionReplies(regions)).Some?
    ensures var more := ParseRegions(nodes, RegionReplies(regions)).value;
            && OwnAddrs(more)
            && multiset(Assigns(more)) == multiset(Assigns(nodes)) + multiset(RegionAssigns(regions))
    decreases |regions|
  {
    hide ParseRegion, RegionReply, OwnAddrs, Assigns, ValidRegion;
    if regions != [] {
      RegionRead(nodes, regions[0]);
      assert RegionReplies(regions)[1..] == RegionReplies(regions[1..]);
      RegionsRead(ParseRegion(nodes, RegionReply(regions[0])).value, regions[1..]);
    }
  }

  // ---------------------------------------------------------------- the routes

  function RangesOf(slots: seq<Span>, node: nat): (r: seq<Routing.Range>)
    ensures |r| == |slots| && forall i :: 0 <= i < |r| ==> r[i] == Routing.Range(slots[i].start, slots[i].end, node)
  {
    seq(|slots|, i requires 0 <= i < |slots| => Routing.Range(slots[i].start, slots[i].end, node))
  }

  // The parsed nodes given a route update sees them, numbered.
  function MastersOf(nodes: seq<NodeInfo>): (r: seq<Routing.Master>)
    ensures |r| == |nodes|
    ensures forall i :: 0 <= i < |r| ==> r[i] == Routing.Master(i, true, RangesOf(nodes[i].slots, i))
  {
    seq(|nodes|, i requires 0 <= i < |nodes| => Routing.Master(i, true, RangesOf(nodes[i].slots, i)))
  }

  // The range is the one assigned, on a node with the host and port assigned.
  ghost predicate Matches(nodes: seq<NodeInfo>, r: Routing.Range, a: Assign) {
    && r.start == a.span.start && r.end == a.span.end
    && r.node < |nodes| && nodes[r.node].host == a.host && nodes[r.node].port == a.port
  }

  lemma {:induction false} RangesMatch(nodes: seq<NodeInfo>)
    ensures var rs, given := Routing.Ranges(MastersOf(nodes)), Assigns(nodes);
            |rs| == |given| && forall i :: 0 <= i < |rs| ==> Matches(nodes, rs[i], given[i])
  {
    if nodes != [] {
      var n := |nodes| - 1;
      var front, last := nodes[..n], nodes[n];
      RangesMatch(front);
      assert MastersOf(nodes)[..n] == MastersOf(front);
      assert nodes == front + [last];
      AssignsAppend(front, [last]);
      assert Assigns([last]) == AssignsOf(last) + Assigns([]);
    }
  }

  ghost predicate Covers(given: seq<Assign>, slot: nat, host: seq<byte>, port: int) {
    exists a :: a in given && a.span.start <= slot <= a.span.end && a.host == host && a.port == port
  }

  // What a table entry says of a slot: the host and port of its node.
  ghost predicate Serves(nodes: seq<NodeInfo>, entry: Option<Routing.Node>, host: seq<byte>, port: int) {
    entry.Some? && entry.value < |nodes| && nodes[entry.value].host == host && nodes[entry.value].port == port
  }

  // A route that an update can have installed for the parsed nodes.
  ghost predicate RouteOf(nodes: seq<NodeInfo>, slots: seq<Routing.Range>, table: seq<Option<Routing.Node>>) {
    Routing.Ordered(slots) && multiset(slots) == multiset(Routing.Ranges(MastersOf(nodes)))
      && Routing.TableOf(table, slots)
  }

  /** The table of a route holds for each slot the host and port the slot is assigned to. */
  lemma RouteServes(nodes: seq<NodeInfo>, slots: seq<Routing.Range>, table: seq<Option<Routing.Node>>, s: nat,
                    host: seq<byte>, port: int)
    requires RouteOf(nodes, slots, table) && s < SLOTS
    ensures Serves(nodes, table[s], host, port) <==> Covers(Assigns(nodes), s, host, port)
  {
    hide Routing.TableOf, Routing.Ordered, Routing.Ranges, MastersOf, Assigns;
    Routing.TableIndependentOfOrder(slots, slots, table, table);
    if Serves(nodes, table[s], host, port) {
      var i :| 0 <= i < |slots| && Routing.InRange(slots[i], s) && slots[i].node == table[s].value;
      RangeCovers(nodes, slots, s, i, host, port);
    }
    if Covers(Assigns(nodes), s, host, port) {
      var i := CoveringRange(nodes, slots, s, host, port);
      assert table[s] == Some(slots[i].node);
    }
  }

  lemma RangeCovers(nodes: seq<NodeInfo>, slots: seq<Routing.Range>, s: nat, i: nat, host: seq<byte>, port: int)
    requires multiset(slots) == multiset(Routing.Ranges(MastersOf(nodes)))
    requires i < |slots| && Routing.InRange(slots[i], s) && Serves(nodes, Some(slots[i].node), host, port)
    ensures Covers(Assigns(nodes), s, host, port)
  {
    var rs, given := Routing.Ranges(MastersOf(nodes)), Assigns(nodes);
    RangesMatch(nodes);
    var k := FoundIn(slots, rs, slots[i]);
    assert Matches(nodes, rs[k], given[k]) && given[k] in given;
  }

  lemma CoveringRange(nodes: seq<NodeInfo>, slots: seq<Routing.Range>, s: nat, host: seq<byte>,
                      port: int) returns (i: nat)
    requires multiset(slots) == multiset(Routing.Ranges(MastersOf(nodes)))
    requires Covers(Assigns(nodes), s, host, port)
    ensures i < |slots| && Routing.InRange(slots[i], s) && Serves(nodes, Some(slots[i].node), host, port)
  {
    var rs, given := Routing.Ranges(MastersOf(nodes)), Assigns(nodes);
    RangesMatch(nodes);
    var a :| a in given && a.span.start <= s <= a.span.end && a.host == host && a.port == port;
    var k :| 0 <= k < |given| && given[k] == a;
    assert Matches(nodes, rs[k], given[k]);
    i := FoundIn(rs, slots, rs[k]);
  }

  // The ranges alone.
  function Plain(given: seq<Assign>): (r: seq<Routing.Range>)
    ensures |r| == |given| && forall i :: 0 <= i < |r| ==> r[i] == Routing.Range(given[i].span.start,
      given[i].span.end, 0)
  {
    seq(|given|, i requires 0 <= i < |given| => Routing.Range(given[i].span.start, given[i].span.end, 0))
  }

  lemma {:induction false} PlainMoves(a: seq<Assign>, b: seq<Assign>)
    requires multiset(a) == multiset(b)
    ensures multiset(Plain(a)) == multiset(Plain(b))
    decreases |a|
  {
    hide Plain;
    if a == [] {
      assert |multiset(b)| == 0 && b == a;
    } else {
      var x := a[|a| - 1];
      var k := FoundIn(a, b, x);
      var front, rest := a[..|a| - 1], b[..k] + b[k + 1..];
      OneLess(a, b, k);
      PlainMoves(front, rest);
      PlainTaken(a, |a| - 1);
      PlainTaken(b, k);
      assert a[..|a| - 1] + a[|a|..] == front;
    }
  }

  lemma PlainTaken(b: seq<Assign>, k: nat)
    requires k < |b|
    ensures multiset(Plain(b)) == multiset(Plain(b[..k] + b[k + 1..])) + multiset(Plain([b[k]]))
  {
    var front, rest, x := Plain(b[..k]), Plain(b[k + 1..]), Plain([b[k]]);
    assert Plain(b) == front + x + rest && Plain(b[..k] + b[k + 1..]) == front + rest;
  }

  lemma AcceptedPlain(nodes: seq<NodeInfo>)
    ensures Routing.Acceptable(MastersOf(nodes))
       <==> Routing.AllValid(Plain(Assigns(nodes))) && Routing.PairwiseDisjoint(Plain(Assigns(nodes)))
  {
    var rs, given := Routing.Ranges(MastersOf(nodes)), Assigns(nodes);
    RangesMatch(nodes);
    assert forall i :: 0 <= i < |rs| ==>
             Matches(nodes, rs[i], given[i])
             && Plain(given)[i].start == rs[i].start && Plain(given)[i].end == rs[i].end;
    assert Routing.PairwiseDisjoint(rs) <==> Routing.PairwiseDisjoint(Plain(given)) by {
      forall i, j | 0 <= i < j < |rs|
        ensures Routing.Overlap(rs[i], rs[j]) <==> Routing.Overlap(Plain(given)[i], Plain(given)[j])
      {
      }
    }
    assert Routing.AllValid(rs) <==> Routing.AllValid(Plain(given)) by {
      forall i | 0 <= i < |rs|
        ensures Routing.ValidRange(rs[i]) <==> Routing.ValidRange(Plain(given)[i])
      {
      }
    }
  }

  lemma AcceptedAlike(p: seq<NodeInfo>, q: seq<NodeInfo>)
    requires multiset(Assigns(p)) == multiset(Assigns(q)) && Routing.Acceptable(MastersOf(p))
    ensures Routing.Acceptable(MastersOf(q))
  {
    AcceptedPlain(p);
    AcceptedPlain(q);
    var a, b := Plain(Assigns(p)), Plain(Assigns(q));
    PlainMoves(Assigns(p), Assigns(q));
    Routing.DisjointMoves(a, b);
    forall i | 0 <= i < |b|
      ensures Routing.ValidRange(b[i])
    {
      var k := FoundIn(b, a, b[i]);
    }
  }

  lemma {:induction false} TablesAgree(p: seq<NodeInfo>, q: seq<NodeInfo>, a: seq<Routing.Range>, b: seq<Routing.Range>,
                    t: seq<Option<Routing.Node>>, u: seq<Option<Routing.Node>>, s: nat, host: seq<byte>, port: int)
    requires multiset(Assigns(p)) == multiset(Assigns(q))
    requires RouteOf(p, a, t) && RouteOf(q, b, u) && s < SLOTS
    ensures Serves(p, t[s], host, port) <==> Serves(q, u[s], host, port)
  {
    RouteServes(p, a, t, s, host, port);
    RouteServes(q, b, u, s, host, port);
    assert forall x :: x in Assigns(p) <==> x in multiset(Assigns(q));
  }

  lemma {:induction false} BothRead(lines: seq<Line>, regions: seq<Region>)
    requires forall i :: 0 <= i < |lines| ==> ValidLine(lines[i])
    requires forall i :: 0 <= i < |regions| ==> ValidRegion(regions[i])
    requires AddrsDistinct(Infos(lines)) && regions != []
    requires multiset(Assigns(Infos(lines))) == multiset(RegionAssigns(regions))
    ensures ParseNodes(Unlines(LineTexts(lines))) == Some(Infos(lines))
    ensures ParseSlots(Array(RegionReplies(regions))).Some?
    ensures multiset(Assigns(Infos(lines))) == multiset(Assigns(ParseSlots(Array(RegionReplies(regions))).value))
  {
    NodesRead(lines);
    RegionsRead([], regions);
  }

  /** The two parsers agree: for a text and a reply that assign the same ranges to the same hosts and
      ports, in whatever order, both are read, an update accepts both or neither, and in the routes
      it installs every slot has the same host and port, or in both none. */
  lemma {:induction false} ParsersAgree(lines: seq<Line>, regions: seq<Region>, a: seq<Routing.Range>,
                                        t: seq<Option<Routing.Node>>,
                     b: seq<Routing.Range>, u: seq<Option<Routing.Node>>, s: nat, host: seq<byte>, port: int)
    requires forall i :: 0 <= i < |lines| ==> ValidLine(lines[i])
    requires forall i :: 0 <= i < |regions| ==> ValidRegion(regions[i])
    requires AddrsDistinct(Infos(lines)) && regions != []
    requires multiset(Assigns(Infos(lines))) == multiset(RegionAssigns(regions))
    ensures ParseNodes(Unlines(LineTexts(lines))).Some? && ParseSlots(Array(RegionReplies(regions))).Some?
    ensures var p, q := ParseNodes(Unlines(LineTexts(lines))).value, ParseSlots(Array(RegionReplies(regions))).value;
            && (Routing.Acceptable(MastersOf(p)) <==> Routing.Acceptable(MastersOf(q)))
            && (RouteOf(p, a, t) && RouteOf(q, b, u) && s < SLOTS ==>
                  (Serves(p, t[s], host, port) <==> Serves(q, u[s], host, port))
                  && (Serves(p, t[s], host, port) <==> Covers(RegionAssigns(regions), s, host, port)))
  {
    hide Routing.Acceptable, RouteOf, Serves, Covers, Assigns;
    BothRead(lines, regions);
    var p, q := Infos(lines), ParseSlots(Array(RegionReplies(regions))).value;
    if Routing.Acceptable(MastersOf(p)) {
      AcceptedAlike(p, q);
    }
    if Routing.Acceptable(MastersOf(q)) {
      AcceptedAlike(q, p);
    }
    if RouteOf(p, a, t) && RouteOf(q, b, u) && s < SLOTS {
      TablesAgree(p, q, a, b, t, u, s, host, port);
      RouteServes(p, a, t, s, host, port);
      CoversMoves(Assigns(p), RegionAssigns(regions), s, host, port);
    }
  }

  lemma CoversMoves(x: seq<Assign>, y: seq<Assign>, slot: nat, host: seq<byte>, port: int)
    requires multiset(x) == multiset(y)
    ensures Covers(x, slot, host, port) <==> Covers(y, slot, host, port)
  {
    assert forall e :: e in x <==> e in multiset(y);
  }
}
