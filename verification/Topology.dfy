// The two topology parsers: the CLUSTER NODES text and the CLUSTER SLOTS reply, each giving the nodes
// of the cluster under their addresses with the slot ranges they own.

module Topology {
  import opened Bytes
  import opened KeySlot
  import opened Numerals
  import opened Resp
  import opened Sds
  import SlaveGrouping

  datatype Span = Span(start: nat, end: nat)

  // A node of the dictionary, under its address.
  datatype NodeInfo = NodeInfo(addr: seq<byte>, host: seq<byte>, port: int, slots: seq<Span>)

  const MYSELF: seq<byte> := [109, 121, 115, 101, 108, 102, 44]   // "myself,"
  const MASTER: seq<byte> := [109, 97, 115, 116, 101, 114]        // "master"
  const SLAVE: seq<byte> := [115, 108, 97, 118, 101]              // "slave"
  const NO_ADDR: seq<byte> := [COLON, ZERO]

  predicate HasAddr(nodes: seq<NodeInfo>, addr: seq<byte>) {
    exists i :: 0 <= i < |nodes| && nodes[i].addr == addr
  }

  // ---------------------------------------------------------------- one line of text

  /** The range a token stands for: one number or two, in bounds. Anything else, open slots included,
      stands for none. */
  function TokenSpan(token: seq<byte>): (r: Option<Span>)
    ensures r.Some? ==> r.value.start <= r.value.end < SLOTS
  {
    var parts := Split(token, MINUS);
    var start := if |parts| == 1 || |parts| == 2 then Atoi(parts[0]) else -1;
    var end := if |parts| == 1 || |parts| == 2 then Atoi(parts[|parts| - 1]) else -1;
    if start < 0 || end < 0 || start > end || end >= SLOTS then None else Some(Span(start, end))
  }

  function TokenSpans(tokens: seq<seq<byte>>): seq<Span> {
    if tokens == [] then [] else
    TokenSpans(tokens[..|tokens| - 1])
    + match TokenSpan(tokens[|tokens| - 1]) case None => [] case Some(span) => [span]
  }

  function RoleOf(flags: seq<byte>): seq<byte> {
    if MYSELF <= flags then flags[|MYSELF|..] else flags
  }

  /** One node line. Masters are added; a line without an address, or of another role, adds nothing. */
  function ParseLine(nodes: seq<NodeInfo>, line: seq<byte>): Option<seq<NodeInfo>> {
    var part := Split(line, SPACE);
    if |part| < 8 then None
    else if part[1] == NO_ADDR || !(MASTER <= RoleOf(part[2])) then Some(nodes)
    else match MasterOf(nodes, part) case None => None case Some(info) => Some(nodes + [info])
  }

  /** The master of a line; none for an address that is not two parts or is there already. */
  function MasterOf(nodes: seq<NodeInfo>, part: seq<seq<byte>>): Option<NodeInfo>
    requires |part| >= 8
  {
    var ipPort := Split(part[1], COLON);
    if |ipPort| != 2 || HasAddr(nodes, part[1]) then None
    else Some(NodeInfo(part[1], ipPort[0], Atoi(ipPort[1]), TokenSpans(part[8..])))
  }

  function ParseLines(nodes: seq<NodeInfo>, lines: seq<seq<byte>>): Option<seq<NodeInfo>>
    decreases |lines|
  {
    if lines == [] then Some(nodes) else
    match ParseLine(nodes, lines[0])
    case None => None
    case Some(more) => ParseLines(more, lines[1..])
  }

  /** The text cut into lines. What follows the last newline is no line, and after the first line the
      byte a line begins with is never taken for a newline. */
  function Cut(text: seq<byte>, skip: nat): seq<seq<byte>>
    decreases |text|
  {
    var k := if skip <= |text| then IndexOf(text, LF, skip) else |text|;
    if k == |text| then [] else [text[..k]] + Cut(text[k + 1..], 1)
  }

  function ParseNodes(text: seq<byte>): Option<seq<NodeInfo>> { ParseLines([], Cut(text, 0)) }

  function Unlines(lines: seq<seq<byte>>): seq<byte> {
    if lines == [] then [] else lines[0] + [LF] + Unlines(lines[1..])
  }

  lemma CutFirst(line: seq<byte>, rest: seq<byte>, skip: nat)
    requires LF !in line && skip <= |line|
    ensures Cut(line + [LF] + rest, skip) == [line] + Cut(rest, 1)
  {
    var text := line + [LF] + rest;
    assert text[skip..|line|] == line[skip..];
    IndexOfIs(text, LF, skip, |line|);
    assert text[..|line|] == line && text[|line| + 1..] == rest;
  }

  lemma CutLonger(text: seq<byte>)
    ensures Cut(text, 1) != [] ==> Cut(text, 1)[0] != []
  {
  }

  /** Cutting gives the lines back exactly when none after the first is empty. */
  lemma {:induction false} CutUnlines(lines: seq<seq<byte>>, skip: nat)
    requires skip <= 1 && forall i :: 0 <= i < |lines| ==> LF !in lines[i]
    ensures Cut(Unlines(lines), skip) == lines <==> forall i :: 1 - skip <= i < |lines| ==> lines[i] != []
    decreases |lines|
  {
    if lines != [] {
      var text, n := Unlines(lines), |lines[0]|;
      CutUnlines(lines[1..], 1);
      assert forall i :: 0 <= i < |lines| - 1 ==> lines[1..][i] == lines[i + 1];
      if skip <= n {
        hide Cut;
        CutFirst(lines[0], Unlines(lines[1..]), skip);
        assert lines == [lines[0]] + lines[1..];
      } else {
        CutLonger(text);
      }
    }
  }

  // ---------------------------------------------------------------- with slaves

  // Where the node of a line is filed: nowhere, or under its own name or its master's. Badly: a slave
  // whose address is not two parts.
  datatype Filing = Nowhere | Badly | Under(isMaster: bool, name: seq<byte>)

  function FilingOf(line: seq<byte>): Filing {
    var part := Split(line, SPACE);
    if |part| < 8 || part[1] == NO_ADDR then Nowhere
    else if MASTER <= RoleOf(part[2]) then Under(true, part[0])
    else if SLAVE <= RoleOf(part[2]) then if |Split(part[1], COLON)| == 2 then Under(false, part[3]) else Badly
    else Nowhere
  }

  // What has been read: the masters, the nodes under their names, and how many nodes have been filed.
  datatype Reading = Reading(nodes: seq<NodeInfo>, owners: map<seq<byte>, SlaveGrouping.Owner>, filed: nat)

  /** One line, slaves included when they are wanted. */
  function ReadLine(r: Reading, line: seq<byte>, addSlave: bool): Option<Reading> {
    match ParseLine(r.nodes, line)
    case None => None
    case Some(nodes) =>
      if !addSlave then Some(r.(nodes := nodes)) else
      match FilingOf(line)
      case Nowhere => Some(r.(nodes := nodes))
      case Badly => None
      case Under(isMaster, name) =>
        match SlaveGrouping.Place(r.owners, SlaveGrouping.Line(isMaster, r.filed, name))
        case None => None
        case Some(owners) => Some(Reading(nodes, owners, r.filed + 1))
  }

  function ReadLines(r: Reading, lines: seq<seq<byte>>, addSlave: bool): Option<Reading>
    decreases |lines|
  {
    if lines == [] then Some(r) else
    match ReadLine(r, lines[0], addSlave)
    case None => None
    case Some(next) => ReadLines(next, lines[1..], addSlave)
  }

  function ReadNodes(text: seq<byte>, addSlave: bool): Option<Reading> {
    ReadLines(Reading([], map[], 0), Cut(text, 0), addSlave)
  }

  /** Without slaves the text gives what its masters give. */
  lemma {:induction false} MastersOnly(r: Reading, lines: seq<seq<byte>>)
    ensures ReadLines(r, lines, false)
         == match ParseLines(r.nodes, lines) case None => None case Some(nodes) => Some(r.(nodes := nodes))
    decreases |lines|
  {
    hide ParseLine;
    if lines != [] && ParseLine(r.nodes, lines[0]).Some? {
      MastersOnly(r.(nodes := ParseLine(r.nodes, lines[0]).value), lines[1..]);
    }
  }

  // ---------------------------------------------------------------- the parsing loops

  method SlotTokens(part: seq<seq<byte>>) returns (slots: seq<Span>)
    requires |part| >= 8
    ensures slots == TokenSpans(part[8..])
  {
    hide TokenSpan;
    slots := [];
    ghost var tokens := part[8..];
    for k := 8 to |part|
      invariant slots == TokenSpans(tokens[..k - 8])
    {
      assert tokens[..k + 1 - 8][..k - 8] == tokens[..k - 8] && tokens[k - 8] == part[k];
      var span := SlotToken(part[k]);
      if span.Some? {
        slots := slots + [span.value];
      }
    }
    assert tokens[..|tokens|] == tokens;
  }

  method SlotToken(token: seq<byte>) returns (span: Option<Span>)
    ensures span == TokenSpan(token)
  {
    var startEnd := SplitLen(token, MINUS);
    var slotStart, slotEnd := -1, -1;
    if |startEnd| == 1 {
      slotStart := HiAtoi(startEnd[0]);
      slotEnd := slotStart;
    } else if |startEnd| == 2 {
      slotStart := HiAtoi(startEnd[0]);
      slotEnd := HiAtoi(startEnd[1]);
    }
    if slotStart < 0 || slotEnd < 0 || slotStart > slotEnd || slotEnd >= SLOTS {
      return None;
    }
    return Some(Span(slotStart, slotEnd));
  }

  // Makes a node and files it under a name.
  method FileNode(byName: SlaveGrouping.NodesByName, isMaster: bool, id: nat, name: seq<byte>) returns (ok: bool)
    requires byName.Valid()
    modifies byName, byName.nodes.Values`slaves
    ensures byName.Valid() && fresh(byName.nodes.Values - old(byName.nodes.Values))
    ensures var placed := SlaveGrouping.Place(old(byName.View()), SlaveGrouping.Line(isMaster, id, name));
            && (ok <==> placed.Some?)
            && (ok ==> byName.View() == placed.value)
  {
    var node := new SlaveGrouping.ClusterNode(id, isMaster);
    ok := byName.MapWithName(node, name);
  }

  // What filing a node makes of a reading.
  function Filed(r: Reading, isMaster: bool, name: seq<byte>): Option<Reading> {
    match SlaveGrouping.Place(r.owners, SlaveGrouping.Line(isMaster, r.filed, name))
    case None => None
    case Some(owners) => Some(r.(owners := owners, filed := r.filed + 1))
  }

  // The outcome of a line, by its parts.
  lemma LineCases(r: Reading, line: seq<byte>, addSlave: bool)
    ensures var part := Split(line, SPACE);
            ReadLine(r, line, addSlave) ==
            if |part| < 8 then None
            else if part[1] == NO_ADDR then Some(r)
            else if MASTER <= RoleOf(part[2]) then
              match MasterOf(r.nodes, part)
              case None => None
              case Some(info) =>
                var with := r.(nodes := r.nodes + [info]);
                if addSlave then Filed(with, true, part[0]) else Some(with)
            else if addSlave && SLAVE <= RoleOf(part[2]) then
              if |Split(part[1], COLON)| == 2 then Filed(r, false, part[3]) else None
            else Some(r)
  {
    hide Split, TokenSpans, SlaveGrouping.Place, RoleOf;
  }

  method MasterNode(nodes: seq<NodeInfo>, part: seq<seq<byte>>) returns (r: Option<NodeInfo>)
    requires |part| >= 8
    ensures r == MasterOf(nodes, part)
  {
    hide TokenSpans;
    var ipPort := SplitLen(part[1], COLON);
    if |ipPort| != 2 {
      return None;
    }
    var port := HiAtoi(ipPort[1]);
    if HasAddr(nodes, part[1]) {
      return None;
    }
    var slots := SlotTokens(part);
    return Some(NodeInfo(part[1], ipPort[0], port, slots));
  }

  /** One line: a master is added and, when slaves are wanted, filed under its name, a slave under its
      master's. */
  method NodeLine(nodes: seq<NodeInfo>, line: seq<byte>, addSlave: bool, byName: SlaveGrouping.NodesByName, filed: nat)
    returns (more: Option<seq<NodeInfo>>, next: nat)
    requires byName.Valid()
    modifies byName, byName.nodes.Values`slaves
    ensures byName.Valid() && fresh(byName.nodes.Values - old(byName.nodes.Values))
    ensures var r := ReadLine(Reading(nodes, old(byName.View()), filed), line, addSlave);
            && (more.Some? <==> r.Some?)
            && (more.Some? ==> Reading(more.value, byName.View(), next) == r.value)
  {
    hide TokenSpans, SlaveGrouping.Place, ReadLine, MasterOf, Split;
    LineCases(Reading(nodes, byName.View(), filed), line, addSlave);
    next := filed;
    var part := SplitLen(line, SPACE);
    if |part| < 8 {
      return None, next;
    }
    if part[1] == NO_ADDR {
      return Some(nodes), next;
    }
    var role := if |part[2]| >= 7 && part[2][..7] == MYSELF then part[2][7..] else part[2];
    if |role| >= 6 && role[..6] == MASTER {
      var info := MasterNode(nodes, part);
      if info == None {
        return None, next;
      }
      if addSlave {
        var ok := FileNode(byName, true, filed, part[0]);
        if !ok {
          return None, next;
        }
        next := filed + 1;
      }
      return Some(nodes + [info.value]), next;
    } else if addSlave && |role| >= 5 && role[..5] == SLAVE {
      var ipPort := SplitLen(part[1], COLON);
      if |ipPort| != 2 {
        return None, next;
      }
      var ok := FileNode(byName, false, filed, part[3]);
      return if ok then Some(nodes) else None, filed + 1;
    }
    return Some(nodes), next;
  }

  /** Parses the text of a CLUSTER NODES reply, with the slaves when they are wanted. */
  method ParseClusterNodes(text: seq<byte>, addSlave: bool)
    returns (r: Option<seq<NodeInfo>>, byName: SlaveGrouping.NodesByName)
    ensures fresh(byName) && byName.Valid()
    ensures r.Some? <==> ReadNodes(text, addSlave).Some?
    ensures r.Some? ==> ReadNodes(text, addSlave).value.nodes == r.value
                        && ReadNodes(text, addSlave).value.owners == byName.View()
  {
    hide ReadLine, ReadLines, Cut;
    byName := new SlaveGrouping.NodesByName();
    var nodes: seq<NodeInfo>, filed: nat := [], 0;
    var lineStart, pos := 0, 0;
    ghost var skip := 0;
    assert text[0..] == text;
    while pos < |text|
      invariant 0 <= lineStart <= |text| && lineStart + skip <= pos
      invariant pos <= |text| || lineStart == |text|
      invariant pos <= |text| ==> LF !in text[lineStart + skip..pos]
      invariant byName.Valid() && fresh(byName) && fresh(byName.nodes.Values)
      invariant ReadNodes(text, addSlave)
             == ReadLines(Reading(nodes, byName.View(), filed), Cut(text[lineStart..], skip), addSlave)
      decreases |text| - pos
    {
      if text[pos] == LF {
        CutHere(text, lineStart, skip, pos);
        ReadFirst(Reading(nodes, byName.View(), filed), text[lineStart..pos], Cut(text[pos + 1..], 1), addSlave);
        var more;
        more, filed := NodeLine(nodes, text[lineStart..pos], addSlave, byName, filed);
        if more == None {
          return None, byName;
        }
        nodes := more.value;
        lineStart := pos + 1;
        pos := lineStart;
        skip := 1;
      }
      pos := pos + 1;
    }
    CutNothing(text[lineStart..], skip);
    ReadNone(Reading(nodes, byName.View(), filed), addSlave);
    r := Some(nodes);
  }

  lemma ReadFirst(r: Reading, line: seq<byte>, rest: seq<seq<byte>>, addSlave: bool)
    ensures ReadLines(r, [line] + rest, addSlave)
         == match ReadLine(r, line, addSlave) case None => None case Some(next) => ReadLines(next, rest, addSlave)
  {
  }

  lemma ReadNone(r: Reading, addSlave: bool)
    ensures ReadLines(r, [], addSlave) == Some(r)
  {
  }

  lemma Suffixes(text: seq<byte>, start: nat, skip: nat, pos: nat)
    requires start + skip <= pos < |text|
    ensures var t, n := text[start..], pos - start;
            && t[skip..n] == text[start + skip..pos] && t[..n] == text[start..pos]
            && t[n] == text[pos] && t[n + 1..] == text[pos + 1..]
  {
  }

  lemma CutAt(t: seq<byte>, skip: nat, n: nat)
    requires skip <= n < |t| && IndexOf(t, LF, skip) == n
    ensures Cut(t, skip) == [t[..n]] + Cut(t[n + 1..], 1)
  {
    hide IndexOf;
  }

  lemma CutHere(text: seq<byte>, start: nat, skip: nat, pos: nat)
    requires start + skip <= pos < |text| && text[pos] == LF && LF !in text[start + skip..pos]
    ensures Cut(text[start..], skip) == [text[start..pos]] + Cut(text[pos + 1..], 1)
  {
    hide IndexOf, Cut;
    var t, n := text[start..], pos - start;
    Suffixes(text, start, skip, pos);
    IndexOfIs(t, LF, skip, n);
    CutAt(t, skip, n);
  }

  lemma CutNothing(text: seq<byte>, skip: nat)
    requires skip <= |text| ==> LF !in text[skip..]
    ensures Cut(text, skip) == []
  {
    if skip <= |text| {
      forall i | skip <= i < |text|
        ensures text[i] != LF
      {
        assert text[i] == text[skip..][i - skip];
      }
    }
  }

  // ---------------------------------------------------------------- the reply

  // A signed number stored into the source's uint32_t, through its int.
  function Unsigned32(n: int): nat { n % UINT32 }

  function AddrText(host: seq<byte>, port: int): seq<byte> { host + [COLON] + SignedDec(Wrap32(port)) }

  predicate IsNode(e: Reply) {
    e.Array? && |e.elems| == 3 && e.elems[0].Bulk? && e.elems[1].Integer?
  }

  function AddSlot(nodes: seq<NodeInfo>, addr: seq<byte>, span: Span): (r: seq<NodeInfo>)
    ensures |r| == |nodes|
  {
    if nodes == [] then []
    else if nodes[0].addr == addr then [nodes[0].(slots := nodes[0].slots + [span])] + nodes[1..]
    else [nodes[0]] + AddSlot(nodes[1..], addr, span)
  }

  /** One region: its bounds, its master, and the master's replicas, which are looked at only when the
      master is new. */
  function ParseRegion(nodes: seq<NodeInfo>, e: Reply): Option<seq<NodeInfo>> {
    if !(e.Array? && |e.elems| >= 3 && e.elems[0].Integer? && e.elems[1].Integer? && IsNode(e.elems[2])) then None else
    var span := Span(Unsigned32(e.elems[0].n), Unsigned32(e.elems[1].n));
    var host, port := e.elems[2].elems[0].text, e.elems[2].elems[1].n;
    var addr := AddrText(host, port);
    if span.start > span.end then None
    else if HasAddr(nodes, addr) then Some(AddSlot(nodes, addr, span))
    else if host == [] || port <= 0 || !(1 <= Wrap32(port) <= 65535) then None
    else if exists i :: 3 <= i < |e.elems| && !IsNode(e.elems[i]) then None
    else Some(nodes + [NodeInfo(addr, host, Wrap32(port), [span])])
  }

  function ParseRegions(nodes: seq<NodeInfo>, regions: seq<Reply>): Option<seq<NodeInfo>>
    decreases |regions|
  {
    if regions == [] then Some(nodes) else
    match ParseRegion(nodes, regions[0])
    case None => None
    case Some(more) => ParseRegions(more, regions[1..])
  }

  function ParseSlots(reply: Reply): Option<seq<NodeInfo>> {
    if reply.Array? && reply.elems != [] then ParseRegions([], reply.elems) else None
  }

  method RegionElements(nodes: seq<NodeInfo>, e: Reply) returns (r: Option<seq<NodeInfo>>)
    ensures r == ParseRegion(nodes, e)
  {
    if !e.Array? || |e.elems| < 3 {
      return None;
    }
    var start, end, more := 0, 0, nodes;
    for idx := 0 to |e.elems|
      invariant idx > 0 ==> e.elems[0].Integer? && start == Unsigned32(e.elems[0].n)
      invariant idx > 1 ==> e.elems[1].Integer? && end == Unsigned32(e.elems[1].n) && start <= end
      invariant idx <= 2 ==> more == nodes
      invariant idx > 2 ==>
                  var master := e.elems[2];
                  IsNode(master) && var host, port := master.elems[0].text, master.elems[1].n;
                  && !HasAddr(nodes, AddrText(host, port)) && host != [] && port > 0 && 1 <= Wrap32(port) <= 65535
                  && more == nodes + [NodeInfo(AddrText(host, port), host, Wrap32(port), [Span(start, end)])]
      invariant forall i :: 2 <= i < idx ==> IsNode(e.elems[i])
    {
      var elem := e.elems[idx];
      if idx == 0 {
        if !elem.Integer? {
          return None;
        }
        start := Unsigned32(elem.n);
      } else if idx == 1 {
        if !elem.Integer? {
          return None;
        }
        end := Unsigned32(elem.n);
        if start > end {
          return None;
        }
      } else {
        if !IsNode(elem) {
          return None;
        }
        if idx == 2 {
          var host, port := elem.elems[0].text, elem.elems[1].n;
          var addr := AddrText(host, port);
          if HasAddr(nodes, addr) {
            return Some(AddSlot(nodes, addr, Span(start, end)));
          }
          if host == [] || port <= 0 || Wrap32(port) < 1 || Wrap32(port) > 65535 {
            return None;
          }
          more := nodes + [NodeInfo(addr, host, Wrap32(port), [Span(start, end)])];
        }
      }
    }
    return Some(more);
  }

  /** Parses a CLUSTER SLOTS reply. */
  method ParseClusterSlots(reply: Reply) returns (r: Option<seq<NodeInfo>>)
    ensures r == ParseSlots(reply)
  {
    hide ParseRegion;
    if !reply.Array? || |reply.elems| <= 0 {
      return None;
    }
    var nodes: seq<NodeInfo> := [];
    assert reply.elems[0..] == reply.elems;
    for i := 0 to |reply.elems|
      invariant ParseSlots(reply) == ParseRegions(nodes, reply.elems[i..])
    {
      assert reply.elems[i..][1..] == reply.elems[i + 1..];
      var more := RegionElements(nodes, reply.elems[i]);
      if more == None {
        return None;
      }
      nodes := more.value;
    }
    return Some(nodes);
  }
}
