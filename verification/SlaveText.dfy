// The CLUSTER NODES text read with its slaves: the masters are those of a plain reading, and the nodes
// under their names are the grouping of the lines.

module SlaveText {
  import opened Bytes
  import opened Sds
  import opened Topology
  import SlaveGrouping
  import Agreement = TopologyAgreement

  function FilingsOf(lines: seq<seq<byte>>): seq<Filing> {
    if lines == [] then [] else [FilingOf(lines[0])] + FilingsOf(lines[1..])
  }

  /** The nodes to be grouped, numbered in the order of their lines. */
  function Entries(filings: seq<Filing>, next: nat): seq<SlaveGrouping.Line> {
    if filings == [] then []
    else if filings[0].Under? then
      [SlaveGrouping.Line(filings[0].isMaster, next, filings[0].name)] + Entries(filings[1..], next + 1)
    else Entries(filings[1..], next)
  }

  lemma {:induction false} GroupFails(a: seq<SlaveGrouping.Line>, b: seq<SlaveGrouping.Line>)
    requires SlaveGrouping.Group(a) == None
    ensures SlaveGrouping.Group(a + b) == None
    decreases |b|
  {
    if b == [] {
      assert a + b == a;
    } else {
      var n := |b| - 1;
      GroupFails(a, b[..n]);
      assert (a + b)[..|a + b| - 1] == a + b[..n];
    }
  }

  lemma GroupOneMore(a: seq<SlaveGrouping.Line>, l: SlaveGrouping.Line)
    ensures SlaveGrouping.Group(a + [l])
         == match SlaveGrouping.Group(a) case None => None case Some(owners) => SlaveGrouping.Place(owners, l)
  {
    assert (a + [l])[..|a|] == a && (a + [l])[|a|] == l;
  }

  /** What reading with slaves comes to, from any point on: the masters of a plain reading, and the
      grouping of the lines so far and those to come. */
  function Outcome(nodes: Option<seq<NodeInfo>>, filings: seq<Filing>, before: seq<SlaveGrouping.Line>, next: nat)
    : Option<Reading>
  {
    var all := before + Entries(filings, next);
    if nodes == None || Badly in filings || SlaveGrouping.Group(all) == None then None
    else Some(Reading(nodes.value, SlaveGrouping.Group(all).value, next + |Entries(filings, next)|))
  }

  lemma {:induction false} LinesOutcome(r: Reading, lines: seq<seq<byte>>, before: seq<SlaveGrouping.Line>)
    requires SlaveGrouping.Group(before) == Some(r.owners)
    ensures ReadLines(r, lines, true)
         == Outcome(ParseLines(r.nodes, lines), FilingsOf(lines), before, r.filed)
    decreases |lines|
  {
    hide ParseLine, FilingOf, SlaveGrouping.Place, SlaveGrouping.Group;
    if lines == [] {
      assert before + [] == before;
    } else {
      var f, rest := FilingOf(lines[0]), FilingsOf(lines[1..]);
      assert FilingsOf(lines)[1..] == rest;
      assert Badly in FilingsOf(lines) <==> f == Badly || Badly in rest;
      match ParseLine(r.nodes, lines[0])
      case None =>
      case Some(nodes) =>
        if f.Under? {
          var l, later := SlaveGrouping.Line(f.isMaster, r.filed, f.name), Entries(rest, r.filed + 1);
          GroupOneMore(before, l);
          ConcatTwice(before, [l], later);
          match SlaveGrouping.Place(r.owners, l)
          case None => GroupFails(before + [l], later);
          case Some(owners) => LinesOutcome(Reading(nodes, owners, r.filed + 1), lines[1..], before + [l]);
        } else if f == Nowhere {
          LinesOutcome(r.(nodes := nodes), lines[1..], before);
        }
    }
  }

  /** Any text at all: it is read with slaves exactly when it is read without them, every slave's address
      has two parts and no two masters have the same name; then the masters are the same, and the nodes
      under their names are the grouping of the lines. */
  lemma SlavesRead(text: seq<byte>)
    ensures var filings := FilingsOf(Cut(text, 0));
            var lines := Entries(filings, 0);
            && (ReadNodes(text, true).Some? <==>
                  ParseNodes(text).Some? && Badly !in filings && SlaveGrouping.MastersDistinct(lines))
            && (ReadNodes(text, true).Some? ==>
                  ReadNodes(text, true).value.nodes == ParseNodes(text).value
                  && SlaveGrouping.Group(lines) == Some(ReadNodes(text, true).value.owners))
  {
    hide Cut, ReadLines, ParseLines, FilingsOf, Entries;
    var lines := Entries(FilingsOf(Cut(text, 0)), 0);
    LinesOutcome(Reading([], map[], 0), Cut(text, 0), []);
    SlaveGrouping.GroupIsRight(lines);
    assert [] + lines == lines;
  }

  // ---------------------------------------------------------------- lines that describe nodes

  /** Where a described line's node belongs: a master under its own name, a slave under the one in its
      fourth field. */
  function Belongs(l: Agreement.Line): Filing
    requires Agreement.ValidLine(l)
  {
    match l
    case MasterLine(id, _, _, _, _, _, _) => Under(true, id)
    case OtherLine(fields) =>
      if fields[1] == NO_ADDR || !(SLAVE <= RoleOf(fields[2])) then Nowhere
      else if |Split(fields[1], COLON)| == 2 then Under(false, fields[3])
      else Badly
  }

  function AllBelong(lines: seq<Agreement.Line>): seq<Filing>
    requires forall i :: 0 <= i < |lines| ==> Agreement.ValidLine(lines[i])
  {
    if lines == [] then [] else [Belongs(lines[0])] + AllBelong(lines[1..])
  }

  lemma LineFiled(l: Agreement.Line)
    requires Agreement.ValidLine(l)
    ensures FilingOf(Agreement.LineText(l)) == Belongs(l)
  {
    hide Split, Agreement.LineText;
    Agreement.FieldsClean(l);
    if l.MasterLine? {
      Agreement.RoleFound(l);
      var addr := l.host + [COLON] + Dec(l.port);
      assert addr[|l.host|] == COLON && addr[0] == l.host[0];
    }
  }

  lemma {:induction false} LinesFiled(lines: seq<Agreement.Line>)
    requires forall i :: 0 <= i < |lines| ==> Agreement.ValidLine(lines[i])
    ensures FilingsOf(Agreement.LineTexts(lines)) == AllBelong(lines)
  {
    hide FilingOf, Belongs, Agreement.LineText, Agreement.ValidLine;
    if lines != [] {
      LineFiled(lines[0]);
      LinesFiled(lines[1..]);
      assert Agreement.LineTexts(lines)[1..] == Agreement.LineTexts(lines[1..]);
    }
  }

  /** The text of any lines of masters and slaves, in any order, gives their masters and their grouping. It is
      refused exactly when two masters have the same address or name or a slave's address is not two parts. */
  lemma DescribedRead(lines: seq<Agreement.Line>)
    requires forall i :: 0 <= i < |lines| ==> Agreement.ValidLine(lines[i])
    ensures var read, given := ReadNodes(Unlines(Agreement.LineTexts(lines)), true), Entries(AllBelong(lines), 0);
            && (read.Some? <==> Agreement.AddrsDistinct(Agreement.Infos(lines)) && Badly !in AllBelong(lines)
                                && SlaveGrouping.MastersDistinct(given))
            && (read.Some? ==> read.value.nodes == Agreement.Infos(lines)
                               && SlaveGrouping.Group(given) == Some(read.value.owners))
  {
    hide Cut, Agreement.ValidLine, Agreement.LineText, Agreement.Info, ReadNodes, ParseNodes, Entries, AllBelong;
    var texts := Agreement.LineTexts(lines);
    Agreement.TextsFit(lines);
    CutUnlines(texts, 0);
    Agreement.NodesRead(lines);
    SlavesRead(Unlines(texts));
    LinesFiled(lines);
  }
}
