// Collecting slaves under their masters while the lines of a CLUSTER NODES text go by in any order: a
// slave whose master has not been seen yet holds the place, and the slaves that come after it.

module SlaveGrouping {
  import opened Bytes
  import opened Permutations

  type Name = seq<byte>

  // A node line: a master under its own name, or a slave under the name of its master.
  datatype Line = Line(isMaster: bool, id: nat, name: Name)

  // What is known under a name: a master or a place-holding slave, with the slaves hung on it.
  datatype Owner = Owner(isMaster: bool, id: nat, slaves: seq<nat>)

  function Reversed(s: seq<nat>): (r: seq<nat>)
    ensures multiset(r) == multiset(s)
  {
    if s == [] then [] else
    assert s == [s[0]] + s[1..];
    Reversed(s[1..]) + [s[0]]
  }

  /** One line; none when two masters have the same name. */
  function Place(owners: map<Name, Owner>, l: Line): Option<map<Name, Owner>> {
    if l.name !in owners then Some(owners[l.name := Owner(l.isMaster, l.id, [])]) else
    var o := owners[l.name];
    if !l.isMaster then Some(owners[l.name := o.(slaves := o.slaves + [l.id])])
    else if o.isMaster then None
    else Some(owners[l.name := Owner(true, l.id, [o.id] + Reversed(o.slaves))])
  }

  function Group(lines: seq<Line>): Option<map<Name, Owner>> {
    if lines == [] then Some(map[]) else
    match Group(lines[..|lines| - 1])
    case None => None
    case Some(owners) => Place(owners, lines[|lines| - 1])
  }

  function SlavesOf(lines: seq<Line>, name: Name): multiset<nat> {
    if lines == [] then multiset{} else
    var l := lines[|lines| - 1];
    SlavesOf(lines[..|lines| - 1], name) + if !l.isMaster && l.name == name then multiset{l.id} else multiset{}
  }

  ghost predicate MastersDistinct(lines: seq<Line>) {
    forall i, j :: 0 <= i < j < |lines| && lines[i].isMaster && lines[j].isMaster ==> lines[i].name != lines[j].name
  }

  ghost predicate HasMaster(lines: seq<Line>, name: Name, id: nat) {
    exists i :: 0 <= i < |lines| && lines[i] == Line(true, id, name)
  }

  // What the grouping holds under a name.
  ghost predicate GroupedRight(owners: map<Name, Owner>, lines: seq<Line>, name: Name) {
    if name !in owners then
      forall i :: 0 <= i < |lines| ==> lines[i].name != name
    else if owners[name].isMaster then
      HasMaster(lines, name, owners[name].id) && multiset(owners[name].slaves) == SlavesOf(lines, name)
    else
      && multiset{owners[name].id} + multiset(owners[name].slaves) == SlavesOf(lines, name)
      && forall i :: 0 <= i < |lines| ==> !(lines[i].isMaster && lines[i].name == name)
  }

  lemma NoneBefore(lines: seq<Line>, name: Name)
    requires forall i :: 0 <= i < |lines| ==> lines[i].name != name
    ensures SlavesOf(lines, name) == multiset{}
  {
  }

  lemma PlacedRight(owners: map<Name, Owner>, lines: seq<Line>, l: Line, name: Name)
    requires GroupedRight(owners, lines, name)
    requires name == l.name && Place(owners, l).Some?
    ensures GroupedRight(Place(owners, l).value, lines + [l], name)
  {
    var all := lines + [l];
    assert all[..|lines|] == lines && all[|lines|] == l;
    if name !in owners {
      NoneBefore(lines, name);
    } else if owners[name].isMaster {
      var i :| 0 <= i < |lines| && lines[i] == Line(true, owners[name].id, name);
      assert all[i] == lines[i];
    }
  }

  lemma OtherSlaves(lines: seq<Line>, l: Line, name: Name)
    requires name != l.name
    ensures SlavesOf(lines + [l], name) == SlavesOf(lines, name)
  {
    assert (lines + [l])[..|lines|] == lines;
  }

  lemma OthersRight(owners: map<Name, Owner>, lines: seq<Line>, l: Line, name: Name)
    requires GroupedRight(owners, lines, name)
    requires name != l.name && Place(owners, l).Some?
    ensures GroupedRight(Place(owners, l).value, lines + [l], name)
  {
    hide SlavesOf;
    var all := lines + [l];
    OtherSlaves(lines, l, name);
    if name in owners && owners[name].isMaster {
      var i :| 0 <= i < |lines| && lines[i] == Line(true, owners[name].id, name);
      assert all[i] == lines[i];
    }
  }

  /** The grouping succeeds exactly when no two masters have the same name. */
  lemma {:induction false} GroupIsRight(lines: seq<Line>)
    ensures Group(lines).Some? <==> MastersDistinct(lines)
    ensures Group(lines).Some? ==> forall name :: GroupedRight(Group(lines).value, lines, name)
  {
    if lines != [] {
      var n := |lines| - 1;
      var before, l := lines[..n], lines[n];
      GroupIsRight(before);
      assert before + [l] == lines;
      if Group(before).Some? {
        var owners := Group(before).value;
        assert GroupedRight(owners, before, l.name);
        if Place(owners, l).Some? {
          forall name
            ensures GroupedRight(Place(owners, l).value, lines, name)
          {
            if name == l.name {
              PlacedRight(owners, before, l, name);
            } else {
              OthersRight(owners, before, l, name);
            }
          }
          assert forall i :: 0 <= i < n && l.isMaster && before[i].isMaster ==> before[i].name != l.name;
        } else {
          var i :| 0 <= i < n && before[i] == Line(true, owners[l.name].id, l.name);
          assert lines[i].isMaster && lines[n].isMaster;
        }
      } else {
        var i, j :| 0 <= i < j < n && before[i].isMaster && before[j].isMaster && before[i].name == before[j].name;
        assert lines[i] == before[i] && lines[j] == before[j];
      }
    }
  }

  lemma {:induction false} SlavesMove(a: seq<Line>, b: seq<Line>, name: Name)
    requires multiset(a) == multiset(b)
    ensures SlavesOf(a, name) == SlavesOf(b, name)
    decreases |a|
  {
    if a == [] {
      assert |multiset(b)| == 0;
    } else {
      var l := a[|a| - 1];
      var k := FoundIn(a, b, l);
      OneLess(a, b, k);
      SlavesMove(a[..|a| - 1], b[..k] + b[k + 1..], name);
      SlavesWithout(b, k, name);
    }
  }

  lemma SlavesLast(b: seq<Line>, name: Name)
    requires b != []
    ensures var l := b[|b| - 1];
            SlavesOf(b, name) == SlavesOf(b[..|b| - 1], name) + if !l.isMaster && l.name == name
              then multiset{l.id} else multiset{}
  {
  }

  lemma {:induction false} SlavesWithout(b: seq<Line>, k: nat, name: Name)
    requires k < |b|
    ensures SlavesOf(b, name) == SlavesOf(b[..k] + b[k + 1..], name)
                                 + if !b[k].isMaster && b[k].name == name then multiset{b[k].id} else multiset{}
  {
    hide SlavesOf;
    var front, rest := b[..k + 1], b[k + 1..];
    assert b == front + rest;
    assert front[..k] == b[..k] && front[k] == b[k];
    SlavesSplit(b[..k], rest, name);
    SlavesSplit(front, rest, name);
    SlavesLast(front, name);
  }

  lemma {:induction false} SlavesSplit(a: seq<Line>, b: seq<Line>, name: Name)
    ensures SlavesOf(a + b, name) == SlavesOf(a, name) + SlavesOf(b, name)
  {
    if b == [] {
      assert a + b == a;
    } else {
      var front, l := b[..|b| - 1], b[|b| - 1];
      SlavesSplit(a, front, name);
      assert (a + b)[..|a + b| - 1] == a + front && (a + b)[|a + b| - 1] == l;
      SlavesLast(a + b, name);
      SlavesLast(b, name);
    }
  }

  lemma MastersMove(a: seq<Line>, b: seq<Line>)
    requires multiset(a) == multiset(b) && MastersDistinct(a)
    ensures MastersDistinct(b)
  {
    forall i, j | 0 <= i < j < |b| && b[i].isMaster && b[j].isMaster
      ensures b[i].name != b[j].name
    {
      assert b[i] in multiset(b) && b[j] in multiset(b);
      var k, l :| 0 <= k < |a| && 0 <= l < |a| && a[k] == b[i] && a[l] == b[j];
      if b[i].name == b[j].name {
        assert k == l;
        TwiceIn(b, i, j);
        OnceInA(a, k);
      }
    }
  }

  lemma OnceInA(a: seq<Line>, k: nat)
    requires MastersDistinct(a) && k < |a| && a[k].isMaster
    ensures multiset(a)[a[k]] == 1
  {
    assert a == a[..k] + [a[k]] + a[k + 1..];
    forall i | 0 <= i < k
      ensures a[..k][i] != a[k]
    {
    }
    assert a[k] !in a[..k] && a[k] !in a[k + 1..];
  }

  /** Whatever the order of the lines, each master ends up with exactly the slaves that name it, those
      included that came before it. */
  lemma OrderDoesNotMatter(a: seq<Line>, b: seq<Line>)
    requires multiset(a) == multiset(b) && MastersDistinct(a)
    ensures Group(a).Some? && Group(b).Some?
    ensures forall l :: l in a && l.isMaster ==>
              && l.name in Group(a).value && l.name in Group(b).value
              && var x, y := Group(a).value[l.name], Group(b).value[l.name];
                 x.isMaster && y.isMaster && x.id == y.id == l.id
                 && multiset(x.slaves) == multiset(y.slaves) == SlavesOf(a, l.name)
  {
    MastersMove(a, b);
    GroupIsRight(a);
    GroupIsRight(b);
    forall l | l in a && l.isMaster
      ensures l.name in Group(a).value && l.name in Group(b).value
      ensures var x, y := Group(a).value[l.name], Group(b).value[l.name];
              x.isMaster && y.isMaster && x.id == y.id == l.id
              && multiset(x.slaves) == multiset(y.slaves) == SlavesOf(a, l.name)
    {
      assert l in multiset(b) && l in b;
      SlavesMove(a, b, l.name);
      MasterFound(a, l);
      MasterFound(b, l);
    }
  }

  lemma MasterFound(lines: seq<Line>, l: Line)
    requires l in lines && l.isMaster && MastersDistinct(lines) && Group(lines).Some?
    requires GroupedRight(Group(lines).value, lines, l.name)
    ensures l.name in Group(lines).value
    ensures var o := Group(lines).value[l.name];
            o.isMaster && o.id == l.id && multiset(o.slaves) == SlavesOf(lines, l.name)
  {
    var k :| 0 <= k < |lines| && lines[k] == l;
    var owners := Group(lines).value;
    assert l.name in owners && owners[l.name].isMaster;
    var i :| 0 <= i < |lines| && lines[i] == Line(true, owners[l.name].id, l.name);
    assert i == k;
  }

  // ---------------------------------------------------------------- the nodes themselves

  class ClusterNode {
    const id: nat
    const isMaster: bool
    var slaves: seq<ClusterNode>

    constructor (id: nat, isMaster: bool)
      ensures this.id == id && this.isMaster == isMaster && slaves == []
    {
      this.id, this.isMaster, slaves := id, isMaster, [];
    }
  }

  function Ids(nodes: seq<ClusterNode>): (r: seq<nat>)
    ensures |r| == |nodes|
  {
    if nodes == [] then [] else [nodes[0].id] + Ids(nodes[1..])
  }

  lemma {:induction false} IdsAppend(a: seq<ClusterNode>, n: ClusterNode)
    ensures Ids(a + [n]) == Ids(a) + [n.id]
  {
    if a == [] {
      assert [n][1..] == [];
    } else {
      IdsAppend(a[1..], n);
      assert (a + [n])[1..] == a[1..] + [n];
    }
  }

  lemma ParkedStep(parked: seq<ClusterNode>, taken: seq<ClusterNode>)
    requires parked != []
    ensures Reversed(Ids(parked[1..])) + Ids([parked[0]] + taken) == Reversed(Ids(parked)) + Ids(taken)
  {
    assert ([parked[0]] + taken)[1..] == taken;
    var r, id, t := Reversed(Ids(parked[1..])), parked[0].id, Ids(taken);
    assert Ids(parked)[1..] == Ids(parked[1..]);
    assert r + ([id] + t) == r + [id] + t;
  }

  lemma ParkedEnds(node: ClusterNode, taken: seq<ClusterNode>, all: seq<nat>)
    requires Reversed(Ids([])) + Ids(taken) == Reversed(all)
    ensures Ids([node] + taken) == [node.id] + Reversed(all)
  {
    assert ([node] + taken)[1..] == taken;
    assert [] + Ids(taken) == Ids(taken);
  }

  lemma IdsNone()
    ensures Ids([]) == []
  {
  }

  lemma NoneTaken(all: seq<nat>)
    ensures Reversed(all) + Ids([]) == Reversed(all)
  {
  }

  class NodesByName {
    var nodes: map<Name, ClusterNode>

    ghost predicate Valid()
      reads this
    {
      forall n, m :: n in nodes && m in nodes && n != m ==> nodes[n] != nodes[m]
    }

    ghost function View(): map<Name, Owner>
      reads this, nodes.Values
    {
      map n | n in nodes :: Owner(nodes[n].isMaster, nodes[n].id, Ids(nodes[n].slaves))
    }

    constructor ()
      ensures Valid() && View() == map[] && nodes == map[]
    {
      nodes := map[];
    }

    /** Moves the slaves parked under another node to the front of a new master's, one by one. */
    method TakeOver(node: ClusterNode, parked: ClusterNode)
      requires node != parked && node.slaves == []
      modifies node`slaves, parked`slaves
      ensures parked.slaves == [] && Ids(node.slaves) == [parked.id] + Reversed(old(Ids(parked.slaves)))
    {
      hide Ids, Reversed;
      ghost var all := Ids(parked.slaves);
      NoneTaken(all);
      while |parked.slaves| > 0
        invariant Reversed(Ids(parked.slaves)) + Ids(node.slaves) == Reversed(all)
        decreases |parked.slaves|
      {
        ParkedStep(parked.slaves, node.slaves);
        var first := parked.slaves[0];
        node.slaves := [first] + node.slaves;
        parked.slaves := parked.slaves[1..];
      }
      ParkedEnds(parked, node.slaves, all);
      node.slaves := [parked] + node.slaves;
    }

    /** Files a node under a name: its own for a master, its master's for a slave. */
    method MapWithName(node: ClusterNode, name: Name) returns (ok: bool)
      requires Valid() && node !in nodes.Values && node.slaves == []
      modifies this, node`slaves, nodes.Values`slaves
      ensures Valid() && (ok <==> Place(old(View()), Line(node.isMaster, node.id, name)).Some?)
      ensures View() == if ok then Place(old(View()), Line(node.isMaster, node.id, name)).value else old(View())
      ensures nodes.Values <= old(nodes.Values) + {node}
    {
      hide Ids, Reversed;
      ghost var was, l := View(), Line(node.isMaster, node.id, name);
      assert forall n :: n in nodes <==> n in was;
      if name !in nodes {
        IdsNone();
        nodes := nodes[name := node];
        assert View() == was[name := Owner(l.isMaster, l.id, [])];
        return true;
      }
      var nodeOld := nodes[name];
      if node.isMaster {
        if nodeOld.isMaster {
          return false;
        }
        TakeOver(node, nodeOld);
        nodes := nodes[name := node];
        assert View() == was[name := Owner(true, l.id, [was[name].id] + Reversed(was[name].slaves))];
      } else {
        IdsAppend(nodeOld.slaves, node);
        nodeOld.slaves := nodeOld.slaves + [node];
        assert View() == was[name := was[name].(slaves := was[name].slaves + [l.id])];
      }
      return true;
    }
  }
}
