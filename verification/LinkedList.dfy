// The doubly linked list: nodes on the heap, linked both ways, and an iterator over them.

module LinkedList {
  import opened Bytes

  class Node<T> {
    var prev: Node?<T>
    var next: Node?<T>
    var value: T

    constructor (value: T)
      ensures this.value == value
    {
      prev, next, this.value := null, null, value;
    }
  }

  function At<T>(nodes: seq<Node<T>>, i: int): Node?<T> {
    if 0 <= i < |nodes| then nodes[i] else null
  }

  ghost predicate Distinct<T>(nodes: seq<T>) { forall i, j :: 0 <= i < j < |nodes| ==> nodes[i] != nodes[j] }

  lemma Apart<T>(nodes: seq<T>, k: int)
    requires Distinct(nodes)
    ensures 0 <= k < |nodes| ==> forall j :: 0 <= j < |nodes| && j != k ==> nodes[j] != nodes[k]
  {
  }

  lemma DistinctInsert<T>(nodes: seq<T>, k: nat, node: T)
    requires Distinct(nodes) && k <= |nodes| && node !in nodes
    ensures Distinct(nodes[..k] + [node] + nodes[k..])
  {
  }

  lemma DistinctDelete<T>(nodes: seq<T>, k: nat)
    requires Distinct(nodes) && k < |nodes|
    ensures Distinct(nodes[..k] + nodes[k + 1..])
  {
  }

  lemma DistinctRotate<T>(nodes: seq<T>)
    requires Distinct(nodes) && nodes != []
    ensures Distinct([nodes[|nodes| - 1]] + nodes[..|nodes| - 1])
  {
  }

  // The nodes are distinct, and prev and next of each are its neighbours in the sequence.
  ghost predicate Linked<T(!new)>(nodes: seq<Node<T>>)
    reads nodes
  {
    && Distinct(nodes)
    && forall i :: 0 <= i < |nodes| ==> Placed(nodes, i)
  }

  ghost predicate Placed<T>(nodes: seq<Node<T>>, i: nat)
    requires i < |nodes|
    reads nodes[i]
  {
    nodes[i].prev == At(nodes, i - 1) && nodes[i].next == At(nodes, i + 1)
  }

  // The links of the j-th node once there is a new one before the k-th.
  ghost predicate MadeRoom<T>(was: seq<Node<T>>, k: nat, node: Node<T>, j: nat)
    requires j < |was|
    reads was[j]
  {
    && was[j].prev == (if j == k then node else At(was, j - 1))
    && was[j].next == (if j == k - 1 then node else At(was, j + 1))
  }

  lemma InsertedLinked<T(!new)>(was: seq<Node<T>>, k: nat, node: Node<T>)
    requires Distinct(was) && k <= |was| && node !in was
    requires node.prev == At(was, k - 1) && node.next == At(was, k)
    requires forall j :: 0 <= j < |was| ==> MadeRoom(was, k, node, j)
    ensures Linked(was[..k] + [node] + was[k..])
  {
    DistinctInsert(was, k, node);
    hide Distinct;
    var nodes := was[..k] + [node] + was[k..];
    forall j | 0 <= j < |nodes|
      ensures Placed(nodes, j)
    {
      assert j != k ==> MadeRoom(was, k, node, if j < k then j else j - 1);
    }
  }

  // The links of the j-th node once the i-th is gone.
  ghost predicate ClosedUp<T>(was: seq<Node<T>>, i: nat, j: nat)
    requires j < |was|
    reads was[j]
  {
    && was[j].prev == At(was, if j == i + 1 then i - 1 else j - 1)
    && was[j].next == At(was, if j == i - 1 then i + 1 else j + 1)
  }

  lemma DeletedLinked<T(!new)>(was: seq<Node<T>>, i: nat)
    requires Distinct(was) && i < |was|
    requires forall j :: 0 <= j < |was| && j != i ==> ClosedUp(was, i, j)
    ensures Linked(was[..i] + was[i + 1..])
  {
    DistinctDelete(was, i);
    hide Distinct;
    var nodes := was[..i] + was[i + 1..];
    forall j | 0 <= j < |nodes|
      ensures Placed(nodes, j)
    {
      assert ClosedUp(was, i, if j < i then j else j + 1);
    }
  }

  // The links of the j-th node once the last is first.
  ghost predicate TurnedRound<T>(was: seq<Node<T>>, j: nat)
    requires j < |was|
    reads was[j]
  {
    var n := |was| - 1;
    && was[j].prev == At(was, if j == 0 then n else if j == n then -1 else j - 1)
    && was[j].next == At(was, if j == n then 0 else if j == n - 1 then -1 else j + 1)
  }

  lemma RotatedLinked<T(!new)>(was: seq<Node<T>>)
    requires Distinct(was) && |was| > 1
    requires forall j :: 0 <= j < |was| ==> TurnedRound(was, j)
    ensures Linked([was[|was| - 1]] + was[..|was| - 1])
  {
    DistinctRotate(was);
    hide Distinct;
    var nodes := [was[|was| - 1]] + was[..|was| - 1];
    forall j | 0 <= j < |nodes|
      ensures Placed(nodes, j)
    {
      assert TurnedRound(was, if j == 0 then |was| - 1 else j - 1);
    }
  }

  class List<T(!new)> {
    var head: Node?<T>
    var tail: Node?<T>
    var len: nat
    ghost var nodes: seq<Node<T>>
    ghost var contents: seq<T>

    // The links, the length and the values are those of the nodes; the two ends aside.
    ghost predicate Chained()
      reads this, nodes
    {
      && Linked(nodes) && len == |nodes| == |contents|
      && forall i :: 0 <= i < |nodes| ==> contents[i] == nodes[i].value
    }

    ghost predicate Valid()
      reads this, nodes
    {
      Chained() && head == At(nodes, 0) && tail == At(nodes, |nodes| - 1)
    }

    constructor ()
      ensures Valid() && nodes == []
    {
      head, tail, len, nodes, contents := null, null, 0, [], [];
    }

    method AddNodeHead(value: T)
      requires Valid()
      modifies this, nodes
      ensures Valid() && contents == [value] + old(contents)
      ensures nodes != [] && fresh(nodes[0]) && nodes[1..] == old(nodes)
    {
      hide Distinct;
      ghost var was := nodes;
      Apart(nodes, 0);
      var node := new Node(value);
      if len == 0 {
        head, tail := node, node;
        node.prev, node.next := null, null;
      } else {
        node.prev, node.next := null, head;
        head.prev := node;
        head := node;
      }
      len := len + 1;
      forall j | 0 <= j < |was|
        ensures MadeRoom(was, 0, node, j)
      {
        assert old(Placed(was, j));
      }
      InsertedLinked(was, 0, node);
      nodes, contents := [node] + nodes, [value] + contents;
      assert nodes == was[..0] + [node] + was[0..];
    }

    method AddNodeTail(value: T)
      requires Valid()
      modifies this, nodes
      ensures Valid() && contents == old(contents) + [value]
      ensures nodes != [] && fresh(nodes[|nodes| - 1]) && nodes[..|nodes| - 1] == old(nodes)
    {
      hide Distinct;
      ghost var was := nodes;
      Apart(nodes, len - 1);
      var node := new Node(value);
      if len == 0 {
        head, tail := node, node;
        node.prev, node.next := null, null;
      } else {
        node.prev, node.next := tail, null;
        tail.next := node;
        tail := node;
      }
      len := len + 1;
      forall j | 0 <= j < |was|
        ensures MadeRoom(was, |was|, node, j)
      {
        assert old(Placed(was, j));
      }
      InsertedLinked(was, |was|, node);
      nodes, contents := nodes + [node], contents + [value];
      assert nodes == was[..|was|] + [node] + was[|was|..];
    }

    // The neighbours of the i-th node, and whether it is an end.
    lemma Neighbours(i: nat)
      requires Valid() && i < |nodes|
      ensures nodes[i].prev == At(nodes, i - 1) && nodes[i].next == At(nodes, i + 1)
      ensures (nodes[i] == head <==> i == 0) && (nodes[i] == tail <==> i + 1 == |nodes|)
    {
      assert Placed(nodes, i);
    }

    /** A new node right after, or right before, the i-th node. */
    method InsertNode(oldNode: Node<T>, value: T, after: bool, ghost i: nat) returns (ghost added: Node<T>)
      requires Valid() && i < |nodes| && nodes[i] == oldNode
      modifies this, nodes
      ensures Valid() && fresh(added)
      ensures var k := if after then i + 1 else i;
              && nodes == old(nodes)[..k] + [added] + old(nodes)[k..]
              && contents == old(contents)[..k] + [value] + old(contents)[k..]
    {
      hide Linked;
      Neighbours(i);
      var node := new Node(value);
      added := node;
      if after {
        node.prev, node.next := oldNode, oldNode.next;
        if tail == oldNode {
          tail := node;
        }
      } else {
        node.next, node.prev := oldNode, oldNode.prev;
        if head == oldNode {
          head := node;
        }
      }
      LinkIn(node, if after then i + 1 else i);
    }

    /** The neighbours of a new node, which knows them already, are made to point at it. */
    method LinkIn(node: Node<T>, ghost k: nat)
      requires Chained() && k <= |nodes| && node !in nodes
      requires node.prev == At(nodes, k - 1) && node.next == At(nodes, k)
      requires head == (if k == 0 then node else At(nodes, 0))
      requires tail == (if k == |nodes| then node else At(nodes, |nodes| - 1))
      modifies this, nodes
      ensures Valid()
      ensures nodes == old(nodes)[..k] + [node] + old(nodes)[k..]
      ensures contents == old(contents)[..k] + [node.value] + old(contents)[k..]
    {
      hide Distinct;
      Apart(nodes, k - 1);
      Apart(nodes, k);
      if node.prev != null {
        node.prev.next := node;
      }
      if node.next != null {
        node.next.prev := node;
      }
      len := len + 1;
      forall j | 0 <= j < |nodes|
        ensures MadeRoom(nodes, k, node, j)
      {
        assert old(Placed(nodes, j));
      }
      InsertedLinked(nodes, k, node);
      nodes, contents := nodes[..k] + [node] + nodes[k..], contents[..k] + [node.value] + contents[k..];
    }

    /** Unlinks the i-th node; the node itself keeps its own links. */
    method DelNode(node: Node<T>, ghost i: nat)
      requires Valid() && i < |nodes| && nodes[i] == node
      modifies this, set n | n in nodes && n != node
      ensures Valid() && nodes == old(nodes)[..i] + old(nodes)[i + 1..]
      ensures contents == old(contents)[..i] + old(contents)[i + 1..]
    {
      hide Distinct;
      Neighbours(i);
      Apart(nodes, i - 1);
      Apart(nodes, i);
      Apart(nodes, i + 1);
      if node.prev != null {
        node.prev.next := node.next;
      } else {
        head := node.next;
      }
      if node.next != null {
        node.next.prev := node.prev;
      } else {
        tail := node.prev;
      }
      len := len - 1;
      forall j | 0 <= j < |nodes| && j != i
        ensures ClosedUp(nodes, i, j)
      {
        assert old(Placed(nodes, j));
      }
      DeletedLinked(nodes, i);
      nodes, contents := nodes[..i] + nodes[i + 1..], contents[..i] + contents[i + 1..];
    }

    // The links of a list of at least two nodes, turned round.
    method TurnRound()
      requires Valid() && |nodes| > 1
      modifies this`head, this`tail, nodes
      ensures Distinct(nodes) && forall j :: 0 <= j < |nodes| ==> TurnedRound(nodes, j)
      ensures head == nodes[|nodes| - 1] && tail == nodes[|nodes| - 2]
      ensures forall j :: 0 <= j < |nodes| ==> contents[j] == nodes[j].value
    {
      hide Distinct;
      Neighbours(len - 1);
      Apart(nodes, 0);
      Apart(nodes, len - 1);
      Apart(nodes, len - 2);
      var last := tail;
      tail := last.prev;
      tail.next := null;
      head.prev := last;
      last.prev := null;
      last.next := head;
      head := last;
      forall j | 0 <= j < |nodes|
        ensures TurnedRound(nodes, j)
      {
        assert old(Placed(nodes, j));
      }
    }

    /** Moves the tail node to the head. */
    method Rotate()
      requires Valid()
      modifies this, nodes
      ensures Valid()
      ensures var n := |old(nodes)|;
              nodes == if n <= 1 then old(nodes) else [old(nodes)[n - 1]] + old(nodes)[..n - 1]
      ensures var c, n := old(contents), |old(nodes)|;
              contents == if n <= 1 then c else [c[n - 1]] + c[..n - 1]
    {
      if len <= 1 {
        return;
      }
      hide Distinct, TurnedRound;
      TurnRound();
      RotatedLinked(nodes);
      ghost var n := |nodes| - 1;
      nodes, contents := [nodes[n]] + nodes[..n], [contents[n]] + contents[..n];
    }

    /** The node at an index, counted from the head, or from the tail when negative; null outside. */
    method Index(index: int) returns (n: Node?<T>)
      requires Valid()
      ensures n == At(nodes, if index < 0 then |nodes| + index else index)
    {
      var left := index;
      if index < 0 {
        left := -index - 1;
        n := tail;
        while left != 0 && n != null
          invariant left >= 0 && n == At(nodes, |nodes| + index + left)
          decreases left
        {
          assert Placed(nodes, |nodes| + index + left);
          n := n.prev;
          left := left - 1;
        }
      } else {
        n := head;
        while left != 0 && n != null
          invariant left >= 0 && n == At(nodes, index - left)
          decreases left
        {
          assert Placed(nodes, index - left);
          n := n.next;
          left := left - 1;
        }
      }
    }
  }

  datatype Direction = FromHead | FromTail

  // What an iterator still has to return: it holds one node, the rest follows from the links.
  class Iterator<T(!new)> {
    var next: Node?<T>
    var direction: Direction

    /** The iterator stands before the k-th node in its direction. */
    ghost predicate Stands(list: List<T>, k: int)
      reads this, list
    {
      && 0 <= k <= |list.nodes|
      && next == At(list.nodes, if direction == FromHead then k else |list.nodes| - 1 - k)
    }

    constructor (list: List<T>, direction: Direction)
      requires list.Valid()
      ensures Stands(list, 0) && this.direction == direction
    {
      next, this.direction := if direction == FromHead then list.head else list.tail, direction;
    }

    method Next(list: List<T>, ghost k: int) returns (current: Node?<T>)
      requires list.Valid() && Stands(list, k)
      modifies this
      ensures direction == old(direction)
      ensures current == At(list.nodes, if direction == FromHead then k else |list.nodes| - 1 - k)
      ensures if k < |list.nodes| then current != null && Stands(list, k + 1) else current == null && Stands(list, k)
    {
      current := next;
      if current != null {
        assert Placed(list.nodes, if direction == FromHead then k else |list.nodes| - 1 - k);
        next := if direction == FromHead then current.next else current.prev;
      }
    }

    /** Takes the next node and perhaps deletes it, as users of an iterator may: the rest of the way
        is not affected. */
    method Visit(list: List<T>, delete: bool, ghost k: nat, ghost region: set<Node<T>>) returns (value: T)
      requires list.Valid() && Stands(list, k) && k < |list.nodes|
      requires forall n :: n in list.nodes ==> n in region
      modifies this, list, region
      ensures list.Valid() && direction == old(direction) && |list.nodes| == |list.contents|
      ensures forall n :: n in list.nodes ==> n in region
      ensures Stands(list, if delete then k else k + 1)
      ensures var c := old(list.contents);
              var p := if direction == FromHead then k else |c| - 1 - k;
              value == c[p] && list.contents == if delete then c[..p] + c[p + 1..] else c
    {
      var current := Next(list, k);
      value := current.value;
      if delete {
        list.DelNode(current, if direction == FromHead then k else |list.nodes| - 1 - k);
      }
    }
  }

  // The values that are not marked.
  function Kept<T>(values: seq<T>, marked: seq<bool>): (r: seq<T>)
    requires |values| == |marked|
  {
    if values == [] then [] else (if marked[0] then [] else [values[0]]) + Kept(values[1..], marked[1..])
  }

  function Backwards<T>(values: seq<T>): (r: seq<T>)
    ensures |r| == |values| && forall i :: 0 <= i < |r| ==> r[i] == values[|r| - 1 - i]
  {
    if values == [] then [] else Backwards(values[1..]) + [values[0]]
  }

  lemma {:induction false} KeptAppend<T>(a: seq<T>, m: seq<bool>, v: T, b: bool)
    requires |a| == |m|
    ensures Kept(a + [v], m + [b]) == Kept(a, m) + if b then [] else [v]
  {
    if a == [] {
      assert [v][1..] == [] && [b][1..] == [];
    } else {
      KeptAppend(a[1..], m[1..], v, b);
      assert (a + [v])[1..] == a[1..] + [v] && (m + [b])[1..] == m[1..] + [b];
      assert (a + [v])[0] == a[0] && (m + [b])[0] == m[0];
      ConcatTwice(if m[0] then [] else [a[0]], Kept(a[1..], m[1..]), if b then [] else [v]);
    }
  }

  // What is left of a list when its first n values have been swept, or its last.
  ghost function SweptFront<T>(all: seq<T>, marked: seq<bool>, n: nat): seq<T>
    requires n <= |all| == |marked|
  {
    Kept(all[..n], marked[..n]) + all[n..]
  }

  ghost function SweptBack<T>(all: seq<T>, marked: seq<bool>, n: nat): seq<T>
    requires n <= |all| == |marked|
  {
    all[..|all| - n] + Kept(all[|all| - n..], marked[|all| - n..])
  }

  lemma SweepFront<T>(all: seq<T>, marked: seq<bool>, n: nat)
    requires n < |all| == |marked|
    ensures var k, c := |Kept(all[..n], marked[..n])|, SweptFront(all, marked, n);
            && k < |c| && c[k] == all[n]
            && SweptFront(all, marked, n + 1) == (if marked[n] then c[..k] + c[k + 1..] else c)
            && |Kept(all[..n + 1], marked[..n + 1])| == (if marked[n] then k else k + 1)
            && all[..n + 1] == all[..n] + [all[n]]
  {
    KeptAppend(all[..n], marked[..n], all[n], marked[n]);
    assert all[..n] + [all[n]] == all[..n + 1] && marked[..n] + [marked[n]] == marked[..n + 1];
  }

  lemma SweepBack<T>(all: seq<T>, marked: seq<bool>, n: nat)
    requires n < |all| == |marked|
    ensures var v := |all| - n - 1;
            var k, c := |Kept(all[v + 1..], marked[v + 1..])|, SweptBack(all, marked, n);
            && |c| == v + 1 + k && c[v] == all[v]
            && SweptBack(all, marked, n + 1) == (if marked[v] then c[..v] + c[v + 1..] else c)
            && |Kept(all[v..], marked[v..])| == (if marked[v] then k else k + 1)
            && Backwards(all[v..]) == Backwards(all[v + 1..]) + [all[v]]
  {
    var v := |all| - n - 1;
    assert all[v..][1..] == all[v + 1..] && marked[v..][1..] == marked[v + 1..];
  }

  /** An iteration from the head that deletes the nodes marked, each right after it was returned: it
      visits every value once, in order, and leaves the values not marked. */
  method SweepFromHead<T(!new)>(list: List<T>, marked: seq<bool>) returns (visited: seq<T>)
    requires list.Valid() && |marked| == |list.contents| == |list.nodes|
    modifies list, list.nodes
    ensures list.Valid() && visited == old(list.contents)
    ensures list.contents == Kept(old(list.contents), marked)
  {
    hide Linked, Kept, SweptFront, List.Chained, List.Valid;
    ghost var all, n, k := list.contents, 0, 0;
    ghost var region := set m | m in list.nodes;
    FrontEnds(all, marked);
    var iter := new Iterator(list, FromHead);
    visited := [];
    while iter.next != null
      invariant list.Valid() && n <= |all| && iter.direction == FromHead && fresh(iter)
      invariant forall m :: m in list.nodes ==> m in region
      invariant n == |visited| && visited == all[..n]
      invariant list.contents == SweptFront(all, marked, n) && k == |Kept(all[..n], marked[..n])|
      invariant iter.Stands(list, k)
      invariant |list.contents| == |list.nodes| == k + |all| - n
      decreases |all| - n
    {
      SweepFront(all, marked, n);
      var value := iter.Visit(list, marked[|visited|], k, region);
      visited := visited + [value];
      k := if marked[n] then k else k + 1;
      n := n + 1;
    }
  }

  lemma FrontEnds<T>(all: seq<T>, marked: seq<bool>)
    requires |all| == |marked|
    ensures SweptFront(all, marked, 0) == all && |Kept(all[..0], marked[..0])| == 0
    ensures SweptFront(all, marked, |all|) == Kept(all, marked)
  {
    assert all[..|all|] == all && marked[..|all|] == marked;
  }

  lemma BackEnds<T>(all: seq<T>, marked: seq<bool>)
    requires |all| == |marked|
    ensures SweptBack(all, marked, 0) == all && |Kept(all[|all|..], marked[|all|..])| == 0
    ensures SweptBack(all, marked, |all|) == Kept(all, marked)
  {
    assert all[0..] == all && marked[0..] == marked;
  }

  /** The same from the tail. */
  method SweepFromTail<T(!new)>(list: List<T>, marked: seq<bool>) returns (visited: seq<T>)
    requires list.Valid() && |marked| == |list.contents| == |list.nodes|
    modifies list, list.nodes
    ensures list.Valid() && visited == Backwards(old(list.contents))
    ensures list.contents == Kept(old(list.contents), marked)
  {
    hide Linked, Kept, SweptBack, Backwards, List.Chained, List.Valid;
    ghost var all, n, k := list.contents, 0, 0;
    ghost var region := set m | m in list.nodes;
    BackEnds(all, marked);
    var iter := new Iterator(list, FromTail);
    visited := [];
    while iter.next != null
      invariant list.Valid() && n <= |all| && iter.direction == FromTail && fresh(iter)
      invariant forall m :: m in list.nodes ==> m in region
      invariant n == |visited| && visited == Backwards(all[|all| - n..])
      invariant list.contents == SweptBack(all, marked, n) && k == |Kept(all[|all| - n..], marked[|all| - n..])|
      invariant iter.Stands(list, k)
      invariant |list.contents| == |list.nodes| == k + |all| - n
      decreases |all| - n
    {
      SweepBack(all, marked, n);
      var value := iter.Visit(list, marked[|marked| - |visited| - 1], k, region);
      visited := visited + [value];
      k := if marked[|all| - n - 1] then k else k + 1;
      n := n + 1;
    }
  }

  /** The first node holding a value, searched from the head. */
  method SearchKey<T(!new, ==)>(list: List<T>, key: T) returns (node: Node?<T>)
    requires list.Valid()
    ensures node == null <==> key !in list.contents
    ensures node != null ==>
              exists i :: 0 <= i < |list.nodes|
                && node == list.nodes[i] && node.value == key && key !in list.contents[..i]
  {
    var iter := new Iterator(list, FromHead);
    ghost var k := 0;
    while true
      invariant 0 <= k <= |list.nodes| && iter.Stands(list, k) && iter.direction == FromHead && fresh(iter)
      invariant list.Valid() && key !in list.contents[..k]
      decreases |list.nodes| - k
    {
      node := iter.Next(list, k);
      if node == null || node.value == key {
        return;
      }
      k := k + 1;
    }
  }
}
