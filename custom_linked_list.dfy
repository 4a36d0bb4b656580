/** CustomLinkedList: a singly-linked list of `short` values with a head
    reference and a cached count. The chain of Node objects is the real state;
    the ghost fields Contents and Nodes say which values and which nodes it
    holds, from head to tail. */
module Lists {
  import opened Shorts
  import opened ListSpec

  /** `short?`: a value or nothing. */
  datatype Option<T> = None | Some(value: T)

  /** The one failure the list signals (ArgumentOutOfRangeException). */
  datatype Error = IndexOutOfRange(index: int)

  /** A value, or the failure that replaced it. */
  datatype Result<T> = Ok(value: T) | Err(error: Error)

  /** Success, or the failure that stopped an update. */
  datatype Outcome = Pass | Fail(error: Error)

  /** A node of the chain: its value and the link to the next node. */
  class Node {
    var value: int16
    var next: Node?

    constructor (value: int16)
      ensures this.value == value && next == null
    {
      this.value := value;
      next := null;
    }
  }

  /** The nodes, followed through `next` from the first, hold the values in
      order: node i holds values[i] and links to node i + 1, the last node
      links to null, and no node occurs twice. */
  ghost predicate Spells(nodes: seq<Node>, values: seq<int16>)
    reads nodes
  {
    |nodes| == |values| &&
    (forall i :: 0 <= i < |nodes| ==> nodes[i].value == values[i]) &&
    (forall i {:trigger nodes[i].next} :: 0 <= i < |nodes| ==> nodes[i].next == if i + 1 < |nodes| then nodes[i + 1] else null) &&
    (forall i, j :: 0 <= i < j < |nodes| ==> nodes[i] != nodes[j])
  }

  /** What Spells says about one node. */
  lemma SpellsAt(nodes: seq<Node>, values: seq<int16>, i: int)
    requires Spells(nodes, values) && 0 <= i < |nodes|
    ensures nodes[i].value == values[i]
    ensures nodes[i].next == if i + 1 < |nodes| then nodes[i + 1] else null
  {
  }

  /** Dropping the first node leaves the chain of the others. */
  lemma SpellsTail(nodes: seq<Node>, values: seq<int16>)
    requires Spells(nodes, values) && nodes != []
    ensures Spells(nodes[1..], values[1..])
  {
    var ns, vs := nodes[1..], values[1..];
    forall i | 0 <= i < |ns|
      ensures ns[i].value == vs[i]
      ensures ns[i].next == if i + 1 < |ns| then ns[i + 1] else null
    {
      SpellsAt(nodes, values, i + 1);
    }
    forall i, j | 0 <= i < j < |ns|
      ensures ns[i] != ns[j]
    {
      assert ns[i] == nodes[i + 1] && ns[j] == nodes[j + 1];
    }
    assert Spells(ns, vs);
  }

  /** A node that is not among the others keeps a sequence of distinct
      nodes distinct. */
  lemma DistinctInsert(ns: seq<Node>, a: int)
    requires 0 <= a < |ns| && ns[a] !in Without(ns, a)
    requires forall i, j :: 0 <= i < j < |Without(ns, a)| ==> Without(ns, a)[i] != Without(ns, a)[j]
    ensures forall i, j :: 0 <= i < j < |ns| ==> ns[i] != ns[j]
  {
    var os := Without(ns, a);
    forall i, j | 0 <= i < j < |ns|
      ensures ns[i] != ns[j]
    {
      var i', j' := if i < a then i else i - 1, if j < a then j else j - 1;
      if i != a && j != a {
        assert ns[i] == os[i'] && ns[j] == os[j'];
      } else if i == a {
        assert ns[j] == os[j'];
      } else {
        assert ns[i] == os[i'];
      }
    }
  }

  /** Removing a node keeps a sequence of distinct nodes distinct. */
  lemma DistinctWithout(ns: seq<Node>, a: int)
    requires 0 <= a < |ns|
    requires forall i, j :: 0 <= i < j < |ns| ==> ns[i] != ns[j]
    ensures forall i, j :: 0 <= i < j < |Without(ns, a)| ==> Without(ns, a)[i] != Without(ns, a)[j]
  {
    var os := Without(ns, a);
    forall i, j | 0 <= i < j < |os|
      ensures os[i] != os[j]
    {
      var i', j' := if i < a then i else i + 1, if j < a then j else j + 1;
      assert os[i] == ns[i'] && os[j] == ns[j'];
    }
  }

  /** A chain of nodes, the values it spells, and one position in it. The
      two-state lemmas below take this one value instead of three separate
      parameters: Dafny 4.11 stops with an internal prover error ("named
      expression already defined") on a call to a two-state lemma with
      several parameters when it checks for contradictory assumptions. */
  datatype Site = Site(nodes: seq<Node>, values: seq<int16>, at: int)

  /** What Spells said about one node in the earlier state. */
  twostate lemma OldSpellsAt(s: Site)
    requires old(Spells(s.nodes, s.values)) && 0 <= s.at < |s.nodes|
    ensures old(s.nodes[s.at].value) == s.values[s.at]
    ensures old(s.nodes[s.at].next) == if s.at + 1 < |s.nodes| then s.nodes[s.at + 1] else null
  {
  }

  /** Linking a node that was not in the chain in after the node before
      position at, and changing no other node, gives the chain with that node
      at position at. */
  twostate lemma LinkKeepsSpells(s: Site)
    requires 1 <= s.at < |s.nodes| && |s.values| == |s.nodes|
    requires old(Spells(Without(s.nodes, s.at), Without(s.values, s.at)))
    requires s.nodes[s.at] !in Without(s.nodes, s.at)
    requires forall j :: 0 <= j < |s.nodes| && j != s.at - 1 && j != s.at ==> unchanged(s.nodes[j])
    requires s.nodes[s.at - 1].value == old(s.nodes[s.at - 1].value)
    requires s.nodes[s.at - 1].next == s.nodes[s.at]
    requires s.nodes[s.at].value == s.values[s.at]
    requires s.nodes[s.at].next == old(s.nodes[s.at - 1].next)
    ensures Spells(s.nodes, s.values)
  {
    var ns, vs, a := s.nodes, s.values, s.at;
    var os, ov := Without(ns, a), Without(vs, a);
    forall i | 0 <= i < |ns|
      ensures ns[i].value == vs[i]
      ensures ns[i].next == if i + 1 < |ns| then ns[i + 1] else null
    {
      if i < a - 1 {
        assert ns[i] == os[i] && ns[i + 1] == os[i + 1] && vs[i] == ov[i];
        OldSpellsAt(Site(os, ov, i));
      } else if i == a - 1 {
        assert ns[i] == os[i] && vs[i] == ov[i];
        OldSpellsAt(Site(os, ov, i));
      } else if i == a {
        OldSpellsAt(Site(os, ov, a - 1));
        assert a + 1 < |ns| ==> ns[a + 1] == os[a];
      } else {
        assert ns[i] == os[i - 1] && vs[i] == ov[i - 1];
        OldSpellsAt(Site(os, ov, i - 1));
        assert i + 1 < |ns| ==> ns[i + 1] == os[i];
      }
    }
    DistinctInsert(ns, a);
    assert Spells(ns, vs);
  }

  /** Setting the link of the node at position at to null, and changing no
      other node, leaves the chain of the first at + 1 nodes. */
  twostate lemma CutKeepsSpells(s: Site)
    requires old(Spells(s.nodes, s.values)) && 0 <= s.at < |s.nodes|
    requires forall j :: 0 <= j < |s.nodes| && j != s.at ==> unchanged(s.nodes[j])
    requires s.nodes[s.at].value == old(s.nodes[s.at].value) && s.nodes[s.at].next == null
    ensures Spells(s.nodes[..s.at + 1], s.values[..s.at + 1])
  {
    forall j | 0 <= j <= s.at
      ensures s.nodes[j].value == s.values[j]
      ensures j < s.at ==> s.nodes[j].next == s.nodes[j + 1]
    {
      OldSpellsAt(Site(s.nodes, s.values, j));
    }
  }

  /** Linking the node before position at past the node at position at, and
      changing no other node, leaves the chain without that node. */
  twostate lemma UnlinkKeepsSpells(s: Site)
    requires old(Spells(s.nodes, s.values)) && 1 <= s.at < |s.nodes|
    requires forall j :: 0 <= j < |s.nodes| && j != s.at - 1 ==> unchanged(s.nodes[j])
    requires s.nodes[s.at - 1].value == old(s.nodes[s.at - 1].value)
    requires s.nodes[s.at - 1].next == if s.at + 1 < |s.nodes| then s.nodes[s.at + 1] else null
    ensures Spells(Without(s.nodes, s.at), Without(s.values, s.at))
  {
    var nodes, values, a := s.nodes, s.values, s.at;
    var ns, vs := Without(nodes, a), Without(values, a);
    forall j | 0 <= j < |ns|
      ensures ns[j].value == vs[j]
      ensures ns[j].next == if j + 1 < |ns| then ns[j + 1] else null
    {
      if j < a - 1 {
        assert ns[j] == nodes[j] && ns[j + 1] == nodes[j + 1] && vs[j] == values[j];
        OldSpellsAt(Site(nodes, values, j));
      } else if j >= a {
        assert ns[j] == nodes[j + 1] && vs[j] == values[j + 1];
        OldSpellsAt(Site(nodes, values, j + 1));
        assert j + 1 < |ns| ==> ns[j + 1] == nodes[j + 2];
      } else {
        assert ns[j] == nodes[j] && vs[j] == values[j];
        OldSpellsAt(Site(nodes, values, j));
        assert j + 1 < |ns| ==> ns[j + 1] == nodes[a + 1];
      }
    }
    DistinctWithout(nodes, a);
    assert Spells(ns, vs);
  }

  class CustomLinkedList {
    var head: Node?
    var count: int

    /** The values of the chain, head first. */
    ghost var Contents: seq<int16>
    /** The nodes of the chain, head first. */
    ghost var Nodes: seq<Node>
    /** Every object the list uses. */
    ghost var Repr: set<object>

    /** The chain from head spells Contents, and every node belongs to
        the list. The cached count is not part of this. */
    ghost predicate Chain()
      reads this`head, this`Nodes, this`Contents, this`Repr, Repr - {this}
    {
      this in Repr &&
      (forall i :: 0 <= i < |Nodes| ==> Nodes[i] in Repr) &&
      head == (if Nodes == [] then null else Nodes[0]) &&
      Spells(Nodes, Contents)
    }

    /** The class invariant: a well-formed chain whose length is the cached
        count. */
    ghost predicate Valid()
      reads this, Repr
    {
      Chain() && count == |Contents|
    }

    /** An empty list. */
    constructor ()
      ensures Valid() && fresh(Repr)
      ensures Contents == []
    {
      head := null;
      count := 0;
      Contents := [];
      Nodes := [];
      Repr := {this};
    }

    /** The cached number of elements. */
    function Count(): (n: int)
      reads this, Repr
      requires Valid()
      ensures n == |Contents|
    {
      count
    }

    /** Adds a value as the second element; an empty list gets it as head. */
    method AddAfterFirst(value: int16)
      requires Valid()
      modifies Repr
      ensures Valid() && fresh(Repr - old(Repr))
      ensures Contents == InsertAfterFirst(old(Contents), value)
      ensures Count() == old(Count()) + 1
    {
      var newNode := new Node(value);
      ghost var nodes, values := [newNode], [value];
      if head != null {
        SpellsAt(Nodes, Contents, 0);
        nodes := [Nodes[0], newNode] + Nodes[1..];
        values := [Contents[0], value] + Contents[1..];
        assert Without(nodes, 1) == Nodes && Without(values, 1) == Contents;
        forall i | 0 <= i < |nodes|
          ensures nodes[i] in Repr + {newNode}
          ensures i >= 2 ==> nodes[i] != head && nodes[i] != newNode
        {
          if i >= 2 {
            assert nodes[i] == Nodes[i - 1];
          }
        }
      }
      label L:
      if head == null {
        head := newNode;
      } else {
        newNode.next := head.next;
        head.next := newNode;
      }
      count := count + 1;
      Repr, Nodes, Contents := Repr + {newNode}, nodes, values;
      if |nodes| > 1 {
        LinkKeepsSpells@L(Site(nodes, values, 1));
      }
    }

    /** The first value, from the head, that is strictly greater than the
        given one; nothing if there is none. */
    method FirstGreaterThan(value: int16) returns (r: Option<int16>)
      requires Valid()
      ensures r.None? <==> forall i :: 0 <= i < |Contents| ==> Contents[i] <= value
      ensures r.Some? ==>
                exists i :: 0 <= i < |Contents| && Contents[i] == r.value && value < r.value &&
                            forall j :: 0 <= j < i ==> Contents[j] <= value
    {
      var current := head;
      ghost var i := 0;
      while current != null
        invariant 0 <= i <= |Nodes|
        invariant current == if i < |Nodes| then Nodes[i] else null
        invariant forall j :: 0 <= j < i ==> Contents[j] <= value
        decreases |Nodes| - i
      {
        SpellsAt(Nodes, Contents, i);
        if current.value > value {
          return Some(current.value);
        }
        current := current.next;
        i := i + 1;
      }
      return None;
    }

    /** The average of the values, as an exact fraction; 0 for the empty
        list. */
    method CalculateAverage() returns (average: Ratio)
      requires Valid()
      ensures average == Average(Contents)
    {
      if count == 0 {
        return Ratio(0, 1);
      }
      var sum := 0;
      var current := head;
      ghost var i := 0;
      while current != null
        invariant 0 <= i <= |Nodes|
        invariant current == if i < |Nodes| then Nodes[i] else null
        invariant sum == Sum(Contents[..i])
        decreases |Nodes| - i
      {
        SpellsAt(Nodes, Contents, i);
        assert Contents[..i + 1][..i] == Contents[..i];
        sum := sum + current.value as int;
        current := current.next;
        i := i + 1;
      }
      assert Contents[..i] == Contents;
      return Ratio(sum, count);
    }

    /** The `short` sum of the values strictly greater than the average. */
    method SumGreaterThanAverage() returns (sum: int16)
      requires Valid()
      ensures sum == SumAboveAverage(Contents)
      ensures Contents == [] ==> sum == 0
    {
      var average := CalculateAverage();
      sum := 0;
      var current := head;
      ghost var i := 0;
      while current != null
        invariant 0 <= i <= |Nodes|
        invariant current == if i < |Nodes| then Nodes[i] else null
        invariant sum == Wrap16(Sum(Select(Contents[..i], Above, average)))
        decreases |Nodes| - i
      {
        SpellsAt(Nodes, Contents, i);
        SelectStep(Contents, i, Above, average);
        if OnSide(current.value, Above, average) {
          ghost var above := Select(Contents[..i], Above, average);
          SumSnoc(above, current.value);
          WrapAdd(Sum(above), current.value as int);
          sum := Wrap16(sum as int + current.value as int);
          assert sum == Wrap16(Sum(above + [Contents[i]]));
        } else {
          assert Select(Contents[..i + 1], Above, average) == Select(Contents[..i], Above, average);
        }
        current := current.next;
        i := i + 1;
      }
      assert Contents[..i] == Contents;
    }

    /** A new list of the values strictly below the average, each added with
        AddAfterFirst in scan order. The list itself is not modified. */
    method GetLessThanAverage() returns (newList: CustomLinkedList)
      requires Valid()
      ensures newList.Valid() && fresh(newList.Repr)
      ensures newList.Contents == BelowAverageList(Contents)
      ensures newList.Count() == |Select(Contents, Below, Average(Contents))|
    {
      newList := new CustomLinkedList();
      var average := CalculateAverage();
      var current := head;
      ghost var i := 0;
      while current != null
        invariant 0 <= i <= |Nodes|
        invariant current == if i < |Nodes| then Nodes[i] else null
        invariant newList.Valid() && fresh(newList.Repr)
        invariant newList.Contents == InsertAll(Select(Contents[..i], Below, average))
        decreases |Nodes| - i
      {
        SpellsAt(Nodes, Contents, i);
        SelectStep(Contents, i, Below, average);
        if OnSide(current.value, Below, average) {
          InsertAllSnoc(Select(Contents[..i], Below, average), current.value);
          newList.AddAfterFirst(current.value);
        } else {
          assert Select(Contents[..i + 1], Below, average) == Select(Contents[..i], Below, average);
        }
        current := current.next;
        i := i + 1;
      }
      assert Contents[..i] == Contents;
    }

    /** Cuts the chain after the first occurrence of the maximum; a list of
        fewer than two values is left alone. */
    method RemoveAfterMax()
      requires Valid()
      modifies Repr
      ensures Valid() && Repr == old(Repr)
      ensures Contents == TrimAfterMax(old(Contents))
    {
      if head != null {
        SpellsAt(Nodes, Contents, 0);
      }
      if head == null || head.next == null {
        return;
      }
      var maxNode := head;
      var current := head.next;
      ghost var k := 0;
      ghost var i := 1;
      while current != null
        modifies {}
        invariant 1 <= i <= |Nodes|
        invariant current == if i < |Nodes| then Nodes[i] else null
        invariant 0 <= k < i && maxNode == Nodes[k]
        invariant k == FirstMaxIndex(Contents[..i])
        decreases |Nodes| - i
      {
        SpellsAt(Nodes, Contents, i);
        FirstMaxIndexStep(Contents, i);
        if current.value > maxNode.value {
          maxNode := current;
          k := i;
        }
        current := current.next;
        i := i + 1;
      }
      assert Contents[..i] == Contents;
      assert Contents[..k + 1] == TrimAfterMax(Contents);
      CutAfter(maxNode, k);
    }

    /** Ends the chain at `node`, the k-th node, and recounts the nodes
        left. */
    method CutAfter(node: Node, ghost k: nat)
      requires Chain() && k < |Nodes| && node == Nodes[k]
      modifies this, node
      ensures Valid() && Repr == old(Repr)
      ensures Nodes == old(Nodes[..k + 1]) && Contents == old(Contents[..k + 1])
    {
      SpellsAt(Nodes, Contents, k);
      label L:
      node.next := null;
      CutKeepsSpells@L(Site(Nodes, Contents, k));
      Nodes := Nodes[..k + 1];
      Contents := Contents[..k + 1];
      count := GetCountFromHead();
    }

    /** The number of nodes reachable from head. */
    method GetCountFromHead() returns (n: int)
      requires Chain()
      ensures n == |Nodes|
    {
      n := 0;
      var current := head;
      while current != null
        invariant 0 <= n <= |Nodes|
        invariant current == if n < |Nodes| then Nodes[n] else null
        decreases |Nodes| - n
      {
        SpellsAt(Nodes, Contents, n);
        n := n + 1;
        current := current.next;
      }
    }

    /** Removes the value at a position; an index outside [0, Count) fails
        and changes nothing. */
    method RemoveAt(index: int) returns (r: Outcome)
      requires Valid()
      modifies Repr
      ensures Valid() && Repr == old(Repr)
      ensures r == if 0 <= index < |old(Contents)| then Pass else Fail(IndexOutOfRange(index))
      ensures r.Fail? ==> unchanged(Repr)
      ensures r.Pass? ==> Contents == Without(old(Contents), index)
      ensures r.Pass? ==> Count() == old(Count()) - 1
    {
      if index < 0 || index >= count {
        return Fail(IndexOutOfRange(index));
      }
      ghost var nodes, values := Without(Nodes, index), Without(Contents, index);
      SpellsAt(Nodes, Contents, 0);
      if index == 0 {
        assert nodes == Nodes[1..] && values == Contents[1..];
        SpellsTail(Nodes, Contents);
      } else {
        SpellsAt(Nodes, Contents, index - 1);
        SpellsAt(Nodes, Contents, index);
      }
      forall i | 0 <= i < |nodes|
        ensures nodes[i] in Repr
      {
        assert nodes[i] == if i < index then Nodes[i] else Nodes[i + 1];
      }
      label L:
      if index == 0 {
        head := head.next;
      } else {
        var previous := GetNodeAt(index - 1);
        previous.next := if previous.next == null then null else previous.next.next;
      }
      count := count - 1;
      Nodes, Contents := nodes, values;
      if index > 0 {
        UnlinkKeepsSpells@L(Site(old@L(Nodes), old@L(Contents), index));
      }
      return Pass;
    }

    /** The node at a position, reached by following links from head. */
    method GetNodeAt(index: int) returns (node: Node)
      requires Chain() && 0 <= index < |Nodes|
      ensures node == Nodes[index]
    {
      var current := head;
      for i := 0 to index
        invariant current == Nodes[i]
      {
        SpellsAt(Nodes, Contents, i);
        current := current.next;
      }
      return current;
    }

    /** The indexer `this[index]`: the value at a position, or the
        out-of-range failure; nothing is modified. */
    method Item(index: int) returns (r: Result<int16>)
      requires Valid()
      ensures r == if 0 <= index < |Contents| then Ok(Contents[index]) else Err(IndexOutOfRange(index))
    {
      if index < 0 || index >= count {
        return Err(IndexOutOfRange(index));
      }
      var node := GetNodeAt(index);
      return Ok(node.value);
    }

    /** The values the enumerator yields, head to tail, as one snapshot. */
    method GetEnumerator() returns (values: seq<int16>)
      requires Valid()
      ensures values == Contents
    {
      values := [];
      var current := head;
      while current != null
        invariant |values| <= |Nodes|
        invariant current == if |values| < |Nodes| then Nodes[|values|] else null
        invariant values == Contents[..|values|]
        decreases |Nodes| - |values|
      {
        SpellsAt(Nodes, Contents, |values|);
        values := values + [current.value];
        current := current.next;
      }
    }
  }
}
