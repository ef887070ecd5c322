/** Circular doubly-linked lists whose nodes live at addresses in memory. A list is a ring of
    distinct nodes starting with its head; every operation is a few pointer writes. */
module IntrusiveList {
  import opened Sequences

  type Ref = nat
  const NULL: Ref := 0

  datatype Node = Node(next: Ref, prev: Ref)

  type Links = map<Ref, Node>

  function After(i: nat, n: nat): nat {
    if i + 1 < n then i + 1 else 0
  }

  /** s lists a whole ring in next order; following prev gives the reverse order. */
  ghost predicate Ring(m: Links, s: seq<Ref>) {
    && s != [] && Distinct(s)
    && (forall i :: 0 <= i < |s| ==> s[i] in m)
    && (forall i, j :: 0 <= i < |s| && 0 <= j < |s| && j == After(i, |s|) ==>
          m[s[i]].next == s[j] && m[s[j]].prev == s[i])
  }

  /** The four writes of __list_add. */
  function Linked(m: Links, n: Ref, prev: Ref, next: Ref): Links
    requires n in m && prev in m && next in m
  {
    var m1 := m[next := m[next].(prev := n)];
    var m2 := m1[n := m1[n].(next := next)];
    var m3 := m2[n := m2[n].(prev := prev)];
    m3[prev := m3[prev].(next := n)]
  }

  /** The two writes of __list_del. */
  function Bypassed(m: Links, prev: Ref, next: Ref): Links
    requires prev in m && next in m
  {
    var m1 := m[next := m[next].(prev := prev)];
    m1[prev := m1[prev].(next := next)]
  }

  function Inserted(s: seq<Ref>, i: nat, n: Ref): seq<Ref>
    requires i < |s|
  {
    s[..i + 1] + [n] + s[i + 1..]
  }

  function Removed(s: seq<Ref>, i: nat): seq<Ref>
    requires i < |s|
  {
    s[..i] + s[i + 1..]
  }

  ghost predicate SameOutside(m: Links, m': Links, s: seq<Ref>) {
    m'.Keys == m.Keys && forall r :: r in m && r !in s ==> m'[r] == m[r]
  }

  lemma RingNext(m: Links, s: seq<Ref>, i: nat)
    requires Ring(m, s) && i < |s|
    ensures s[i] in m && m[s[i]].next == s[After(i, |s|)] && m[s[After(i, |s|)]].prev == s[i]
    ensures s[After(i, |s|)] in m
  {
    var j := After(i, |s|);
    assert m[s[i]].next == s[j];
  }

  /** The node at position k and the one after it point at each other. */
  ghost predicate Paired(m: Links, t: seq<Ref>, k: nat)
    requires k < |t|
  {
    var j := After(k, |t|);
    t[k] in m && t[j] in m && m[t[k]].next == t[j] && m[t[j]].prev == t[k]
  }

  lemma FromPairs(m: Links, t: seq<Ref>)
    requires t != [] && Distinct(t) && forall k :: 0 <= k < |t| ==> Paired(m, t, k)
    ensures Ring(m, t)
  {
    forall i | 0 <= i < |t|
      ensures t[i] in m
    {
      assert Paired(m, t, i);
    }
    forall i, j | 0 <= i < |t| && 0 <= j < |t| && j == After(i, |t|)
      ensures m[t[i]].next == t[j] && m[t[j]].prev == t[i]
    {
      assert Paired(m, t, i);
    }
  }

  lemma InsertPair(m: Links, s: seq<Ref>, i: nat, n: Ref, k: nat)
    requires Ring(m, s) && i < |s| && n in m && n !in s && k <= |s|
    ensures s[i] in m && s[After(i, |s|)] in m
    ensures Paired(Linked(m, n, s[i], s[After(i, |s|)]), Inserted(s, i, n), k)
  {
    hide Inserted;
    RingNext(m, s, i);
    var t := Inserted(s, i, n);
    InsertedAt(s, i, n, k);
    InsertedAt(s, i, n, After(k, |t|));
    assert s[i] in s && s[After(i, |s|)] in s;
    if k < i {
      RingNext(m, s, k);
      assert s[k] != s[i] && s[k + 1] in s && s[k] in s;
      assert s[k + 1] != s[After(i, |s|)];
    } else if i + 1 < k {
      RingNext(m, s, k - 1);
      assert s[k - 1] != s[i] && s[k - 1] in s && s[After(k - 1, |s|)] in s;
      assert s[After(k - 1, |s|)] != s[After(i, |s|)];
    }
  }

  lemma InsertedAt(s: seq<Ref>, i: nat, n: Ref, k: nat)
    requires i < |s| && k <= |s|
    ensures |Inserted(s, i, n)| == |s| + 1
    ensures Inserted(s, i, n)[k] == if k <= i then s[k] else if k == i + 1 then n else s[k - 1]
  {
  }

  lemma InsertedDistinct(s: seq<Ref>, i: nat, n: Ref)
    requires Distinct(s) && i < |s| && n !in s
    ensures Distinct(Inserted(s, i, n)) && forall r :: r in Inserted(s, i, n) <==> r in s || r == n
  {
    var t := Inserted(s, i, n);
    assert s == s[..i + 1] + s[i + 1..];
    assert t[i + 1] == n;
    forall j, k | 0 <= j < k < |t|
      ensures t[j] != t[k]
    {
      var j', k' := if j <= i then j else j - 1, if k <= i then k else k - 1;
      assert j != i + 1 ==> t[j] == s[j'] && s[j'] in s;
      assert k != i + 1 ==> t[k] == s[k'] && s[k'] in s;
    }
  }

  /** Inserting behind position i of a ring. */
  lemma InsertRing(m: Links, s: seq<Ref>, i: nat, n: Ref)
    requires Ring(m, s) && i < |s| && n in m && n !in s
    ensures s[i] in m && s[After(i, |s|)] in m
    ensures var m' := Linked(m, n, s[i], s[After(i, |s|)]);
            Ring(m', Inserted(s, i, n)) && SameOutside(m, m', Inserted(s, i, n))
  {
    hide Linked, SameOutside, Paired, Distinct;
    RingNext(m, s, i);
    var t := Inserted(s, i, n);
    InsertedDistinct(s, i, n);
    var m' := Linked(m, n, s[i], s[After(i, |s|)]);
    forall k | 0 <= k < |t|
      ensures Paired(m', t, k)
    {
      InsertPair(m, s, i, n, k);
    }
    FromPairs(m', t);
    assert s[i] in s && s[After(i, |s|)] in s;
    LinkedOutside(m, n, s[i], s[After(i, |s|)], t);
  }

  lemma LinkedOutside(m: Links, n: Ref, prev: Ref, next: Ref, t: seq<Ref>)
    requires n in m && prev in m && next in m && n in t && prev in t && next in t
    ensures SameOutside(m, Linked(m, n, prev, next), t)
  {
  }

  lemma RemovePair(m: Links, s: seq<Ref>, i: nat, k: nat)
    requires Ring(m, s) && 0 < i < |s| && k + 1 < |s|
    ensures s[i - 1] in m && s[After(i, |s|)] in m
    ensures Paired(Bypassed(m, s[i - 1], s[After(i, |s|)]), Removed(s, i), k)
  {
    RingNext(m, s, i - 1);
    RingNext(m, s, i);
    var t := Removed(s, i);
    if k < i - 1 {
      RingNext(m, s, k);
      assert t[k] == s[k] && t[k + 1] == s[k + 1];
    } else if k == i - 1 {
      assert t[k] == s[i - 1] && t[After(k, |t|)] == s[After(i, |s|)];
    } else {
      RingNext(m, s, k + 1);
      assert t[k] == s[k + 1] && t[After(k, |t|)] == s[After(k + 1, |s|)];
    }
  }

  /** Taking the node at position i > 0 out of a ring. */
  lemma RemoveRing(m: Links, s: seq<Ref>, i: nat)
    requires Ring(m, s) && 0 < i < |s|
    ensures s[i] in m && m[s[i]] == Node(s[After(i, |s|)], s[i - 1]) && s[i - 1] in m && s[After(i, |s|)] in m
    ensures var m' := Bypassed(m, s[i - 1], s[After(i, |s|)]);
            Ring(m', Removed(s, i)) && SameOutside(m, m', Removed(s, i))
  {
    hide Bypassed, SameOutside, Paired, Distinct;
    RingNext(m, s, i - 1);
    RingNext(m, s, i);
    var t := Removed(s, i);
    RemovedMembers(s, i);
    var m' := Bypassed(m, s[i - 1], s[After(i, |s|)]);
    forall k | 0 <= k < |t|
      ensures Paired(m', t, k)
    {
      RemovePair(m, s, i, k);
    }
    FromPairs(m', t);
    NeighboursStay(s, i);
    BypassedOutside(m, s[i - 1], s[After(i, |s|)], t);
  }

  lemma NeighboursStay(s: seq<Ref>, i: nat)
    requires Distinct(s) && 0 < i < |s|
    ensures s[i - 1] in Removed(s, i) && s[After(i, |s|)] in Removed(s, i)
  {
    var t := Removed(s, i);
    assert t[i - 1] == s[i - 1];
    assert i + 1 < |s| ==> t[i] == s[i + 1];
    assert t[0] == s[0];
  }

  lemma BypassedOutside(m: Links, prev: Ref, next: Ref, t: seq<Ref>)
    requires prev in m && next in m && prev in t && next in t
    ensures SameOutside(m, Bypassed(m, prev, next), t)
  {
  }

  /** A ring that shares no node with the writes stays a ring. */
  lemma RingFrame(m: Links, m': Links, s: seq<Ref>, t: seq<Ref>)
    requires Ring(m, t) && SameOutside(m, m', s) && forall r :: r in t ==> r !in s
    ensures Ring(m', t)
  {
    assert forall k :: 0 <= k < |t| ==> t[k] in t;
  }

  lemma SameThen(m: Links, m1: Links, m2: Links, s: seq<Ref>, t: seq<Ref>, u: seq<Ref>)
    requires SameOutside(m, m1, s) && SameOutside(m1, m2, t)
    requires (forall r :: r in s ==> r in u) && (forall r :: r in t ==> r in u)
    ensures SameOutside(m, m2, u)
  {
  }

  class ListMemory {
    var nodes: Links

    constructor ()
      ensures nodes == map[]
    {
      nodes := map[];
    }

    method InitListHead(list: Ref)
      modifies this
      ensures nodes == old(nodes)[list := Node(list, list)] && Ring(nodes, [list])
    {
      nodes := nodes[list := Node(list, list)];
    }

    method AddBetween(n: Ref, prev: Ref, next: Ref)
      requires n in nodes && prev in nodes && next in nodes
      modifies this
      ensures nodes == Linked(old(nodes), n, prev, next)
    {
      nodes := nodes[next := nodes[next].(prev := n)];
      nodes := nodes[n := nodes[n].(next := next)];
      nodes := nodes[n := nodes[n].(prev := prev)];
      nodes := nodes[prev := nodes[prev].(next := n)];
    }

    method Add(n: Ref, head: Ref, ghost s: seq<Ref>)
      requires Ring(nodes, s) && head == s[0] && n in nodes && n !in s
      modifies this
      ensures Ring(nodes, [head, n] + s[1..]) && SameOutside(old(nodes), nodes, [head, n] + s[1..])
    {
      RingNext(nodes, s, 0);
      InsertRing(nodes, s, 0, n);
      assert Inserted(s, 0, n) == [head, n] + s[1..];
      AddBetween(n, head, nodes[head].next);
    }

    method AddTail(n: Ref, head: Ref, ghost s: seq<Ref>)
      requires Ring(nodes, s) && head == s[0] && n in nodes && n !in s
      modifies this
      ensures Ring(nodes, s + [n]) && SameOutside(old(nodes), nodes, s + [n])
    {
      RingNext(nodes, s, |s| - 1);
      InsertRing(nodes, s, |s| - 1, n);
      assert Inserted(s, |s| - 1, n) == s + [n];
      AddBetween(n, nodes[head].prev, head);
    }

    method Unlink(prev: Ref, next: Ref)
      requires prev in nodes && next in nodes
      modifies this
      ensures nodes == Bypassed(old(nodes), prev, next)
    {
      nodes := nodes[next := nodes[next].(prev := prev)];
      nodes := nodes[prev := nodes[prev].(next := next)];
    }

    method Del(entry: Ref, ghost s: seq<Ref>, ghost i: nat)
      requires Ring(nodes, s) && 0 < i < |s| && entry == s[i]
      modifies this
      ensures Ring(nodes, Removed(s, i)) && SameOutside(old(nodes), nodes, s)
      ensures entry in nodes && nodes[entry] == Node(NULL, NULL) && entry !in Removed(s, i)
    {
      RemoveRing(nodes, s, i);
      RemovedMembers(s, i);
      Unlink(nodes[entry].prev, nodes[entry].next);
      ghost var m := nodes;
      nodes := nodes[entry := nodes[entry].(next := NULL)];
      nodes := nodes[entry := nodes[entry].(prev := NULL)];
      RingFrame(m, nodes, [entry], Removed(s, i));
    }

    /** Take a node out of one ring and put it behind the head of another. */
    method Move(entry: Ref, head: Ref, ghost s: seq<Ref>, ghost i: nat, ghost t: seq<Ref>)
      requires Ring(nodes, s) && 0 < i < |s| && entry == s[i]
      requires Ring(nodes, t) && head == t[0] && forall r :: r in t ==> r !in s
      modifies this
      ensures Ring(nodes, Removed(s, i)) && Ring(nodes, [head, entry] + t[1..])
      ensures SameOutside(old(nodes), nodes, s + t)
    {
      RemoveRing(nodes, s, i);
      RemovedMembers(s, i);
      ghost var m := nodes;
      Unlink(nodes[entry].prev, nodes[entry].next);
      RingFrame(m, nodes, Removed(s, i), t);
      ghost var m1 := nodes;
      assert entry in s;
      Add(entry, head, t);
      RingFrame(m1, nodes, [head, entry] + t[1..], Removed(s, i));
      assert t == [head] + t[1..];
      SameThen(m, m1, nodes, Removed(s, i), [head, entry] + t[1..], s + t);
    }

    /** The same, to the tail of the other ring. */
    method MoveTail(entry: Ref, head: Ref, ghost s: seq<Ref>, ghost i: nat, ghost t: seq<Ref>)
      requires Ring(nodes, s) && 0 < i < |s| && entry == s[i]
      requires Ring(nodes, t) && head == t[0] && forall r :: r in t ==> r !in s
      modifies this
      ensures Ring(nodes, Removed(s, i)) && Ring(nodes, t + [entry])
      ensures SameOutside(old(nodes), nodes, s + t)
    {
      RemoveRing(nodes, s, i);
      RemovedMembers(s, i);
      ghost var m := nodes;
      Unlink(nodes[entry].prev, nodes[entry].next);
      RingFrame(m, nodes, Removed(s, i), t);
      ghost var m1 := nodes;
      assert entry in s;
      AddTail(entry, head, t);
      RingFrame(m1, nodes, t + [entry], Removed(s, i));
      SameThen(m, m1, nodes, Removed(s, i), t + [entry], s + t);
    }

    method IsEmpty(head: Ref, ghost s: seq<Ref>) returns (r: bool)
      requires Ring(nodes, s) && head == s[0]
      ensures r <==> |s| == 1
    {
      RingNext(nodes, s, 0);
      r := nodes[head].next == head;
    }

    method IsSingular(head: Ref, ghost s: seq<Ref>) returns (r: bool)
      requires Ring(nodes, s) && head == s[0]
      ensures r <==> |s| == 2
    {
      RingNext(nodes, s, 0);
      RingNext(nodes, s, |s| - 1);
      r := nodes[head].next != head && nodes[head].next == nodes[head].prev;
    }
  }

  /** The node at position j of a list with the given head, or the head behind its end. */
  function Cursor(head: Ref, queue: seq<Ref>, j: nat): Ref {
    if j < |queue| then queue[j] else head
  }

  /** Following next from the head, or from position j. */
  lemma NextIs(m: Links, head: Ref, queue: seq<Ref>, j: nat)
    requires Ring(m, [head] + queue)
    ensures head in m && m[head].next == Cursor(head, queue, 0)
    ensures Cursor(head, queue, j) in m && Cursor(head, queue, 0) in m
    ensures j < |queue| ==> queue[j] != head && m[queue[j]].next == Cursor(head, queue, j + 1)
  {
    var s := [head] + queue;
    RingNext(m, s, 0);
    if j < |queue| {
      RingNext(m, s, j + 1);
      assert s[0] != s[j + 1];
    }
  }

  lemma RemovedMembers(s: seq<Ref>, i: nat)
    requires Distinct(s) && i < |s|
    ensures Distinct(Removed(s, i)) && s[i] !in Removed(s, i)
    ensures forall r :: r in Removed(s, i) <==> r in s && r != s[i]
  {
    var t := Removed(s, i);
    forall r
      ensures r in t <==> r in s && r != s[i]
    {
      if r in s && r != s[i] {
        var k :| 0 <= k < |s| && s[k] == r;
        assert t[if k < i then k else k - 1] == r;
      }
    }
  }

  /** Moving a node out of a ring and back behind the same predecessor restores the memory. */
  lemma RemoveInsert(m: Links, s: seq<Ref>, i: nat)
    requires Ring(m, s) && 0 < i < |s|
    ensures s[i] in m && s[i - 1] in m && s[After(i, |s|)] in m
    ensures Linked(Bypassed(m, s[i - 1], s[After(i, |s|)]), s[i], s[i - 1], s[After(i, |s|)]) == m
  {
    RingNext(m, s, i - 1);
    RingNext(m, s, i);
  }
}
