/** The circular doubly linked lists that the worker threads fill. */
module SortedList {
  import opened Sequences

  class Node {
    var prev: Node
    var next: Node
    var key: nat

    constructor (k: nat)
      ensures next == this && prev == this && key == k && Ring([this])
    {
      prev, next, key := this, this, k;
    }
  }

  ghost predicate Linked(a: Node, b: Node)
    reads a, b
  {
    a.next == b && b.prev == a
  }

  /** The nodes c, of which the first is the list's head and the others are its elements, form a
      ring in both directions, in this order. */
  ghost predicate Ring(c: seq<Node>)
    reads c
  {
    && |c| > 0 && Distinct(c)
    && forall i :: 0 <= i < |c| ==> Linked(c[i], c[Succ(|c|, i)])
  }

  /** The ring d starts at a node. */
  ghost predicate RingFrom(first: Node, d: seq<Node>)
    reads d
  {
    Ring(d) && d[0] == first
  }

  /** Following links never leaves a set of nodes. */
  ghost predicate Closed(nodes: set<Node>)
    reads nodes
  {
    forall n :: n in nodes ==> n.next in nodes && n.prev in nodes
  }

  /** Both neighbours of n point back to it. */
  ghost predicate Sound(n: Node)
    reads n, n.next, n.prev
  {
    n.next.prev == n && n.prev.next == n
  }

  /** Every link from one node of c to the next goes both ways and no node comes twice. */
  ghost predicate Chain(c: seq<Node>)
    reads c
  {
    |c| > 0 && Distinct(c) && forall i :: 0 <= i < |c| - 1 ==> Linked(c[i], c[Succ(|c|, i)])
  }

  /** A walk from the head has passed the nodes e, all sound, and stands at n. */
  ghost predicate Passed(list: Node, e: seq<Node>, n: Node)
    reads list, n, e, set m | m in e :: m.prev
  {
    list !in e &&
    if e == [] then n == list.next
    else Chain(e) && e[0] == list.next && e[0].prev.next == e[0] && Linked(e[|e| - 1], n)
  }

  /** Puts an element in front of all others; nothing happens without a list or an element. An
      element that was first already is cut off with a ring of its own, and one further back is
      linked to from two places; inserting the list itself empties it. */
  method Insert(list: Node?, element: Node?, ghost c: seq<Node>)
    requires list != null && element != null ==> Ring(c) && list == c[0]
    modifies if list != null && element != null then {list, list.next, element} else {}
    ensures list != null && element != null && element !in c ==> Ring(WithFirst(c, element))
    ensures list != null && element == list ==> RingFrom(list, [list])
    ensures list != null && |c| > 1 && element == c[1] ==> RingFrom(list.next, [c[1]]) && list.prev == old(list.prev)
    ensures list != null ==> forall j :: 1 < j < |c| && element == c[j] ==>
              Passed(list, [c[j]] + c[1..j - 1], c[j - 1]) && c[j - 1] != list && !Sound(c[j - 1])
    ensures forall n :: n in c + [element] && n != null ==> n.key == old(n.key)
  {
    if list == null || element == null {
      return;
    }
    hide WithFirst, Passed, Ring;
    ghost var d := WithFirst(c, element);
    var curr := list.next;
    LinksOf(c, 0);
    element.prev := curr.prev;
    element.next := curr;
    curr.prev.next := element;
    curr.prev := element;
    if element !in c {
      forall i | 0 <= i < |d|
        ensures Linked(d[i], d[Succ(|d|, i)])
      {
        if i > 1 {
          assert old(Linked(c[i - 1], c[Succ(|c|, i - 1)]));
        }
      }
    } else {
      forall j | 1 < j < |c| && element == c[j]
        ensures Passed(list, [c[j]] + c[1..j - 1], c[j - 1]) && c[j - 1] != list && !Sound(c[j - 1])
      {
        assert old(Linked(c[j - 1], c[Succ(|c|, j - 1)]));
        forall i | 1 <= i < j - 1
          ensures Linked(c[i], c[i + 1])
        {
          assert old(Linked(c[i], c[Succ(|c|, i)]));
        }
        InsertedTwice(list, c, j);
      }
      if |c| > 1 && element == c[1] {
        assert Ring([c[1]]) by { RingOfOne(c[1]); }
      }
      if element == list {
        RingOfOne(list);
      }
    }
  }

  lemma RingOfOne(n: Node)
    requires n.next == n && n.prev == n
    ensures Ring([n])
  {}

  /** What inserting an element further back again leaves: the walk comes to the element before it,
      which it does not point back to any more. */
  lemma InsertedTwice(list: Node, c: seq<Node>, j: nat)
    requires 1 < j < |c| && Distinct(c) && list == c[0] && Linked(list, c[j]) && Linked(c[j], c[1])
    requires c[j - 1].next == c[j] && forall i :: 1 <= i < j - 1 ==> Linked(c[i], c[i + 1])
    ensures Passed(list, [c[j]] + c[1..j - 1], c[j - 1]) && c[j - 1] != list && !Sound(c[j - 1])
  {
    var e := [c[j]] + c[1..j - 1];
    forall i | 0 <= i < |e| - 1
      ensures Linked(e[i], e[Succ(|e|, i)])
    {
      assert i > 0 ==> e[i] == c[i] && e[i + 1] == c[i + 1];
    }
  }

  /** c without its node at place i. */
  ghost function Without(c: seq<Node>, i: nat): (r: seq<Node>)
    requires i < |c|
    ensures |r| == |c| - 1 && forall j :: 0 <= j < |r| ==> r[j] == if j < i then c[j] else c[j + 1]
  {
    c[..i] + c[i + 1..]
  }

  /** Unlinks an element whose neighbours point back to it, and reports 1 otherwise. An element
      of a ring is taken out of it. */
  method Delete(element: Node, ghost c: seq<Node>, ghost i: nat) returns (r: int)
    modifies element.next, element.prev
    ensures r == if old(element.next.prev) != element || old(element.prev.next) != element then 1 else 0
    ensures r == 1 ==> unchanged(old(element.next)) && unchanged(old(element.prev))
    ensures r == 0 ==> old(element.next).prev == old(element.prev)
    ensures old(Ring(c)) && 0 < i < |c| && element == c[i] ==> r == 0 && Ring(Without(c, i))
  {
    hide Ring, Without;
    ghost var inRing := 0 < i < |c| && element == c[i] && Ring(c);
    if inRing {
      LinksOf(c, i - 1);
      LinksOf(c, i);
    }
    if element.next.prev != element || element.prev.next != element {
      return 1;
    }
    element.next.prev := element.prev;
    element.prev.next := element.next;
    r := 0;
    if inRing {
      RingWithout(c, i);
    }
  }

  /** All links are as on a ring but for those of node i, whose neighbours are linked to each other. */
  ghost predicate LinkedAround(c: seq<Node>, i: nat)
    reads c
  {
    && 0 < i < |c| && Distinct(c) && Linked(c[i - 1], c[Succ(|c|, i)])
    && forall j :: 0 <= j < |c| && j != i && j != i - 1 ==> Linked(c[j], c[Succ(|c|, j)])
  }

  lemma RingWithout(c: seq<Node>, i: nat)
    requires LinkedAround(c, i)
    ensures Ring(Without(c, i))
  {
    hide Linked;
    var d := Without(c, i);
    forall j | 0 <= j < |d|
      ensures Linked(d[j], d[Succ(|d|, j)])
    {
      var k := if j < i then j else j + 1;
      assert d[j] == c[k];
      if j == i - 1 {
        assert d[Succ(|d|, j)] == c[Succ(|c|, i)];
      } else {
        assert d[Succ(|d|, j)] == c[Succ(|c|, k)];
      }
    }
  }

  lemma LinksOf(c: seq<Node>, i: nat)
    requires Ring(c) && i < |c|
    ensures Linked(c[i], c[Succ(|c|, i)]) && Distinct(c)
    ensures forall j :: 0 <= j < |c| ==> Linked(c[j], c[Succ(|c|, j)])
  {}

  /** The first element with the key, if any. */
  method Lookup(list: Node, key: nat, ghost c: seq<Node>) returns (r: Node?)
    requires Ring(c) && list == c[0]
    ensures r == null <==> forall i :: 0 < i < |c| ==> c[i].key != key
    ensures r != null ==> exists i :: 0 < i < |c| && r == c[i] && c[i].key == key && forall j :: 0 < j < i ==> c[j].key != key
  {
    var curr := list.next;
    ghost var i := 1;
    LinksOf(c, 0);
    while curr != list
      invariant 1 <= i <= |c| && curr == if i < |c| then c[i] else list
      invariant forall j :: 0 < j < i ==> c[j].key != key
      decreases |c| - i
    {
      LinksOf(c, i);
      if curr.key == key {
        return curr;
      }
      curr := curr.next;
      i := i + 1;
    }
    r := null;
  }

  // Counting

  lemma {:induction false} DistinctFit(c: seq<Node>, nodes: set<Node>)
    requires Distinct(c) && forall i :: 0 <= i < |c| ==> c[i] in nodes
    ensures |c| <= |nodes|
  {
    if |c| > 0 {
      var n := |c| - 1;
      DistinctFit(c[..n], nodes - {c[n]});
    }
  }

  lemma ExtendChain(c: seq<Node>, n: Node)
    requires Chain(c) && n != c[0] && Linked(c[|c| - 1], n)
    ensures Chain(c + [n])
  {
    var d, k := c + [n], |c|;
    forall j | 0 <= j < k
      ensures c[j] != n
    {
      if j > 0 {
        assert Linked(c[j - 1], c[Succ(|c|, j - 1)]);
      }
    }
    forall i | 0 <= i < k
      ensures Linked(d[i], d[Succ(|d|, i)])
    {
      if i + 1 < k {
        assert Linked(c[i], c[Succ(|c|, i)]);
      }
    }
  }

  /** A chain is the beginning of any ring with its head. */
  lemma {:induction false} ChainBegins(c: seq<Node>, d: seq<Node>)
    requires Chain(c) && Ring(d) && c[0] == d[0]
    ensures |c| <= |d| && c == d[..|c|]
  {
    if |c| > 1 {
      var n := |c| - 1;
      assert Chain(c[..n]) by { ChainPrefix(c, n); }
      ChainBegins(c[..n], d);
      assert Linked(c[n - 1], c[Succ(|c|, n - 1)]);
      assert c[n - 1] == c[..n][n - 1] == d[n - 1];
      LinksOf(d, n - 1);
    }
  }

  lemma ChainPrefix(c: seq<Node>, n: nat)
    requires Chain(c) && 0 < n <= |c|
    ensures Chain(c[..n])
  {
    forall i | 0 <= i < n - 1
      ensures Linked(c[..n][i], c[..n][Succ(n, i)])
    {
      assert Linked(c[i], c[Succ(|c|, i)]);
    }
  }

  /** Counts the elements from the first one on, up to the head, and returns -1 at an element whose
      neighbours do not point back to it. It must not be that a ring through the first element
      misses the head. A count is that of a ring exactly when the first element points back to the
      head, which the source does not look at; and -1 means that there is no ring. */
  method Length(list: Node, ghost nodes: set<Node>) returns (length: int, ghost c: seq<Node>, ghost stop: Node)
    requires list in nodes && Closed(nodes)
    requires forall d: seq<Node> :: RingFrom(list.next, d) ==> list in d
    ensures |c| > 0 && c[0] == list && Passed(list, c[1..], stop)
    ensures if length >= 0 then length == |c| - 1 && stop == list else length == -1 && stop != list && !Sound(stop)
    ensures length >= 0 ==> (Ring(c) <==> list.next.prev == list)
    ensures length < 0 ==> forall d: seq<Node> :: !RingFrom(list, d)
  {
    hide Chain, Ring;
    var curr := list.next;
    length := 0;
    ghost var e: seq<Node> := [];
    while curr != list
      invariant 0 <= length == |e| && curr in nodes && forall n :: n in e ==> n in nodes
      invariant forall d: seq<Node> :: RingFrom(list.next, d) ==> list in d
      invariant Passed(list, e, curr)
      decreases |nodes| - |e|
    {
      if curr.next.prev != curr || curr.prev.next != curr {
        NoRing(list, e, curr);
        return -1, [list] + e, curr;
      }
      if e == [] {
        OneNode(curr);
        assert e + [curr] == [curr];
      } else {
        NotFirst(list, e, curr);
        ExtendChain(e, curr);
      }
      e := e + [curr];
      ChainFits(e, nodes);
      length := length + 1;
      curr := curr.next;
    }
    c, stop := [list] + e, curr;
    Counted(list, e);
  }

  /** A count of what is no ring: the first element's prev is another node than the head. */
  method CountsNoRing() returns (length: int, list: Node)
    ensures fresh(list) && length == 1 && forall d: seq<Node> :: !RingFrom(list, d)
  {
    list := new Node(0);
    var a := new Node(1);
    var x := new Node(2);
    list.next, list.prev := a, a;
    a.next, a.prev := list, x;
    x.next := a;
    forall d: seq<Node> | RingFrom(list.next, d)
      ensures list in d
    {
      LinksOf(d, 0);
      assert d[Succ(|d|, 0)] == list;
    }
    ghost var c, stop;
    length, c, stop := Length(list, {list, a, x});
    FirstPassed(list, c[1..], stop);
    forall d: seq<Node>
      ensures !RingFrom(list, d)
    {
      OneWay(list, d);
    }
  }

  lemma OneWay(list: Node, d: seq<Node>)
    requires list.next.prev != list
    ensures !RingFrom(list, d)
  {
    if RingFrom(list, d) {
      LinksOf(d, 0);
    }
  }

  /** A sound element between the head and the head is passed, and the walk stands at the head. */
  lemma FirstPassed(list: Node, e: seq<Node>, n: Node)
    requires Passed(list, e, n) && list.next != list && list.next.next == list && Sound(list.next)
    requires n == list || !Sound(n)
    ensures n == list && e == [list.next]
  {
    NotHomeYet(list, e, n);
  }

  lemma NotHomeYet(list: Node, e: seq<Node>, n: Node)
    requires Passed(list, e, n)
    ensures |e| > 1 ==> e[0].next != list
  {
    if |e| > 1 {
      assert Linked(e[0], e[Succ(|e|, 0)]);
    }
  }

  lemma OneNode(n: Node)
    ensures Chain([n])
  {}

  lemma ChainFits(c: seq<Node>, nodes: set<Node>)
    requires Chain(c) && forall i :: 0 <= i < |c| ==> c[i] in nodes
    ensures |c| <= |nodes|
  {
    DistinctFit(c, nodes);
  }

  lemma RingClosed(c: seq<Node>)
    requires Chain(c) && Linked(c[|c| - 1], c[0])
    ensures Ring(c)
  {}

  /** A chain that comes round to its first node is a ring. */
  lemma NotRound(e: seq<Node>, n: Node)
    requires Chain(e) && Linked(e[|e| - 1], n)
    ensures n == e[0] ==> RingFrom(n, e)
  {}

  /** The walk does not come back to the first element before the head. */
  lemma NotFirst(list: Node, e: seq<Node>, n: Node)
    requires Chain(e) && e[0] == list.next && Linked(e[|e| - 1], n) && list !in e
    requires forall d: seq<Node> :: RingFrom(list.next, d) ==> list in d
    ensures n != e[0]
  {
    NotRound(e, n);
  }

  /** The head followed by a chain from its next node back to it. */
  lemma Counted(list: Node, e: seq<Node>)
    requires list !in e && if e == [] then list.next == list else Chain(e) && e[0] == list.next && Linked(e[|e| - 1], list)
    ensures Ring([list] + e) <==> list.next.prev == list
  {
    var c := [list] + e;
    if list.next.prev == list {
      HeadChain(list, e);
      RingClosed(c);
    } else if Ring(c) {
      LinksOf(c, 0);
      assert false;
    }
  }

  lemma HeadChain(list: Node, e: seq<Node>)
    requires list !in e && (e == [] || (Chain(e) && e[0] == list.next)) && list.next.prev == list
    ensures Chain([list] + e)
  {
    var c := [list] + e;
    forall i | 0 <= i < |c| - 1
      ensures Linked(c[i], c[Succ(|c|, i)])
    {
      if i > 0 {
        assert Linked(e[i - 1], e[Succ(|e|, i - 1)]);
      }
    }
  }

  /** Where a link does not come back there is no ring. */
  lemma NoRing(list: Node, e: seq<Node>, n: Node)
    requires list !in e && n != list && (n.next.prev != n || n.prev.next != n)
    requires if e == [] then n == list.next else Chain(e) && e[0] == list.next && Linked(e[|e| - 1], n)
    ensures forall d: seq<Node> :: !RingFrom(list, d)
  {
    forall d: seq<Node>
      ensures !RingFrom(list, d)
    {
      if RingFrom(list, d) {
        var c := [list] + e;
        LinksOf(d, 0);
        assert list.next.prev == list;
        HeadChain(list, e);
        ChainBegins(c, d);
        LinksOf(d, |c| - 1);
        LinksOf(d, Succ(|d|, |c| - 1));
        assert false;
      }
    }
  }

  // When the walk returns

  /** The node k links further on. */
  ghost function Follow(nodes: set<Node>, n: Node, k: nat): (r: Node)
    requires Closed(nodes) && n in nodes
    reads nodes
    ensures r in nodes
  {
    if k == 0 then n else Follow(nodes, n, k - 1).next
  }

  /** The walk ends at its k-th node: at the head, or at a node whose neighbours do not point back. */
  ghost predicate Stops(nodes: set<Node>, list: Node, k: nat)
    requires Closed(nodes) && list in nodes
    reads nodes
  {
    var n := Follow(nodes, list.next, k);
    n == list || n.next.prev != n || n.prev.next != n
  }

  /** On a ring through the first element that misses the head the walk goes round for ever. */
  lemma {:induction false} GoesRound(nodes: set<Node>, list: Node, c: seq<Node>, k: nat) returns (i: nat)
    requires Closed(nodes) && list in nodes && RingFrom(list.next, c) && list !in c
    ensures i < |c| && Follow(nodes, list.next, k) == c[i] && !Stops(nodes, list, k)
  {
    hide Ring;
    RingSize(c);
    if k == 0 {
      i := 0;
    } else {
      var p := GoesRound(nodes, list, c, k - 1);
      OnRing(c, p);
      i := Succ(|c|, p);
    }
    OnRing(c, i);
  }

  /** Inserting the first element again makes such a ring. */
  method InsertAgain() returns (list: Node, e: Node)
    ensures fresh({list, e}) && Closed({list, e}) && forall k: nat :: !Stops({list, e}, list, k)
  {
    hide Stops;
    list := new Node(0);
    e := new Node(1);
    Insert(list, e, [list]);
    assert WithFirst([list], e) == [list, e];
    LinksOf([list, e], 0);
    LinksOf([list, e], 1);
    Insert(list, e, [list, e]);
    LinksOf([e], 0);
    forall k: nat
      ensures !Stops({list, e}, list, k)
    {
      var i := GoesRound({list, e}, list, [e], k);
    }
  }

  lemma RingSize(c: seq<Node>)
    requires Ring(c)
    ensures |c| > 0
  {}

  lemma OnRing(c: seq<Node>, i: nat)
    requires Ring(c) && i < |c|
    ensures c[i].next == c[Succ(|c|, i)] && c[i].next.prev == c[i] && c[i].prev.next == c[i]
  {
    var p := if i == 0 then |c| - 1 else i - 1;
    LinksOf(c, i);
    LinksOf(c, p);
    assert Linked(c[p], c[Succ(|c|, p)]);
  }

  /** A walk of k + 1 nodes that does not stop is a chain, unless it comes round without the head. */
  lemma {:induction false} KeepsGoing(nodes: set<Node>, list: Node, k: nat) returns (e: seq<Node>)
    requires Closed(nodes) && list in nodes && forall j: nat :: j <= k ==> !Stops(nodes, list, j)
    requires forall d: seq<Node> :: RingFrom(list.next, d) ==> list in d
    ensures |e| == k + 1 && Chain(e) && e[0] == list.next && e[k] == Follow(nodes, list.next, k)
    ensures list !in e && forall n :: n in e ==> n in nodes
  {
    hide Ring, Chain;
    assert !Stops(nodes, list, k);
    if k == 0 {
      e := [list.next];
      OneNode(list.next);
    } else {
      e := KeepsGoing(nodes, list, k - 1);
      assert !Stops(nodes, list, k - 1);
      var n := Follow(nodes, list.next, k);
      NotRound(e, n);
      ExtendChain(e, n);
      e := e + [n];
    }
  }

  /** The walk of SortedList_length returns if and only if no ring through the first element misses
      the head. */
  lemma ReturnsExactly(nodes: set<Node>, list: Node)
    requires Closed(nodes) && list in nodes
    ensures (exists k: nat :: Stops(nodes, list, k)) <==>
            (forall d: seq<Node> :: RingFrom(list.next, d) ==> list in d)
  {
    hide Ring, Chain, Stops, RingFrom;
    if forall d: seq<Node> :: RingFrom(list.next, d) ==> list in d {
      if forall k: nat :: !Stops(nodes, list, k) {
        var e := KeepsGoing(nodes, list, |nodes|);
        ChainFits(e, nodes);
        assert false;
      }
    } else {
      var d: seq<Node> :| RingFrom(list.next, d) && list !in d;
      forall k: nat
        ensures !Stops(nodes, list, k)
      {
        var _ := GoesRound(nodes, list, d, k);
      }
    }
  }

  /** It does when the first element points back to the head, as on every list that insertions and
      deletions have made. */
  lemma PointsBack(list: Node)
    requires list.next.prev == list
    ensures forall d: seq<Node> :: RingFrom(list.next, d) ==> list in d
  {
    forall d: seq<Node> | RingFrom(list.next, d)
      ensures list in d
    {
      LinksOf(d, |d| - 1);
      assert d[|d| - 1] == list;
    }
  }
}
