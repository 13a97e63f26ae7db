/** Worker threads that claim parts of the work and insert its elements into lists of their own,
    as steps that may interleave in any order. */
module WorkStealing {
  import opened Sequences

  datatype Node = Head(thread: nat) | Element(index: nat)

  /** Where a thread is: about to try a part, at the test of the loop over a part's elements, in
      the midst of inserting element i before curr, or done. */
  datatype Pc =
    | Claim
    | Fetch(i: nat)
    | SetPrev(i: nat, curr: Node)
    | SetNext(i: nat, curr: Node)
    | LinkBefore(i: nat, curr: Node)
    | LinkAfter(i: nat, curr: Node)
    | Joined

  /** A thread's part and program counter and, for the proof, the parts it has claimed and its list,
      head first. */
  datatype Thread = Thread(part: nat, pc: Pc, claimed: set<nat>, list: seq<Node>)

  datatype World = World(per: nat, locks: seq<bool>, next: map<Node, Node>, prev: map<Node, Node>, threads: seq<Thread>)

  /** What a link holds; one never written holds anything. */
  function Get(links: map<Node, Node>, n: Node): Node {
    if n in links then links[n] else n
  }

  /** At the start every list is empty and no part is claimed. */
  function Start(numThreads: nat, iterations: nat, numParts: nat): World
    requires numParts > 0
  {
    World((numThreads * iterations) / numParts, seq(numParts, _ => false),
          map t | 0 <= t < numThreads :: Head(t) := Head(t), map t | 0 <= t < numThreads :: Head(t) := Head(t),
          seq(numThreads, t requires 0 <= t < numThreads => Thread(0, Claim, {}, [Head(t)])))
  }

  /** One step of thread t. */
  function Step(w: World, t: nat): World
    requires t < |w.threads|
  {
    var th := w.threads[t];
    match th.pc
    case Claim =>
      if th.part >= |w.locks| then Moved(w, t, th.(pc := Joined))
      else if w.locks[th.part] then Moved(w, t, th.(part := th.part + 1))
      else Moved(w, t, th.(pc := Fetch(w.per * th.part), claimed := th.claimed + {th.part})).(locks := w.locks[th.part := true])
    case Fetch(i) =>
      if i < w.per * (th.part + 1) then Moved(w, t, th.(pc := SetPrev(i, Get(w.next, Head(t)))))
      else Moved(w, t, th.(pc := Claim, part := th.part + 1))
    case SetPrev(i, curr) =>
      Moved(w, t, th.(pc := SetNext(i, curr))).(prev := w.prev[Element(i) := Get(w.prev, curr)])
    case SetNext(i, curr) =>
      Moved(w, t, th.(pc := LinkBefore(i, curr))).(next := w.next[Element(i) := curr])
    case LinkBefore(i, curr) =>
      Moved(w, t, th.(pc := LinkAfter(i, curr))).(next := w.next[Get(w.prev, curr) := Element(i)])
    case LinkAfter(i, curr) =>
      Moved(w, t, th.(pc := Fetch(i + 1), list := if |th.list| > 0 then WithFirst(th.list, Element(i)) else []))
        .(prev := w.prev[curr := Element(i)])
    case Joined => w
  }

  function Moved(w: World, t: nat, th: Thread): World
    requires t < |w.threads|
  {
    w.(threads := w.threads[t := th])
  }

  // What every reachable world satisfies

  predicate Busy(pc: Pc) {
    !pc.Claim? && !pc.Joined?
  }

  ghost predicate Linked(w: World, a: Node, b: Node) {
    Get(w.next, a) == b && Get(w.prev, b) == a
  }

  ghost predicate Ring(w: World, c: seq<Node>) {
    && |c| > 0 && Distinct(c)
    && forall i :: 0 <= i < |c| ==> Linked(w, c[i], c[Succ(|c|, i)])
  }

  /** A thread's list is a ring; in the midst of an insertion the new element is linked as far as
      the program counter says. */
  ghost predicate ListOk(w: World, t: nat, th: Thread) {
    var c := th.list;
    && |c| > 0 && c[0] == Head(t) && Distinct(c)
    && (forall i :: 0 < i < |c| ==> Linked(w, c[i], c[Succ(|c|, i)]))
    && Get(w.prev, c[Succ(|c|, 0)]) == Head(t)
    && (if th.pc.LinkAfter? then Get(w.next, Head(t)) == Element(th.pc.i) else Get(w.next, Head(t)) == c[Succ(|c|, 0)])
    && (th.pc.SetPrev? || th.pc.SetNext? || th.pc.LinkBefore? || th.pc.LinkAfter? ==> th.pc.curr == c[Succ(|c|, 0)])
    && (th.pc.SetNext? || th.pc.LinkBefore? || th.pc.LinkAfter? ==> Get(w.prev, Element(th.pc.i)) == Head(t))
    && (th.pc.LinkBefore? || th.pc.LinkAfter? ==> Get(w.next, Element(th.pc.i)) == th.pc.curr)
  }

  /** Element e belongs to part p. */
  predicate InPart(per: nat, e: nat, p: nat) {
    per * p <= e < per * (p + 1)
  }

  /** The thread has inserted element e of part p. */
  predicate Inserted(per: nat, th: Thread, e: nat, p: nat) {
    p in th.claimed && InPart(per, e, p) && (Busy(th.pc) && p == th.part ==> e < th.pc.i)
  }

  /** The thread's list holds just the elements it has inserted. */
  ghost predicate ContentsOk(per: nat, t: nat, th: Thread) {
    && (forall n :: n in th.list ==> n == Head(t) || (n.Element? && exists p :: Inserted(per, th, n.index, p)))
    && (forall e: nat, p: nat :: Inserted(per, th, e, p) ==> Element(e) in th.list)
  }

  /** Where the thread is in its work, and what that says about the locks. */
  ghost predicate PlaceOk(per: nat, locks: seq<bool>, th: Thread) {
    && th.part <= |locks|
    && (forall p :: 0 <= p < th.part ==> locks[p])
    && (forall p :: p in th.claimed ==> p < |locks| && locks[p])
    && (th.pc.Joined? ==> th.part == |locks|)
    && (Busy(th.pc) ==> th.part in th.claimed && per * th.part <= th.pc.i <= per * (th.part + 1))
    && (th.pc.SetPrev? || th.pc.SetNext? || th.pc.LinkBefore? || th.pc.LinkAfter? ==> th.pc.i < per * (th.part + 1))
  }

  /** How many elements the list must hold. */
  ghost predicate SizeOk(per: nat, th: Thread) {
    |th.list| - 1 == per * |th.claimed| - if Busy(th.pc) then per * (th.part + 1) - th.pc.i else 0
  }

  ghost predicate ThreadOk(w: World, t: nat)
    requires t < |w.threads|
  {
    var th := w.threads[t];
    ListOk(w, t, th) && ContentsOk(w.per, t, th) && PlaceOk(w.per, w.locks, th) && SizeOk(w.per, th)
  }

  /** No part is claimed twice. */
  ghost predicate ClaimsDisjoint(w: World) {
    forall t, u :: 0 <= t < u < |w.threads| ==> w.threads[t].claimed !! w.threads[u].claimed
  }

  function SetLocks(locks: seq<bool>): nat {
    if locks == [] then 0 else SetLocks(locks[..|locks| - 1]) + if locks[|locks| - 1] then 1 else 0
  }

  function Claims(threads: seq<Thread>): nat {
    if threads == [] then 0 else Claims(threads[..|threads| - 1]) + |threads[|threads| - 1].claimed|
  }

  /** Every lock that is set was set by a thread that holds the part. */
  ghost predicate LocksHeld(w: World) {
    forall p :: 0 <= p < |w.locks| && w.locks[p] ==> exists t :: 0 <= t < |w.threads| && p in w.threads[t].claimed
  }

  ghost predicate Inv(w: World) {
    && (forall t :: 0 <= t < |w.threads| ==> ThreadOk(w, t))
    && ClaimsDisjoint(w) && LocksHeld(w) && Claims(w.threads) == SetLocks(w.locks)
  }

  // Which nodes a thread may touch

  /** The thread's own list head and the elements of the parts it has claimed. */
  ghost predicate Owned(per: nat, t: nat, th: Thread, n: Node) {
    n == Head(t) || (n.Element? && exists p :: p in th.claimed && InPart(per, n.index, p))
  }

  lemma Times(per: nat, a: nat, b: nat)
    requires a <= b
    ensures per * a <= per * b
  {}

  lemma TimesNext(per: nat, a: nat)
    ensures per * (a + 1) == per * a + per
  {}

  lemma PartUnique(per: nat, e: nat, p: nat, q: nat)
    requires InPart(per, e, p) && InPart(per, e, q)
    ensures p == q
  {
    if p < q {
      Times(per, p + 1, q);
    } else if q < p {
      Times(per, q + 1, p);
    }
  }

  ghost predicate SameLinks(w: World, w': World, n: Node) {
    Get(w'.next, n) == Get(w.next, n) && Get(w'.prev, n) == Get(w.prev, n)
  }

  /** A thread's records do not depend on nodes it does not own. */
  lemma ListFrame(w: World, w': World, t: nat, th: Thread)
    requires ListOk(w, t, th) && ContentsOk(w.per, t, th) && PlaceOk(w.per, w.locks, th)
    requires forall n :: Owned(w.per, t, th, n) ==> SameLinks(w, w', n)
    ensures ListOk(w', t, th)
  {
    var c := th.list;
    forall i | 0 <= i < |c|
      ensures SameLinks(w, w', c[i])
    {
      assert c[i] in c;
      assert Owned(w.per, t, th, c[i]);
    }
    if Busy(th.pc) && !th.pc.Fetch? {
      assert InPart(w.per, th.pc.i, th.part);
      assert Owned(w.per, t, th, Element(th.pc.i));
    }
    forall i | 0 < i < |c|
      ensures Linked(w', c[i], c[Succ(|c|, i)])
    {
      assert Linked(w, c[i], c[Succ(|c|, i)]);
    }
  }

  lemma OwnedApart(w: World, t: nat, u: nat, n: Node)
    requires t < |w.threads| && u < |w.threads| && t != u && ClaimsDisjoint(w)
    requires Owned(w.per, t, w.threads[t], n)
    ensures !Owned(w.per, u, w.threads[u], n)
  {
    if n.Element? && Owned(w.per, u, w.threads[u], n) {
      var p :| p in w.threads[t].claimed && InPart(w.per, n.index, p);
      var q :| q in w.threads[u].claimed && InPart(w.per, n.index, q);
      PartUnique(w.per, n.index, p, q);
      Apart(w, t, u, p);
      assert false;
    }
  }

  lemma Apart(w: World, t: nat, u: nat, p: nat)
    requires t < |w.threads| && u < |w.threads| && t != u && ClaimsDisjoint(w) && p in w.threads[t].claimed
    ensures p !in w.threads[u].claimed
  {
    if t < u {
      assert w.threads[t].claimed !! w.threads[u].claimed;
    } else {
      assert w.threads[u].claimed !! w.threads[t].claimed;
    }
  }

  // Steps by kind

  /** A thread that takes a part, passes one by, or is done with all. */
  lemma ClaimKeeps(w: World, t: nat)
    requires Inv(w) && t < |w.threads| && w.threads[t].pc.Claim?
    ensures ThreadOk(Step(w, t), t)
  {
    hide ContentsOk, SizeOk, Inserted, ListOk, ClaimsDisjoint, LocksHeld, Claims, SetLocks;
    var th, w' := w.threads[t], Step(w, t);
    var th' := w'.threads[t];
    assert ThreadOk(w, t);
    ListIdle(w, w', t, th, th');
    TimesNext(w.per, th.part);
    if th.part < |w.locks| && !w.locks[th.part] {
      assert th.part !in th.claimed;
      ContentsClaimed(w.per, t, th, th');
      SizeClaimed(w.per, th, th');
    } else {
      assert forall e, p :: Inserted(w.per, th', e, p) <==> Inserted(w.per, th, e, p) by { InsertedIdle(w.per, th, th'); }
      ContentsSame(w.per, t, th, th');
      SizeSame(w.per, th, th');
    }
  }

  ghost predicate Between(pc: Pc) {
    pc.Claim? || pc.Fetch? || pc.Joined?
  }

  lemma ListIdle(w: World, w': World, t: nat, th: Thread, th': Thread)
    requires ListOk(w, t, th) && w'.next == w.next && w'.prev == w.prev
    requires th'.list == th.list && Between(th.pc) && Between(th'.pc)
    ensures ListOk(w', t, th')
  {}

  lemma InsertedIdle(per: nat, th: Thread, th': Thread)
    requires th'.claimed == th.claimed && !Busy(th.pc) && !Busy(th'.pc)
    ensures forall e, p :: Inserted(per, th', e, p) <==> Inserted(per, th, e, p)
  {}

  lemma ContentsSame(per: nat, t: nat, th: Thread, th': Thread)
    requires ContentsOk(per, t, th) && th'.list == th.list
    requires forall e, p :: Inserted(per, th', e, p) <==> Inserted(per, th, e, p)
    ensures ContentsOk(per, t, th')
  {
    hide Inserted;
  }

  lemma ContentsClaimed(per: nat, t: nat, th: Thread, th': Thread)
    requires ContentsOk(per, t, th) && th.pc.Claim? && th.part !in th.claimed
    requires th' == th.(pc := Fetch(per * th.part), claimed := th.claimed + {th.part})
    ensures ContentsOk(per, t, th')
  {
    forall e: nat, p: nat
      ensures Inserted(per, th', e, p) <==> Inserted(per, th, e, p)
    {}
    ContentsSame(per, t, th, th');
  }

  lemma SizeClaimed(per: nat, th: Thread, th': Thread)
    requires SizeOk(per, th) && th.pc.Claim? && th.part !in th.claimed
    requires th' == th.(pc := Fetch(per * th.part), claimed := th.claimed + {th.part})
    ensures SizeOk(per, th')
  {
    TimesNext(per, |th.claimed|);
    TimesNext(per, th.part);
    assert |th.claimed + {th.part}| == |th.claimed| + 1;
  }

  lemma SizeSame(per: nat, th: Thread, th': Thread)
    requires SizeOk(per, th) && |th'.list| == |th.list| && th'.claimed == th.claimed
    requires Busy(th'.pc) == Busy(th.pc) && (Busy(th.pc) ==> th'.pc.i == th.pc.i && th'.part == th.part)
    ensures SizeOk(per, th')
  {}

  /** A thread that goes on to the next element of its part, or has none left. */
  lemma FetchKeeps(w: World, t: nat)
    requires t < |w.threads| && ThreadOk(w, t) && w.threads[t].pc.Fetch?
    ensures ThreadOk(Step(w, t), t)
  {
    hide ContentsOk, SizeOk, Inserted;
    var th, w' := w.threads[t], Step(w, t);
    var th' := w'.threads[t];
    if th.pc.i < w.per * (th.part + 1) {
      InsertedSame(w.per, th, th');
      ContentsSame(w.per, t, th, th');
      SizeSame(w.per, th, th');
    } else {
      InsertedAll(w.per, th, th');
      ContentsSame(w.per, t, th, th');
      SizeAll(w.per, th, th');
    }
  }

  lemma InsertedSame(per: nat, th: Thread, th': Thread)
    requires th'.claimed == th.claimed && th'.part == th.part && Busy(th.pc) && Busy(th'.pc) && th'.pc.i == th.pc.i
    ensures forall e, p :: Inserted(per, th', e, p) <==> Inserted(per, th, e, p)
  {}

  lemma InsertedAll(per: nat, th: Thread, th': Thread)
    requires th'.claimed == th.claimed && Busy(th.pc) && th.pc.i >= per * (th.part + 1) && !Busy(th'.pc)
    ensures forall e, p :: Inserted(per, th', e, p) <==> Inserted(per, th, e, p)
  {}

  lemma SizeAll(per: nat, th: Thread, th': Thread)
    requires SizeOk(per, th) && th'.list == th.list && th'.claimed == th.claimed
    requires Busy(th.pc) && th.pc.i == per * (th.part + 1) && !Busy(th'.pc)
    ensures SizeOk(per, th')
  {}

  /** The element being inserted is not on the list yet. */
  lemma NotYet(per: nat, locks: seq<bool>, t: nat, th: Thread)
    requires ContentsOk(per, t, th) && PlaceOk(per, locks, th) && Busy(th.pc) && th.pc.i < per * (th.part + 1)
    ensures Element(th.pc.i) !in th.list
  {
    if Element(th.pc.i) in th.list {
      var p :| Inserted(per, th, th.pc.i, p);
      PartUnique(per, th.pc.i, p, th.part);
      assert false;
    }
  }

  ghost predicate Inside(pc: Pc) {
    pc.SetPrev? || pc.SetNext? || pc.LinkBefore?
  }

  /** The first three writes of an insertion. */
  lemma InsideKeeps(w: World, t: nat)
    requires t < |w.threads| && ThreadOk(w, t) && Inside(w.threads[t].pc)
    ensures ThreadOk(Step(w, t), t)
  {
    hide ContentsOk, SizeOk, Inserted, ListOk;
    var th, w' := w.threads[t], Step(w, t);
    var th' := w'.threads[t];
    InsertedSame(w.per, th, th');
    ContentsSame(w.per, t, th, th');
    SizeSame(w.per, th, th');
    NotYet(w.per, w.locks, t, th);
    InsideList(w, t, th);
  }

  lemma InsideList(w: World, t: nat, th: Thread)
    requires t < |w.threads| && th == w.threads[t] && ListOk(w, t, th) && Inside(th.pc) && Element(th.pc.i) !in th.list
    ensures ListOk(Step(w, t), t, Step(w, t).threads[t])
  {
    var c, w' := th.list, Step(w, t);
    var th' := w'.threads[t];
    forall i | 0 < i < |c|
      ensures Linked(w', c[i], c[Succ(|c|, i)])
    {
      assert Linked(w, c[i], c[Succ(|c|, i)]);
      assert c[0] != c[i] && c[Succ(|c|, i)] in c;
    }
  }

  /** The last write, after which the list is a ring again. */
  lemma LastKeeps(w: World, t: nat)
    requires t < |w.threads| && ThreadOk(w, t) && w.threads[t].pc.LinkAfter?
    ensures ThreadOk(Step(w, t), t)
  {
    hide ContentsOk, SizeOk, Inserted, ListOk, WithFirst;
    var th, w' := w.threads[t], Step(w, t);
    var th' := w'.threads[t];
    NotYet(w.per, w.locks, t, th);
    LastList(w, t, th);
    ContentsLast(w.per, w.locks, t, th, th');
    SizeLast(w.per, th, th');
  }

  lemma LastList(w: World, t: nat, th: Thread)
    requires t < |w.threads| && th == w.threads[t] && ListOk(w, t, th) && th.pc.LinkAfter? && Element(th.pc.i) !in th.list
    ensures ListOk(Step(w, t), t, Step(w, t).threads[t]) && |th.list| > 0 && th.list[0] == Head(t)
  {
    hide WithFirst;
    var c, e, w' := th.list, Element(th.pc.i), Step(w, t);
    var d := WithFirst(c, e);
    forall i | 0 < i < |d|
      ensures Linked(w', d[i], d[Succ(|d|, i)])
    {
      if i > 1 {
        assert Linked(w, c[i - 1], c[Succ(|c|, i - 1)]);
        assert c[Succ(|c|, i - 1)] != th.pc.curr || |c| == 1;
      }
    }
  }

  lemma ContentsLast(per: nat, locks: seq<bool>, t: nat, th: Thread, th': Thread)
    requires ContentsOk(per, t, th) && PlaceOk(per, locks, th) && th.pc.LinkAfter? && |th.list| > 0 && th.list[0] == Head(t)
    requires th' == th.(pc := Fetch(th.pc.i + 1), list := WithFirst(th.list, Element(th.pc.i)))
    ensures ContentsOk(per, t, th')
  {
    var e := th.pc.i;
    assert th'.list[1] == Element(e);
    assert forall n :: n in th.list ==> n in th'.list by {
      forall i | 0 <= i < |th.list|
        ensures th.list[i] in th'.list
      {
        assert th.list[i] == th'.list[if i == 0 then 0 else i + 1];
      }
    }
    assert Inserted(per, th', e, th.part);
    forall f: nat, p: nat
      ensures Inserted(per, th', f, p) <==> Inserted(per, th, f, p) || (f == e && p == th.part)
    {}
  }

  lemma SizeLast(per: nat, th: Thread, th': Thread)
    requires SizeOk(per, th) && th.pc.LinkAfter? && |th.list| > 0
    requires th' == th.(pc := Fetch(th.pc.i + 1), list := WithFirst(th.list, Element(th.pc.i)))
    ensures SizeOk(per, th')
  {}

  // All threads together

  /** A step changes the links of nodes its thread owns only. */
  lemma WritesOwned(w: World, t: nat, n: Node)
    requires t < |w.threads| && ThreadOk(w, t) && !Owned(w.per, t, w.threads[t], n)
    ensures SameLinks(w, Step(w, t), n)
  {
    hide ContentsOk, SizeOk, ListOk, Step;
    var th := w.threads[t];
    if Inside(th.pc) || th.pc.LinkAfter? {
      assert InPart(w.per, th.pc.i, th.part);
      CurrOwned(w, t, th);
    }
    WritesFour(w, t, n);
  }

  /** The four writes of an insertion are to the new element, the list's head and its first element. */
  lemma WritesFour(w: World, t: nat, n: Node)
    requires t < |w.threads| && n != Head(t)
    requires var pc := w.threads[t].pc;
             Inside(pc) || pc.LinkAfter? ==> n != Element(pc.i) && n != pc.curr && Get(w.prev, pc.curr) == Head(t)
    ensures SameLinks(w, Step(w, t), n)
  {
    hide WithFirst;
  }

  lemma CurrOwned(w: World, t: nat, th: Thread)
    requires ListOk(w, t, th) && ContentsOk(w.per, t, th) && (Inside(th.pc) || th.pc.LinkAfter?)
    ensures Owned(w.per, t, th, th.pc.curr) && Get(w.prev, th.pc.curr) == Head(t)
  {
    hide Linked, Distinct;
    assert th.pc.curr in th.list;
  }

  lemma OthersKeep(w: World, t: nat, u: nat)
    requires Inv(w) && t < |w.threads| && u < |w.threads| && t != u
    ensures ThreadOk(Step(w, t), u)
  {
    hide ListOk, ContentsOk, SizeOk, Owned, ClaimsDisjoint, LocksHeld, Claims, SetLocks, SameLinks, Step;
    var w' := Step(w, t);
    assert ThreadOk(w, t) && ThreadOk(w, u);
    StepFrame(w, t);
    forall n | Owned(w.per, u, w.threads[u], n)
      ensures SameLinks(w, w', n)
    {
      OwnedApart(w, u, t, n);
      WritesOwned(w, t, n);
    }
    ListFrame(w, w', u, w.threads[u]);
  }

  /** What a step leaves alone. */
  lemma StepFrame(w: World, t: nat)
    requires t < |w.threads|
    ensures var w' := Step(w, t);
            && |w'.threads| == |w.threads| && w'.per == w.per && |w'.locks| == |w.locks|
            && (forall u :: 0 <= u < |w.threads| && u != t ==> w'.threads[u] == w.threads[u])
            && (forall p :: 0 <= p < |w.locks| && w.locks[p] ==> w'.locks[p])
            && w.threads[t].claimed <= w'.threads[t].claimed
  {
    hide Get, WithFirst;
  }

  lemma {:induction false} CountLock(locks: seq<bool>, p: nat)
    requires p < |locks| && !locks[p]
    ensures SetLocks(locks[p := true]) == SetLocks(locks) + 1
  {
    var n := |locks| - 1;
    if p == n {
      assert locks[p := true][..n] == locks[..n];
    } else {
      CountLock(locks[..n], p);
      assert locks[p := true][..n] == locks[..n][p := true];
    }
  }

  lemma {:induction false} CountClaim(threads: seq<Thread>, t: nat, th: Thread)
    requires t < |threads|
    ensures Claims(threads[t := th]) == Claims(threads) + |th.claimed| - |threads[t].claimed|
  {
    var n := |threads| - 1;
    if t == n {
      assert threads[t := th][..n] == threads[..n];
    } else {
      CountClaim(threads[..n], t, th);
      assert threads[t := th][..n] == threads[..n][t := th];
    }
  }

  lemma ClaimsKeep(w: World, t: nat)
    requires Inv(w) && t < |w.threads|
    ensures var w' := Step(w, t); ClaimsDisjoint(w') && LocksHeld(w') && Claims(w'.threads) == SetLocks(w'.locks)
  {
    hide ListOk, ContentsOk, SizeOk, Claims, SetLocks, Get, WithFirst, LocksHeld, ClaimsDisjoint;
    var th, w' := w.threads[t], Step(w, t);
    var th' := w'.threads[t];
    assert ThreadOk(w, t);
    StepFrame(w, t);
    if th.pc.Claim? && th.part < |w.locks| && !w.locks[th.part] {
      assert th.part !in th.claimed;
      CountLock(w.locks, th.part);
      CountClaim(w.threads, t, th');
      assert |th.claimed + {th.part}| == |th.claimed| + 1;
      NewClaim(w, t);
    } else {
      SameClaims(w, t);
    }
  }

  lemma NewClaim(w: World, t: nat)
    requires Inv(w) && t < |w.threads| && w.threads[t].pc.Claim?
    requires w.threads[t].part < |w.locks| && !w.locks[w.threads[t].part]
    ensures ClaimsDisjoint(Step(w, t)) && LocksHeld(Step(w, t))
  {
    hide ListOk, ContentsOk, SizeOk, Claims, SetLocks;
    var w', part := Step(w, t), w.threads[t].part;
    forall u | 0 <= u < |w.threads|
      ensures part !in w.threads[u].claimed
    {
      assert ThreadOk(w, u);
    }
    forall p | 0 <= p < |w'.locks| && w'.locks[p]
      ensures exists u :: 0 <= u < |w'.threads| && p in w'.threads[u].claimed
    {
      if p == part {
        assert p in w'.threads[t].claimed;
      } else {
        var u :| 0 <= u < |w.threads| && p in w.threads[u].claimed;
        assert p in w'.threads[u].claimed;
      }
    }
  }

  lemma SameClaims(w: World, t: nat)
    requires Inv(w) && t < |w.threads|
    requires Step(w, t).locks == w.locks && Step(w, t).threads[t].claimed == w.threads[t].claimed
    ensures var w' := Step(w, t); ClaimsDisjoint(w') && LocksHeld(w') && Claims(w'.threads) == SetLocks(w'.locks)
  {
    hide ThreadOk, Claims, SetLocks, Step;
    var w' := Step(w, t);
    StepFrame(w, t);
    assert w'.threads == w.threads[t := w'.threads[t]];
    CountClaim(w.threads, t, w'.threads[t]);
    forall p | 0 <= p < |w'.locks| && w'.locks[p]
      ensures exists u :: 0 <= u < |w'.threads| && p in w'.threads[u].claimed
    {
      var u :| 0 <= u < |w.threads| && p in w.threads[u].claimed;
      assert p in w'.threads[u].claimed;
    }
  }

  /** Whatever thread moves next, its step keeps the invariant. */
  lemma StepKeeps(w: World, t: nat)
    requires Inv(w) && t < |w.threads|
    ensures Inv(Step(w, t)) && |Step(w, t).threads| == |w.threads|
  {
    hide ThreadOk, ClaimsDisjoint, LocksHeld, Claims, SetLocks, Step;
    StepFrame(w, t);
    ClaimsKeep(w, t);
    forall u | 0 <= u < |w.threads|
      ensures ThreadOk(Step(w, t), u)
    {
      if u != t {
        OthersKeep(w, t, u);
      } else {
        OwnStepKeeps(w, t);
      }
    }
  }

  lemma OwnStepKeeps(w: World, t: nat)
    requires Inv(w) && t < |w.threads|
    ensures ThreadOk(Step(w, t), t)
  {
    hide ListOk, ContentsOk, SizeOk, PlaceOk, ClaimsDisjoint, LocksHeld, Claims, SetLocks;
    assert ThreadOk(w, t);
    match w.threads[t].pc
    case Claim => ClaimKeeps(w, t);
    case Fetch(_) => FetchKeeps(w, t);
    case SetPrev(_, _) => InsideKeeps(w, t);
    case SetNext(_, _) => InsideKeeps(w, t);
    case LinkBefore(_, _) => InsideKeeps(w, t);
    case LinkAfter(_, _) => LastKeeps(w, t);
    case Joined =>
  }

  // Runs

  /** The world after the threads have moved in the given order. */
  function Run(w: World, schedule: seq<nat>): World {
    if schedule == [] then w
    else
      var w1 := Run(w, schedule[..|schedule| - 1]);
      var t := schedule[|schedule| - 1];
      if t < |w1.threads| then Step(w1, t) else w1
  }

  lemma StartInv(numThreads: nat, iterations: nat, numParts: nat)
    requires numParts > 0
    ensures Inv(Start(numThreads, iterations, numParts))
  {
    var w := Start(numThreads, iterations, numParts);
    forall t | 0 <= t < |w.threads|
      ensures ThreadOk(w, t)
    {
      assert w.per * 0 == 0;
    }
    NoLocks(w.locks);
    NoClaims(w.threads);
  }

  lemma {:induction false} NoLocks(locks: seq<bool>)
    requires forall p :: 0 <= p < |locks| ==> !locks[p]
    ensures SetLocks(locks) == 0
  {
    if |locks| > 0 {
      NoLocks(locks[..|locks| - 1]);
    }
  }

  lemma {:induction false} NoClaims(threads: seq<Thread>)
    requires forall t :: 0 <= t < |threads| ==> threads[t].claimed == {}
    ensures Claims(threads) == 0
  {
    if |threads| > 0 {
      NoClaims(threads[..|threads| - 1]);
    }
  }

  /** Every world reached in any order of steps satisfies the invariant. */
  lemma {:induction false} RunKeeps(w: World, schedule: seq<nat>)
    requires Inv(w)
    ensures Inv(Run(w, schedule)) && |Run(w, schedule).threads| == |w.threads|
    ensures Run(w, schedule).per == w.per && |Run(w, schedule).locks| == |w.locks|
  {
    hide Inv, Step;
    if schedule != [] {
      var n := |schedule| - 1;
      RunKeeps(w, schedule[..n]);
      var w1 := Run(w, schedule[..n]);
      if schedule[n] < |w1.threads| {
        StepKeeps(w1, schedule[n]);
        StepFrame(w1, schedule[n]);
      }
    }
  }

  // When all have joined

  ghost predicate AllJoined(w: World) {
    forall t :: 0 <= t < |w.threads| ==> w.threads[t].pc.Joined?
  }

  /** The walk that counts a list, with a bound on its steps. */
  function LengthFrom(w: World, head: Node, curr: Node, length: nat, fuel: nat): int
    decreases fuel
  {
    if curr == head then length
    else if fuel == 0 || Get(w.prev, Get(w.next, curr)) != curr || Get(w.next, Get(w.prev, curr)) != curr then -1
    else LengthFrom(w, head, Get(w.next, curr), length + 1, fuel - 1)
  }

  /** The length counted for thread t's list. */
  function Length(w: World, t: nat): int {
    LengthFrom(w, Head(t), Get(w.next, Head(t)), 0, w.per * |w.locks|)
  }

  function Total(w: World, n: nat): int {
    if n == 0 then 0 else Total(w, n - 1) + Length(w, n - 1)
  }

  lemma {:induction false} RingLength(w: World, c: seq<Node>, k: nat, fuel: nat)
    requires Ring(w, c) && 1 <= k <= |c| && fuel >= |c| - k
    ensures LengthFrom(w, c[0], c[Succ(|c|, k - 1)], k - 1, fuel) == |c| - 1
    decreases |c| - k
  {
    if k < |c| {
      assert Linked(w, c[k - 1], c[Succ(|c|, k - 1)]) && Linked(w, c[k], c[Succ(|c|, k)]);
      assert c[0] != c[k];
      RingLength(w, c, k + 1, fuel - 1);
    }
  }

  lemma {:induction false} LocksBound(locks: seq<bool>)
    ensures SetLocks(locks) <= |locks|
    ensures (forall p :: 0 <= p < |locks| ==> locks[p]) ==> SetLocks(locks) == |locks|
  {
    if |locks| > 0 {
      LocksBound(locks[..|locks| - 1]);
    }
  }

  lemma {:induction false} ClaimsAtLeast(threads: seq<Thread>, t: nat)
    requires t < |threads|
    ensures |threads[t].claimed| <= Claims(threads)
    decreases |threads|
  {
    if t < |threads| - 1 {
      ClaimsAtLeast(threads[..|threads| - 1], t);
    }
  }

  /** A thread that is done has a ring, whose counted length is what its parts hold. */
  lemma JoinedList(w: World, t: nat)
    requires Inv(w) && t < |w.threads| && w.threads[t].pc.Joined?
    ensures Ring(w, w.threads[t].list) && w.threads[t].list[0] == Head(t)
    ensures Length(w, t) == w.per * |w.threads[t].claimed| == |w.threads[t].list| - 1
    ensures forall p :: 0 <= p < |w.locks| ==> w.locks[p]
  {
    hide Claims, SetLocks, ClaimsDisjoint, LocksHeld, ContentsOk, LengthFrom;
    var th := w.threads[t];
    assert ThreadOk(w, t);
    ClaimsAtLeast(w.threads, t);
    LocksBound(w.locks);
    Times(w.per, |th.claimed|, |w.locks|);
    assert Linked(w, th.list[0], th.list[Succ(|th.list|, 0)]) by { HeadLinked(w, t, th); }
    RingLength(w, th.list, 1, w.per * |w.locks|);
  }

  lemma HeadLinked(w: World, t: nat, th: Thread)
    requires ListOk(w, t, th) && th.pc.Joined?
    ensures |th.list| > 0 && Linked(w, th.list[0], th.list[Succ(|th.list|, 0)])
  {}

  lemma {:induction false} TotalClaims(w: World, n: nat)
    requires Inv(w) && AllJoined(w) && n <= |w.threads|
    ensures Total(w, n) == w.per * Claims(w.threads[..n])
  {
    hide Inv, Length;
    if n > 0 {
      TotalClaims(w, n - 1);
      JoinedList(w, n - 1);
      assert w.threads[..n][..n - 1] == w.threads[..n - 1];
      Distributes(w.per, Claims(w.threads[..n - 1]), |w.threads[n - 1].claimed|);
    }
  }

  lemma Distributes(per: nat, a: nat, b: nat)
    ensures per * (a + b) == per * a + per * b
  {}

  /** Thread t is the one that claimed part p. */
  ghost predicate OnlyClaim(w: World, t: nat, p: nat) {
    && t < |w.threads| && p in w.threads[t].claimed
    && forall u :: 0 <= u < |w.threads| && u != t ==> p !in w.threads[u].claimed
  }

  ghost predicate ClaimedOnce(w: World, p: nat) {
    exists t: nat :: OnlyClaim(w, t, p)
  }

  lemma PartClaimed(w: World, p: nat)
    requires Inv(w) && |w.threads| > 0 && AllJoined(w) && p < |w.locks|
    ensures ClaimedOnce(w, p)
  {
    hide ThreadOk, Claims, SetLocks, ClaimsDisjoint;
    JoinedList(w, 0);
    assert w.locks[p];
    var t :| 0 <= t < |w.threads| && p in w.threads[t].claimed;
    forall u | 0 <= u < |w.threads| && u != t
      ensures p !in w.threads[u].claimed
    {
      Apart(w, t, u, p);
    }
    assert OnlyClaim(w, t, p);
  }

  /** Element e is on thread t's list, once, and on no other. */
  ghost predicate OnlyOn(w: World, t: nat, e: nat) {
    && t < |w.threads| && Distinct(w.threads[t].list) && Element(e) in w.threads[t].list
    && forall u :: 0 <= u < |w.threads| && u != t ==> Element(e) !in w.threads[u].list
  }

  ghost predicate OnOneList(w: World, e: nat) {
    exists t: nat :: OnlyOn(w, t, e)
  }

  /** Thread t's list is a ring and every element on it belongs to some part. */
  ghost predicate ListDone(w: World, t: nat)
    requires t < |w.threads|
  {
    && Ring(w, w.threads[t].list) && w.threads[t].list[0] == Head(t)
    && forall e: nat :: Element(e) in w.threads[t].list ==> e < w.per * |w.locks|
  }

  lemma OnList(w: World, t: nat, e: nat, p: nat)
    requires Inv(w) && t < |w.threads| && w.threads[t].pc.Joined? && InPart(w.per, e, p)
    ensures Element(e) in w.threads[t].list <==> p in w.threads[t].claimed
    ensures Distinct(w.threads[t].list)
  {
    hide Claims, SetLocks, ClaimsDisjoint, LocksHeld, SizeOk;
    var th := w.threads[t];
    assert ThreadOk(w, t);
    if Element(e) in th.list {
      var q :| Inserted(w.per, th, e, q);
      PartUnique(w.per, e, p, q);
    }
    if p in th.claimed {
      assert Inserted(w.per, th, e, p);
    }
  }

  lemma PartOf(per: nat, parts: nat, e: nat) returns (p: nat)
    requires e < per * parts
    ensures p < parts && InPart(per, e, p)
  {
    p := e / per;
    TimesNext(per, p);
    if p >= parts {
      Times(per, parts, p);
      assert false;
    }
  }

  /** After all threads have joined, in whatever order they ran, each part has been claimed by
      exactly one thread; each element of the parts is on exactly one list, once, and no other
      element is on any; all lists are rings; and the counted lengths add up to all elements. */
  lemma AllShared(numThreads: nat, iterations: nat, numParts: nat, schedule: seq<nat>)
    requires numParts > 0 && numThreads > 0 && AllJoined(Run(Start(numThreads, iterations, numParts), schedule))
    ensures var w := Run(Start(numThreads, iterations, numParts), schedule);
            var per := (numThreads * iterations) / numParts;
            && |w.threads| == numThreads && w.per == per && |w.locks| == numParts
            && (forall p: nat :: p < numParts ==> ClaimedOnce(w, p))
            && (forall e: nat :: e < per * numParts ==> OnOneList(w, e))
            && (forall t: nat :: t < numThreads ==> ListDone(w, t))
            && Total(w, numThreads) == per * numParts
  {
    hide Inv, Run, Ring, Step;
    var w0 := Start(numThreads, iterations, numParts);
    var w := Run(w0, schedule);
    StartInv(numThreads, iterations, numParts);
    RunKeeps(w0, schedule);
    forall p: nat | p < numParts
      ensures ClaimedOnce(w, p)
    {
      PartClaimed(w, p);
    }
    forall e: nat | e < w.per * numParts
      ensures OnOneList(w, e)
    {
      ElementOnce(w, e);
    }
    forall t: nat | t < numThreads
      ensures ListDone(w, t)
    {
      JoinedList(w, t);
      forall e: nat | Element(e) in w.threads[t].list
        ensures e < w.per * numParts
      {
        OnlyElements(w, t, e);
      }
    }
    TotalClaims(w, numThreads);
    assert w.threads[..numThreads] == w.threads;
    JoinedList(w, 0);
    LocksBound(w.locks);
    ClaimsAreLocks(w);
  }

  lemma ClaimsAreLocks(w: World)
    requires Inv(w)
    ensures Claims(w.threads) == SetLocks(w.locks)
  {}

  lemma ElementOnce(w: World, e: nat)
    requires Inv(w) && |w.threads| > 0 && AllJoined(w) && e < w.per * |w.locks|
    ensures OnOneList(w, e)
  {
    hide Inv, InPart, Distinct;
    var p := PartOf(w.per, |w.locks|, e);
    PartClaimed(w, p);
    var t: nat :| OnlyClaim(w, t, p);
    forall u | 0 <= u < |w.threads|
      ensures Element(e) in w.threads[u].list <==> u == t
      ensures Distinct(w.threads[u].list)
    {
      OnList(w, u, e, p);
    }
    assert OnlyOn(w, t, e);
  }

  lemma OnlyElements(w: World, t: nat, e: nat)
    requires Inv(w) && t < |w.threads| && Element(e) in w.threads[t].list
    ensures e < w.per * |w.locks|
  {
    hide Claims, SetLocks, ClaimsDisjoint, LocksHeld, SizeOk, ListOk;
    assert ThreadOk(w, t);
    var p: nat :| Inserted(w.per, w.threads[t], e, p);
    Times(w.per, p + 1, |w.locks|);
  }

  // Every thread gets done

  /** Steps for n whole parts at most. */
  function Whole(per: nat, n: int): int {
    (5 * per + 2) * n
  }

  /** Steps for the elements of a part from index i on. */
  function Rest(per: nat, part: nat, i: int): int {
    5 * (per * (part + 1) - i)
  }

  /** What a thread still has to do, in steps at most. */
  function Left(w: World, t: nat): int
    requires t < |w.threads|
  {
    var th := w.threads[t];
    var later := |w.locks| - th.part - 1;
    match th.pc
    case Joined => 0
    case Claim => 1 + Whole(w.per, later + 1)
    case Fetch(i) => 2 + Whole(w.per, later) + Rest(w.per, th.part, i)
    case SetPrev(i, _) => 1 + Whole(w.per, later) + Rest(w.per, th.part, i)
    case SetNext(i, _) => Whole(w.per, later) + Rest(w.per, th.part, i)
    case LinkBefore(i, _) => Whole(w.per, later) + Rest(w.per, th.part, i) - 1
    case LinkAfter(i, _) => Whole(w.per, later) + Rest(w.per, th.part, i) - 2
  }

  lemma LeftDecreases(w: World, t: nat)
    requires t < |w.threads| && ThreadOk(w, t)
    ensures Left(Step(w, t), t) >= 0 && (w.threads[t].pc.Joined? || Left(Step(w, t), t) < Left(w, t))
  {
    hide ListOk, ContentsOk, SizeOk, Get, WithFirst, Whole, Rest;
    var th := w.threads[t];
    if th.part < |w.locks| {
      WholeNext(w.per, |w.locks| - th.part - 1);
      TimesNext(w.per, th.part);
      RestNext(w.per, th.part, if Busy(th.pc) then th.pc.i else w.per * th.part);
    }
    WholeNext(w.per, |w.locks| - th.part);
  }

  lemma WholeNext(per: nat, n: nat)
    ensures Whole(per, n + 1) == Whole(per, n) + 5 * per + 2 && Whole(per, n) >= 0
  {}

  lemma RestNext(per: nat, part: nat, i: int)
    ensures Rest(per, part, i + 1) == Rest(per, part, i) - 5
    ensures Rest(per, part, per * part) == 5 * per
    ensures i <= per * (part + 1) ==> Rest(per, part, i) >= 0
    ensures i < per * (part + 1) ==> Rest(per, part, i) >= 5
  {}

  function Turns(schedule: seq<nat>, t: nat): nat {
    if schedule == [] then 0
    else Turns(schedule[..|schedule| - 1], t) + if schedule[|schedule| - 1] == t then 1 else 0
  }

  /** However the others move, a thread joins within a fixed number of steps of its own. */
  lemma {:induction false} EveryoneFinishes(w: World, schedule: seq<nat>, t: nat)
    requires Inv(w) && t < |w.threads|
    ensures |Run(w, schedule).threads| == |w.threads|
    ensures Run(w, schedule).threads[t].pc.Joined? || Left(Run(w, schedule), t) + Turns(schedule, t) <= Left(w, t)
    ensures Turns(schedule, t) >= Left(w, t) ==> Run(w, schedule).threads[t].pc.Joined?
  {
    hide Inv, Step, Left;
    RunKeeps(w, schedule);
    if schedule != [] {
      var n := |schedule| - 1;
      EveryoneFinishes(w, schedule[..n], t);
      RunKeeps(w, schedule[..n]);
      var w1 := Run(w, schedule[..n]);
      InvThread(w1, t);
      LeftDecreases(w1, t);
      if schedule[n] == t {
        StaysJoined(w1, t);
      } else if schedule[n] < |w1.threads| {
        StepFrame(w1, schedule[n]);
        LeftDepends(w1, Step(w1, schedule[n]), t);
      }
    }
    InvThread(Run(w, schedule), t);
    LeftDecreases(Run(w, schedule), t);
  }

  lemma InvThread(w: World, t: nat)
    requires Inv(w) && t < |w.threads|
    ensures ThreadOk(w, t)
  {}

  lemma StaysJoined(w: World, t: nat)
    requires t < |w.threads|
    ensures w.threads[t].pc.Joined? ==> Step(w, t) == w
  {}

  lemma LeftDepends(w: World, w': World, t: nat)
    requires t < |w.threads| == |w'.threads| && w'.per == w.per && |w'.locks| == |w.locks| && w'.threads[t] == w.threads[t]
    ensures Left(w', t) == Left(w, t)
  {}

  /** From the start that number is one, and for each part two and five for each of its elements. */
  lemma WorkBound(numThreads: nat, iterations: nat, numParts: nat, schedule: seq<nat>, t: nat)
    requires numParts > 0 && t < numThreads
    requires Turns(schedule, t) >= 1 + (5 * ((numThreads * iterations) / numParts) + 2) * numParts
    ensures var w := Run(Start(numThreads, iterations, numParts), schedule);
            t < |w.threads| && w.threads[t].pc.Joined?
  {
    hide Inv, Run, Turns;
    StartInv(numThreads, iterations, numParts);
    EveryoneFinishes(Start(numThreads, iterations, numParts), schedule, t);
  }
}
