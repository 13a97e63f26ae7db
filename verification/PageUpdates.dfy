/** The four ways the page-table code changes memory, each keeping the trees in order. */
module PageUpdates {
  import opened PageTree

  ghost predicate Zeroed(page: seq<nat>) {
    |page| == WORDS && forall i :: 0 <= i < WORDS ==> page[i] == 0
  }

  function SetWord(page: seq<nat>, i: nat, e: nat): (r: seq<nat>)
    requires i < |page|
    ensures |r| == |page|
  {
    page[..i] + [e] + page[i + 1..]
  }

  // Taking a free frame

  /** Frame g taken for the kernel, with new contents. */
  function Take(s: Space, g: nat, page: seq<nat>): Space
    requires Sized(s) && g < PAGING_PAGES
  {
    s.(mem := s.mem[g := page], role := s.role[g := Kernel])
  }

  /** Contents of frames that are no tables do not matter to any translation. */
  lemma {:induction false} WalkSame(s: Space, mem: seq<seq<nat>>, f: nat, vpn: nat)
    requires Linked(s) && |mem| == PAGING_PAGES && f < PAGING_PAGES && s.role[f].Table?
    requires forall h :: 0 <= h < PAGING_PAGES && s.role[h].Table? ==> mem[h] == s.mem[h]
    ensures Walk(mem, f, s.role[f].level, vpn) == Walk(s.mem, f, s.role[f].level, vpn)
    decreases s.role[f].level
  {
    hide FrameOf, Prefix, Present, Unshared;
    var l := s.role[f].level;
    TableAt(s, f, Index(vpn, l));
    if s.mem[f][Index(vpn, l)] != 0 && l > 0 {
      WalkSame(s, mem, FrameOf(s.mem[f][Index(vpn, l)]), vpn);
    }
  }

  /** Changing the contents of a frame that is no table, or taking a free one for the kernel or
      giving it back, keeps everything linked and every translation. */
  lemma SetContents(s: Space, g: nat, page: seq<nat>, role: Role)
    requires Linked(s) && g < PAGING_PAGES && |page| == WORDS && !s.role[g].Table?
    requires role == s.role[g] || ((s.role[g].Free? || s.role[g].Kernel?) && (role.Free? || role.Kernel?))
    ensures var s' := s.(mem := s.mem[g := page], role := s.role[g := role]);
            Linked(s') && forall t, vpn: nat :: Translate(s', t, vpn) == Translate(s, t, vpn)
  {
    hide FrameOf, Present, Walk, Index;
    var s' := s.(mem := s.mem[g := page], role := s.role[g := role]);
    forall h: nat | h < PAGING_PAGES && s'.role[h].Table?
      ensures TableOk(s', h)
    {
      assert TableOk(s, h);
      KeepsTable(s, s', h, g);
    }
    assert forall t :: Present(s', t) == Present(s, t) by { SamePresent(s, s'); }
    forall t, vpn: nat
      ensures Translate(s', t, vpn) == Translate(s, t, vpn)
    {
      if t in s.roots {
        WalkSame(s, s'.mem, s.roots[t], vpn);
      }
    }
  }

  lemma SamePresent(s: Space, s': Space)
    requires s.present == s'.present
    ensures forall t :: Present(s', t) == Present(s, t)
  {}

  lemma KeepsTable(s: Space, s': Space, h: nat, g: nat)
    requires Sized(s) && Sized(s') && h < PAGING_PAGES && g < PAGING_PAGES && s.role[h].Table? && TableOk(s, h)
    requires s'.role[h] == s.role[h] && s'.mem[h] == s.mem[h] && s'.present == s.present && s'.roots == s.roots
    requires forall f :: 0 <= f < PAGING_PAGES && (s.role[f].Table? || s.role[f].User?) ==> s'.role[f] == s.role[f]
    ensures TableOk(s', h)
  {
    hide FrameOf;
    forall i: nat | i < WORDS
      ensures SlotOk(s', h, i)
    {
      assert SlotOk(s, h, i);
    }
  }

  // A task's top table

  function NewRoot(s: Space, t: nat, g: nat): Space
    requires Sized(s) && g < PAGING_PAGES
  {
    s.(role := s.role[g := Table(t, TOP_LEVEL, 0)], roots := s.roots[t := g])
  }

  /** A zeroed kernel page becomes the top table of a task that has none. */
  lemma NewRootLinked(s: Space, t: nat, g: nat)
    requires Linked(s) && t !in s.roots && g < PAGING_PAGES && s.role[g].Kernel? && Zeroed(s.mem[g])
    ensures var s' := NewRoot(s, t, g);
            Linked(s') && Present(s, t) == {} && forall t', vpn: nat :: Translate(s', t', vpn) == Translate(s, t', vpn)
  {
    hide FrameOf, Walk, Index;
    var s' := NewRoot(s, t, g);
    NothingPresent(s, t);
    forall h: nat | h < PAGING_PAGES && s'.role[h].Table?
      ensures TableOk(s', h)
    {
      if h != g {
        assert TableOk(s, h);
        RootKeepsTable(s, s', h, t, g);
      } else {
        EmptyRoot(s', t, g);
      }
    }
    SamePresent(s, s');
    RootUnshared(s, t, g);
    forall t', vpn: nat
      ensures Translate(s', t', vpn) == Translate(s, t', vpn)
    {
      if t' == t {
        ZeroWalk(s.mem, g, TOP_LEVEL, vpn);
      }
    }
  }

  lemma NothingPresent(s: Space, t: nat)
    requires Linked(s) && t !in s.roots
    ensures Present(s, t) == {}
  {
    hide TableOk, Unshared;
    forall x: (nat, nat)
      ensures x !in Present(s, t)
    {
      NotPresent(s, t, x.0, x.1);
    }
  }

  lemma NotPresent(s: Space, t: nat, l: nat, x: nat)
    requires Linked(s) && t !in s.roots
    ensures (l, x) !in Present(s, t)
  {
    hide TableOk, Unshared;
  }

  lemma RootKeepsTable(s: Space, s': Space, h: nat, t: nat, g: nat)
    requires Sized(s) && Sized(s') && h < PAGING_PAGES && g < PAGING_PAGES && h != g
    requires t !in s.roots && s.role[g].Kernel? && s' == NewRoot(s, t, g)
    requires s.role[h].Table? && TableOk(s, h)
    ensures TableOk(s', h)
  {
    hide FrameOf;
    forall i: nat | i < WORDS
      ensures SlotOk(s', h, i)
    {
      assert SlotOk(s, h, i);
    }
  }

  lemma EmptyRoot(s: Space, t: nat, g: nat)
    requires Sized(s) && g < PAGING_PAGES && s.role[g] == Table(t, TOP_LEVEL, 0) && Zeroed(s.mem[g])
    requires t in s.roots && s.roots[t] == g && Present(s, t) == {}
    ensures TableOk(s, g)
  {
    hide FrameOf;
    forall i: nat | i < WORDS
      ensures SlotOk(s, g, i)
    {}
  }

  lemma RootUnshared(s: Space, t: nat, g: nat)
    requires Linked(s) && t !in s.roots && g < PAGING_PAGES && s.role[g].Kernel?
    ensures Unshared(NewRoot(s, t, g))
  {
    hide SlotOk, Present;
    forall h: nat | h < PAGING_PAGES && s.role[h].Table?
      ensures s.role[h] != Table(t, TOP_LEVEL, 0)
    {
      assert TableOk(s, h);
    }
  }

  lemma ZeroWalk(mem: seq<seq<nat>>, g: nat, l: nat, vpn: nat)
    requires g < |mem| && Zeroed(mem[g])
    ensures Walk(mem, g, l, vpn) == -1
  {}

  // A new table below an empty entry

  function AttachTable(s: Space, f: nat, i: nat, g: nat): Space
    requires Sized(s) && f < PAGING_PAGES && g < PAGING_PAGES && i < WORDS
    requires s.role[f].Table? && s.role[f].level > 0
  {
    var Table(t, l, k) := s.role[f];
    var slot := k * 512 + i;
    Space(s.mem[f := SetWord(s.mem[f], i, Entry(g, TABLE_FLAGS))], s.role[g := Table(t, l - 1, slot)],
          s.present[t := Present(s, t) + {(l, slot)}], s.roots)
  }

  ghost predicate CanAttach(s: Space, f: nat, i: nat, g: nat) {
    && Linked(s) && f < PAGING_PAGES && g < PAGING_PAGES && i < WORDS
    && s.role[f].Table? && s.role[f].level > 0 && s.mem[f][i] == 0 && s.role[g].Kernel? && Zeroed(s.mem[g])
  }

  lemma AttachSlots(s: Space, f: nat, i: nat, g: nat, h: nat, j: nat)
    requires CanAttach(s, f, i, g) && h < PAGING_PAGES && j < WORDS && AttachTable(s, f, i, g).role[h].Table?
    ensures Sized(AttachTable(s, f, i, g)) && SlotOk(AttachTable(s, f, i, g), h, j)
  {
    hide FrameOf, EntryAddress, Entry, Unshared, SlotOk, Present;
    if h == g {
      AttachNewSlot(s, f, i, g, j);
    } else {
      AttachOldSlot(s, f, i, g, h, j);
    }
  }

  /** The new table's entries are empty, and nothing below them is recorded. */
  lemma AttachNewSlot(s: Space, f: nat, i: nat, g: nat, j: nat)
    requires CanAttach(s, f, i, g) && j < WORDS
    ensures Sized(AttachTable(s, f, i, g)) && AttachTable(s, f, i, g).role[g].Table?
            && SlotOk(AttachTable(s, f, i, g), g, j)
  {
    hide FrameOf, EntryAddress, Entry, Unshared;
    var Table(t, l, k) := s.role[f];
    var slot := k * 512 + i;
    TableAt(s, f, i);
    assert (slot * 512 + j) / 512 == slot;
    assert (l - 1, slot * 512 + j) !in Present(s, t);
  }

  lemma AttachOldSlot(s: Space, f: nat, i: nat, g: nat, h: nat, j: nat)
    requires CanAttach(s, f, i, g) && h < PAGING_PAGES && j < WORDS && s.role[h].Table?
    ensures Sized(AttachTable(s, f, i, g)) && AttachTable(s, f, i, g).role[h].Table?
            && SlotOk(AttachTable(s, f, i, g), h, j)
  {
    hide FrameOf, EntryAddress, Entry, Unshared, TableOk;
    var Table(t, l, k) := s.role[f];
    var slot := k * 512 + i;
    EntryPointsTo(g, TABLE_FLAGS);
    TableAt(s, f, i);
    TableAt(s, h, j);
    if h == f && j == i {
    } else if s.role[h].task == t && s.role[h].level == l && s.role[h].key * 512 + j == slot {
      assert s.role[h].key == k && j == i;
      assert s.role[h] == s.role[f];
      SameTable(s, h, f);
    }
  }

  lemma SameTable(s: Space, f: nat, g: nat)
    requires Linked(s) && f < PAGING_PAGES && g < PAGING_PAGES && s.role[f].Table? && s.role[f] == s.role[g]
    ensures f == g
  {
    hide TableOk, Present;
  }

  lemma AttachTables(s: Space, f: nat, i: nat, g: nat, h: nat)
    requires CanAttach(s, f, i, g) && h < PAGING_PAGES && AttachTable(s, f, i, g).role[h].Table?
    ensures Sized(AttachTable(s, f, i, g)) && TableOk(AttachTable(s, f, i, g), h)
  {
    hide FrameOf, Entry, Unshared, SlotOk;
    var s' := AttachTable(s, f, i, g);
    TableAt(s, f, i);
    if h != g {
      TableAt(s, h, 0);
    }
    assert Sized(s');
    forall j: nat | j < WORDS
      ensures SlotOk(s', h, j)
    {
      AttachSlots(s, f, i, g, h, j);
    }
  }

  lemma AttachUnshared(s: Space, f: nat, i: nat, g: nat)
    requires CanAttach(s, f, i, g)
    ensures Sized(AttachTable(s, f, i, g)) && Unshared(AttachTable(s, f, i, g))
  {
    hide FrameOf, Entry;
    var Table(t, l, k) := s.role[f];
    TableAt(s, f, i);
    forall h: nat | h < PAGING_PAGES && s.role[h].Table?
      ensures s.role[h] != Table(t, l - 1, k * 512 + i)
    {
      TableAt(s, h, 0);
    }
  }

  lemma AttachClosed(s: Space, f: nat, i: nat, g: nat, t': nat, m: nat, x: nat)
    requires CanAttach(s, f, i, g) && (m, x) in Present(AttachTable(s, f, i, g), t')
    ensures var s' := AttachTable(s, f, i, g);
            m <= TOP_LEVEL && t' in s'.roots && (m < TOP_LEVEL ==> (m + 1, x / 512) in Present(s', t'))
  {
    hide FrameOf, Entry, Unshared;
    var Table(t, l, k) := s.role[f];
    TableAt(s, f, i);
    assert (k * 512 + i) / 512 == k;
    if t' == t && (m, x) == (l, k * 512 + i) {
    } else {
      assert (m, x) in Present(s, t');
    }
  }

  /** Hanging a zeroed page below an empty entry keeps the trees in order and, since it is
      empty, every translation of every task. */
  lemma AttachLinked(s: Space, f: nat, i: nat, g: nat)
    requires CanAttach(s, f, i, g)
    ensures var s' := AttachTable(s, f, i, g);
            Linked(s') && forall t, vpn: nat :: Translate(s', t, vpn) == Translate(s, t, vpn)
  {
    hide FrameOf, Entry, SlotOk, TableOk, Present, Unshared, Walk;
    var s' := AttachTable(s, f, i, g);
    forall h: nat | h < PAGING_PAGES && s'.role[h].Table?
      ensures TableOk(s', h)
    {
      AttachTables(s, f, i, g, h);
    }
    AttachUnshared(s, f, i, g);
    forall t, m: nat, x: nat | (m, x) in Present(s', t)
      ensures m <= TOP_LEVEL && t in s'.roots && (m < TOP_LEVEL ==> (m + 1, x / 512) in Present(s', t))
    {
      AttachClosed(s, f, i, g, t, m, x);
    }
    forall t, vpn: nat
      ensures Translate(s', t, vpn) == Translate(s, t, vpn)
    {
      if t in s.roots {
        AttachWalk(s, f, i, g, s.roots[t], vpn);
      }
    }
  }

  lemma {:induction false} AttachWalk(s: Space, f: nat, i: nat, g: nat, h: nat, vpn: nat)
    requires CanAttach(s, f, i, g) && h < PAGING_PAGES && s.role[h].Table?
    ensures var s' := AttachTable(s, f, i, g);
            Walk(s'.mem, h, s.role[h].level, vpn) == Walk(s.mem, h, s.role[h].level, vpn)
    decreases s.role[h].level
  {
    hide FrameOf, EntryAddress, Entry, Unshared, Present, Index;
    var l := s.role[h].level;
    EntryPointsTo(g, TABLE_FLAGS);
    TableAt(s, h, Index(vpn, l));
    var e := s.mem[h][Index(vpn, l)];
    if h == f && Index(vpn, l) == i {
      ZeroWalk(AttachTable(s, f, i, g).mem, g, l - 1, vpn);
    } else if e != 0 && l > 0 {
      AttachWalk(s, f, i, g, FrameOf(e), vpn);
    }
  }

  // A page of memory in a bottom table

  function AttachPage(s: Space, f: nat, i: nat, g: nat): Space
    requires Sized(s) && f < PAGING_PAGES && g < PAGING_PAGES && i < WORDS
    requires s.role[f].Table?
  {
    var Table(t, l, k) := s.role[f];
    var slot := k * 512 + i;
    Space(s.mem[f := SetWord(s.mem[f], i, Entry(g, PAGE_FLAGS))], s.role[g := User(t, slot)],
          s.present[t := Present(s, t) + {(0, slot)}], s.roots)
  }

  ghost predicate CanMap(s: Space, f: nat, i: nat, g: nat) {
    && Linked(s) && f < PAGING_PAGES && g < PAGING_PAGES && i < WORDS
    && s.role[f].Table? && s.role[f].level == 0 && s.role[g].Kernel?
  }

  lemma MapSlots(s: Space, f: nat, i: nat, g: nat, h: nat, j: nat)
    requires CanMap(s, f, i, g) && h < PAGING_PAGES && j < WORDS && AttachPage(s, f, i, g).role[h].Table?
    ensures Sized(AttachPage(s, f, i, g)) && SlotOk(AttachPage(s, f, i, g), h, j)
  {
    hide FrameOf, EntryAddress, Entry, Unshared;
    var Table(t, l, k) := s.role[f];
    var slot := k * 512 + i;
    EntryPointsTo(g, PAGE_FLAGS);
    TableAt(s, f, i);
    TableAt(s, h, j);
    if h == f && j == i {
    } else if s.role[h].task == t && s.role[h].level == 0 && s.role[h].key * 512 + j == slot {
      assert s.role[h].key == k && j == i;
      SameTable(s, h, f);
    }
  }

  lemma MapTables(s: Space, f: nat, i: nat, g: nat, h: nat)
    requires CanMap(s, f, i, g) && h < PAGING_PAGES && AttachPage(s, f, i, g).role[h].Table?
    ensures Sized(AttachPage(s, f, i, g)) && TableOk(AttachPage(s, f, i, g), h)
  {
    hide FrameOf, Entry, Unshared, SlotOk;
    var s' := AttachPage(s, f, i, g);
    TableAt(s, h, 0);
    assert Sized(s');
    forall j: nat | j < WORDS
      ensures SlotOk(s', h, j)
    {
      MapSlots(s, f, i, g, h, j);
    }
  }

  lemma MapClosed(s: Space, f: nat, i: nat, g: nat, t': nat, m: nat, x: nat)
    requires CanMap(s, f, i, g) && (m, x) in Present(AttachPage(s, f, i, g), t')
    ensures var s' := AttachPage(s, f, i, g);
            m <= TOP_LEVEL && t' in s'.roots && (m < TOP_LEVEL ==> (m + 1, x / 512) in Present(s', t'))
  {
    hide FrameOf, Entry, Unshared;
    var Table(t, l, k) := s.role[f];
    TableAt(s, f, i);
    assert (k * 512 + i) / 512 == k;
    if t' == t && (m, x) == (0, k * 512 + i) {
      assert (1, k) in Present(s, t);
    } else {
      assert (m, x) in Present(s, t');
    }
  }

  /** Entering a page in a bottom table keeps the trees in order, maps its one virtual page,
      and leaves every other translation of every task alone. */
  lemma MapLinked(s: Space, f: nat, i: nat, g: nat)
    requires CanMap(s, f, i, g)
    ensures var s' := AttachPage(s, f, i, g);
            var Table(t, l, k) := s.role[f];
            Linked(s') && forall t', vpn: nat :: vpn < 0x10_0000_0000 ==>
              Translate(s', t', vpn) == if t' == t && vpn == k * 512 + i then g else Translate(s, t', vpn)
  {
    hide FrameOf, Entry, SlotOk, TableOk, Present, Unshared, Walk, Prefix;
    var s' := AttachPage(s, f, i, g);
    var Table(t, l, k) := s.role[f];
    forall h: nat | h < PAGING_PAGES && s'.role[h].Table?
      ensures TableOk(s', h)
    {
      MapTables(s, f, i, g, h);
    }
    MapUnshared(s, f, i, g);
    forall t, m: nat, x: nat | (m, x) in Present(s', t)
      ensures m <= TOP_LEVEL && t in s'.roots && (m < TOP_LEVEL ==> (m + 1, x / 512) in Present(s', t))
    {
      MapClosed(s, f, i, g, t, m, x);
    }
    forall t', vpn: nat | vpn < 0x10_0000_0000
      ensures Translate(s', t', vpn) == if t' == t && vpn == k * 512 + i then g else Translate(s, t', vpn)
    {
      MapTranslate(s, f, i, g, t', vpn);
    }
  }

  lemma MapUnshared(s: Space, f: nat, i: nat, g: nat)
    requires CanMap(s, f, i, g)
    ensures Sized(AttachPage(s, f, i, g)) && Unshared(AttachPage(s, f, i, g))
  {
    hide TableOk, Present, Entry;
  }

  lemma MapTranslate(s: Space, f: nat, i: nat, g: nat, t': nat, vpn: nat)
    requires CanMap(s, f, i, g) && vpn < 0x10_0000_0000
    ensures var s' := AttachPage(s, f, i, g);
            var Table(t, l, k) := s.role[f];
            Translate(s', t', vpn) == if t' == t && vpn == k * 512 + i then g else Translate(s, t', vpn)
  {
    hide FrameOf, Entry, SlotOk, TableOk, Present, Unshared, Walk, Prefix, Index;
    TopPrefix(vpn);
    if t' in s.roots {
      MapWalk(s, f, i, g, s.roots[t'], vpn);
    } else {
      OwnRoot(s, f);
    }
  }

  lemma OwnRoot(s: Space, f: nat)
    requires Linked(s) && f < PAGING_PAGES && s.role[f].Table?
    ensures s.role[f].task in s.roots
  {
    hide SlotOk, Unshared;
    assert TableOk(s, f);
  }

  /** Walking vpn's path from a table on it, in the changed memory. */
  lemma {:induction false} MapWalk(s: Space, f: nat, i: nat, g: nat, h: nat, vpn: nat)
    requires CanMap(s, f, i, g) && h < PAGING_PAGES && s.role[h].Table?
    requires s.role[h].key == Prefix(vpn, s.role[h].level + 1)
    ensures var s' := AttachPage(s, f, i, g);
            var Table(t, l, k) := s.role[f];
            Walk(s'.mem, h, s.role[h].level, vpn)
              == if s.role[h].task == t && vpn == k * 512 + i then g else Walk(s.mem, h, s.role[h].level, vpn)
    decreases s.role[h].level
  {
    hide FrameOf, EntryAddress, Entry, Unshared, Present, Prefix, Index, TableOk;
    var Table(t, l, k) := s.role[f];
    EntryPointsTo(g, PAGE_FLAGS);
    PathAt(s, h, vpn);
    var m := s.role[h].level;
    var e := s.mem[h][Index(vpn, m)];
    if m == 0 {
      if s.role[h].task == t && vpn == k * 512 + i {
        SameTable(s, h, f);
      }
    } else {
      if e != 0 {
        MapWalk(s, f, i, g, FrameOf(e), vpn);
      } else if s.role[h].task == t && vpn == k * 512 + i {
        PathInUse(s, f, i, vpn, m);
      }
    }
  }

  /** Everything above a bottom table is in use. */
  lemma PathInUse(s: Space, f: nat, i: nat, vpn: nat, m: nat)
    requires Linked(s) && f < PAGING_PAGES && s.role[f].Table? && s.role[f].level == 0 && i < WORDS
    requires vpn == s.role[f].key * 512 + i && 1 <= m <= TOP_LEVEL
    ensures (m, Prefix(vpn, m)) in Present(s, s.role[f].task)
  {
    hide SlotOk, Unshared, Present;
    TableAt(s, f, 0);
    PrefixUp(vpn, 0);
    PrefixZero(vpn);
    ClosedUp(s, s.role[f].task, 1, m, vpn);
  }

  lemma PrefixZero(vpn: nat)
    ensures Prefix(vpn, 0) == vpn
  {}
}
