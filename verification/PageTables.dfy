/** The page allocator and the page-table builder, on physical memory. */
module PageTables {
  import opened BitOps
  import opened PageTree
  import opened PageUpdates

  const MAX_PROCESS_PAGES: nat := 16

  datatype UserPage = UserPage(phys: nat, virt: nat)

  ghost function FreeFrames(s: Space): set<nat>
    requires Sized(s)
  {
    set f: nat | f < PAGING_PAGES && s.role[f].Free?
  }

  /** The tables a page needs that its task does not have yet, on levels 1 to l. */
  ghost function Missing(present: set<(nat, nat)>, vpn: nat, l: nat): (n: nat)
    ensures n <= l
  {
    if l == 0 then 0 else Missing(present, vpn, l - 1) + (if (l, Prefix(vpn, l)) in present then 0 else 1)
  }

  /** All frames task t needs for its tables before vpn can be entered. */
  ghost function Needed(s: Space, t: nat, vpn: nat): nat {
    Missing(Present(s, t), vpn, TOP_LEVEL) + (if t in s.roots then 0 else 1)
  }

  /** From s to s' frames were only taken from the free ones and entered for task t: nothing in
      use changed its role, no page of memory its contents, and no other task its tables. */
  ghost predicate Grown(s: Space, s': Space, t: nat) {
    && Sized(s) && Sized(s')
    && (forall f :: 0 <= f < PAGING_PAGES && !s.role[f].Free? ==> s'.role[f] == s.role[f])
    && (forall f :: 0 <= f < PAGING_PAGES && (s.role[f].User? || s.role[f].Kernel?) ==> s'.mem[f] == s.mem[f])
    && (forall t' :: t' != t ==> Present(s', t') == Present(s, t') && (t' in s'.roots <==> t' in s.roots))
    && (forall t' :: t' != t && t' in s.roots ==> s'.roots[t'] == s.roots[t'])
  }

  ghost predicate SameTranslations(s: Space, s': Space) {
    forall t, vpn: nat :: Translate(s', t, vpn) == Translate(s, t, vpn)
  }

  function Zeros(): (r: seq<nat>)
    ensures Zeroed(r)
  {
    seq(WORDS, _ => 0)
  }

  /** A memory with every frame free and no tables. */
  lemma EmptyLinked(s: Space)
    requires Sized(s) && s.present == map[] && s.roots == map[]
    requires forall f :: 0 <= f < PAGING_PAGES ==> s.role[f].Free?
    ensures Linked(s) && |FreeFrames(s)| == PAGING_PAGES
  {
    hide SlotOk;
    hide NumbersBelow;
    assert FreeFrames(s) == NumbersBelow(PAGING_PAGES);
  }

  ghost function NumbersBelow(n: nat): (r: set<nat>)
    ensures |r| == n && forall x: nat :: x in r <==> x < n
  {
    if n == 0 then {} else NumbersBelow(n - 1) + {n - 1}
  }

  class Memory {
    const memMap: array<nat>
    const mem: array<seq<nat>>
    ghost var role: seq<Role>
    ghost var present: map<nat, set<(nat, nat)>>
    ghost var roots: map<nat, nat>

    ghost function View(): Space
      reads this, mem
    {
      Space(mem[..], role, present, roots)
    }

    /** The allocator's map marks the frames in use, and the tables are in order. */
    ghost predicate Valid()
      reads this, memMap, mem
    {
      && memMap.Length == PAGING_PAGES == mem.Length
      && Sized(View()) && Linked(View())
      && forall f :: 0 <= f < PAGING_PAGES ==> (memMap[f] == 0 <==> role[f].Free?)
    }

    ghost function Available(): nat
      requires Valid()
      reads this, memMap, mem
    {
      |FreeFrames(View())|
    }

    /** All memory free. */
    constructor ()
      ensures Valid() && roots == map[] && fresh(memMap) && fresh(mem) && mem != memMap as object
      ensures Available() == PAGING_PAGES
    {
      memMap := new nat[PAGING_PAGES](_ => 0);
      mem := new seq<nat>[PAGING_PAGES](_ => Zeros());
      role := seq(PAGING_PAGES, _ => Free);
      present := map[];
      roots := map[];
      new;
      EmptyLinked(View());
    }

    /** The first free page, zeroed and taken, or 0 when there is none. */
    method GetFreePage() returns (page: nat)
      requires Valid()
      modifies this`role, memMap, mem
      ensures Valid()
      ensures page == 0 <==> old(Available()) == 0
      ensures page == 0 ==> View() == old(View())
      ensures page != 0 ==> exists f :: 0 <= f < PAGING_PAGES && page == Base(f) && old(role[f].Free?)
                                        && View() == Take(old(View()), f, Zeros())
      ensures page != 0 ==> Available() == old(Available()) - 1
    {
      hide Linked, Translate, FreeFrames;
      for i := 0 to PAGING_PAGES
        invariant forall f :: 0 <= f < i ==> memMap[f] != 0
        invariant View() == old(View()) && Valid() && memMap[..] == old(memMap[..])
      {
        if memMap[i] == 0 {
          SetContents(View(), i, Zeros(), Kernel);
          TakenFree(View(), i, Zeros());
          memMap[i] := 1;
          mem[i] := Zeros();
          role := role[i := Kernel];
          assert View() == Take(old(View()), i, Zeros());
          return LOW_MEMORY + i * PAGE_SIZE;
        }
      }
      NoneFree(View());
      page := 0;
    }

    /** Gives a kernel page back. */
    method FreePage(p: nat)
      requires Valid() && exists f :: 0 <= f < PAGING_PAGES && p == Base(f) && role[f].Kernel?
      modifies this`role, memMap
      ensures Valid() && SameTranslations(old(View()), View())
      ensures Available() == old(Available()) + 1
    {
      hide Linked, Translate, FreeFrames;
      var f := (p - LOW_MEMORY) / PAGE_SIZE;
      ReleaseKernel(View(), f);
      memMap[f] := 0;
      role := role[f := Free];
    }

    /** Follows the entry for va in the table at address table, first hanging a fresh table
        there when it is empty. */
    method MapTable(table: nat, ghost f: nat, shift: nat, ghost l: nat, va: nat, ghost t: nat)
        returns (next: nat, newTable: bool, ghost g: nat)
      requires Valid() && 1 <= l <= TOP_LEVEL && shift == 12 + 9 * l
      requires f < PAGING_PAGES && table == Base(f) && role[f] == Table(t, l, Prefix(PageNumber(va), l + 1))
      requires (l, Prefix(PageNumber(va), l)) !in Present(View(), t) ==> Available() > 0
      modifies this`role, this`present, memMap, mem
      ensures Valid() && Grown(old(View()), View(), t) && SameTranslations(old(View()), View())
      ensures roots == old(roots)
      ensures newTable <==> (l, Prefix(PageNumber(va), l)) !in Present(old(View()), t)
      ensures Present(View(), t) == Present(old(View()), t) + {(l, Prefix(PageNumber(va), l))}
      ensures Available() == old(Available()) - (if newTable then 1 else 0)
      ensures g < PAGING_PAGES && next == Base(g) && role[g] == Table(t, l - 1, Prefix(PageNumber(va), l))
      ensures newTable ==> old(role)[g].Free?
    {
      hide Linked, Translate, FreeFrames, Present, FrameOf, EntryAddress, Prefix, PageNumber, And, Or, Shr, Zeroed,
        SetWord;
      ghost var vpn := PageNumber(va);
      IndexOfAddress(va, l);
      PathAt(View(), f, vpn);
      var i := And(Shr(va, shift), WORDS - 1);
      var words := mem[(table - LOW_MEMORY) / PAGE_SIZE];
      EntrySlot(View(), f, i);
      if words[i] == 0 {
        newTable := true;
        ghost var s := View();
        next := GetFreePage();
        g :| 0 <= g < PAGING_PAGES && next == Base(g) && s.role[g].Free? && View() == Take(s, g, Zeros());
        TakeAttach(s, f, i, g);
        EntryPointsTo(g, TABLE_FLAGS);
        ghost var s1 := View();
        assert words == s1.mem[f];
        mem[(table - LOW_MEMORY) / PAGE_SIZE] := SetWord(words, i, Or(TABLE_FLAGS, next));
        role := role[g := Table(t, l - 1, Prefix(vpn, l))];
        present := present[t := Present(s1, t) + {(l, Prefix(vpn, l))}];
        assert mem[..] == s1.mem[f := SetWord(s1.mem[f], i, Entry(g, TABLE_FLAGS))];
        assert role == AttachTable(s1, f, i, g).role;
        assert present == AttachTable(s1, f, i, g).present;
      } else {
        newTable := false;
        next := EntryAddress(words[i]);
        g := FrameOf(words[i]);
        assert Present(View(), t) == Present(View(), t) + {(l, Prefix(vpn, l))};
      }
    }

    /** A fresh top table for a task that has none. */
    method NewTopTable(ghost t: nat) returns (page: nat, ghost g: nat)
      requires Valid() && Available() > 0 && t !in roots
      modifies this`role, this`roots, memMap, mem
      ensures Valid() && Grown(old(View()), View(), t) && SameTranslations(old(View()), View())
      ensures Available() == old(Available()) - 1
      ensures g < PAGING_PAGES && page == Base(g) && roots == old(roots)[t := g] && role[g] == Table(t, TOP_LEVEL, 0)
      ensures old(role)[g].Free? && Present(old(View()), t) == Present(View(), t) == {}
    {
      hide Linked, Translate, FreeFrames, Present, Zeroed;
      ghost var s := View();
      page := GetFreePage();
      g :| 0 <= g < PAGING_PAGES && page == Base(g) && s.role[g].Free? && View() == Take(s, g, Zeros());
      TakeRoot(s, t, g);
      role := role[g := Table(t, TOP_LEVEL, 0)];
      roots := roots[t := g];
      assert View() == NewRoot(Take(s, g, Zeros()), t, g);
    }

    /** Enters a page in the bottom table at address pte. */
    method MapTableEntry(pte: nat, ghost f: nat, va: nat, page: nat, ghost g: nat, ghost t: nat)
      requires Valid() && f < PAGING_PAGES && pte == Base(f)
      requires role[f] == Table(t, 0, Prefix(PageNumber(va), 1))
      requires g < PAGING_PAGES && page == Base(g) && role[g].Kernel?
      modifies this`role, this`present, mem
      ensures Valid() && Available() == old(Available()) && roots == old(roots)
      ensures role == old(role)[g := User(t, PageNumber(va))]
      ensures forall h :: 0 <= h < PAGING_PAGES && h != f ==> mem[h] == old(mem[h])
      ensures forall t' :: Present(View(), t') ==
                Present(old(View()), t') + (if t' == t then {(0, PageNumber(va))} else {})
      ensures forall t', v: nat :: v < 0x10_0000_0000 ==>
                Translate(View(), t', v) == if t' == t && v == PageNumber(va) then g else Translate(old(View()), t', v)
    {
      hide Linked, Translate, FrameOf, EntryAddress, Prefix, PageNumber, And, Or, Shr, FreeFrames, Present, Index;
      ghost var vpn, s := PageNumber(va), View();
      IndexOfAddress(va, 0);
      PathAt(s, f, vpn);
      EntryMaps(s, f, Index(vpn, 0), g);
      var index := And(Shr(va, 12), WORDS - 1);
      mem[(pte - LOW_MEMORY) / PAGE_SIZE] := SetWord(mem[(pte - LOW_MEMORY) / PAGE_SIZE], index, Or(PAGE_FLAGS, page));
      role := role[g := User(t, vpn)];
      present := present[t := Present(s, t) + {(0, vpn)}];
      assert mem[..] == s.mem[f := SetWord(s.mem[f], index, Entry(g, PAGE_FLAGS))];
      assert View() == AttachPage(s, f, index, g);
    }
  }

  /** What entering a page in a bottom table changes. */
  lemma EntryMaps(s: Space, f: nat, i: nat, g: nat)
    requires CanMap(s, f, i, g)
    ensures var s' := AttachPage(s, f, i, g);
            var Table(t, l, k) := s.role[f];
            && Sized(s') && Linked(s') && FreeFrames(s') == FreeFrames(s)
            && (forall t' :: Present(s', t') == Present(s, t') + (if t' == t then {(0, k * 512 + i)} else {}))
            && (forall t', v: nat :: v < 0x10_0000_0000 ==>
                  Translate(s', t', v) == if t' == t && v == k * 512 + i then g else Translate(s, t', v))
  {
    hide Translate, TableOk, Unshared, Entry;
    MapLinked(s, f, i, g);
  }

  /** What an entry in use says. */
  lemma EntrySlot(s: Space, f: nat, i: nat)
    requires Linked(s) && f < PAGING_PAGES && s.role[f].Table? && s.role[f].level > 0 && i < WORDS
    ensures Sized(s)
    ensures var Table(t, l, k) := s.role[f];
            var e := s.mem[f][i];
            && (e == 0 <==> (l, k * 512 + i) !in Present(s, t))
            && (e != 0 ==> 0 <= FrameOf(e) < PAGING_PAGES && EntryAddress(e) == Base(FrameOf(e))
                           && s.role[FrameOf(e)] == Table(t, l - 1, k * 512 + i))
  {
    hide FrameOf, EntryAddress, Entry, Present;
    TableAt(s, f, i);
    if s.mem[f][i] != 0 {
      EntryPointsTo(FrameOf(s.mem[f][i]), TABLE_FLAGS);
    }
  }

  /** Taking a free frame as a task's top table. */
  lemma TakeRoot(s: Space, t: nat, g: nat)
    requires Linked(s) && t !in s.roots && g < PAGING_PAGES && s.role[g].Free?
    ensures var s' := NewRoot(Take(s, g, Zeros()), t, g);
            && Sized(s') && Linked(s') && SameTranslations(s, s') && Grown(s, s', t)
            && Present(s, t) == Present(s', t) == {} && |FreeFrames(s')| == |FreeFrames(s)| - 1
  {
    hide Translate, TableOk, Unshared, Zeros;
    var s1 := Take(s, g, Zeros());
    SetContents(s, g, Zeros(), Kernel);
    NewRootLinked(s1, t, g);
    TakenFree(s, g, Zeros());
    assert FreeFrames(NewRoot(s1, t, g)) == FreeFrames(s1);
  }

  /** Taking a free frame and hanging it below an empty entry. */
  lemma TakeAttach(s: Space, f: nat, i: nat, g: nat)
    requires Linked(s) && f < PAGING_PAGES && g < PAGING_PAGES && i < WORDS
    requires s.role[f].Table? && s.role[f].level > 0 && s.mem[f][i] == 0 && s.role[g].Free?
    ensures var Table(t, l, k) := s.role[f];
            var s' := AttachTable(Take(s, g, Zeros()), f, i, g);
            && Sized(s') && Linked(s') && SameTranslations(s, s') && Grown(s, s', t)
            && Present(s', t) == Present(s, t) + {(l, k * 512 + i)}
            && |FreeFrames(s')| == |FreeFrames(s)| - 1
  {
    hide Translate, TableOk, Unshared, Entry, Zeros, FreeFrames, Grown;
    var s1 := Take(s, g, Zeros());
    SetContents(s, g, Zeros(), Kernel);
    AttachLinked(s1, f, i, g);
    TakenFree(s, g, Zeros());
    AttachFree(s1, f, i, g);
    AttachGrown(s, f, i, g);
  }

  lemma AttachFree(s: Space, f: nat, i: nat, g: nat)
    requires CanAttach(s, f, i, g)
    ensures Sized(AttachTable(s, f, i, g)) && FreeFrames(AttachTable(s, f, i, g)) == FreeFrames(s)
  {
    hide Linked, Entry;
    assert Sized(s) by { LinkedSized(s); }
  }

  lemma LinkedSized(s: Space)
    requires Linked(s)
    ensures Sized(s)
  {
    hide TableOk, Unshared;
  }

  lemma AttachGrown(s: Space, f: nat, i: nat, g: nat)
    requires Sized(s) && f < PAGING_PAGES && g < PAGING_PAGES && i < WORDS
    requires s.role[f].Table? && s.role[f].level > 0 && s.role[g].Free?
    ensures Grown(s, AttachTable(Take(s, g, Zeros()), f, i, g), s.role[f].task)
  {
    hide Entry, Zeros;
  }

  lemma TakenFree(s: Space, f: nat, page: seq<nat>)
    requires Sized(s) && f < PAGING_PAGES && s.role[f].Free? && |page| == WORDS
    ensures Sized(Take(s, f, page)) && |FreeFrames(Take(s, f, page))| == |FreeFrames(s)| - 1
    ensures f in FreeFrames(s)
  {
    assert FreeFrames(Take(s, f, page)) == FreeFrames(s) - {f};
  }

  lemma NoneFree(s: Space)
    requires Sized(s) && forall f :: 0 <= f < PAGING_PAGES ==> !s.role[f].Free?
    ensures FreeFrames(s) == {}
  {}

  lemma ReleaseKernel(s: Space, g: nat)
    requires Linked(s) && g < PAGING_PAGES && s.role[g].Kernel?
    ensures var s' := s.(role := s.role[g := Free]);
            Sized(s') && Linked(s') && SameTranslations(s, s') && |FreeFrames(s')| == |FreeFrames(s)| + 1
  {
    hide Translate, TableOk, Present, Unshared;
    var s' := s.(role := s.role[g := Free]);
    assert s.mem[g := s.mem[g]] == s.mem;
    SetContents(s, g, s.mem[g], Free);
    assert FreeFrames(s') == FreeFrames(s) + {g} && g !in FreeFrames(s);
  }
}
