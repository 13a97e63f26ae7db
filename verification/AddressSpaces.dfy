/** Tasks' address spaces: mapping pages, copying a parent's memory, and the runs of forks,
    faults and program loads that grow them. */
module AddressSpaces {
  import opened PageTree
  import opened PageUpdates
  import opened PageTables

  /** The virtual pages a list of user pages covers. */
  ghost function MappedPages(up: seq<UserPage>): set<nat> {
    set i | 0 <= i < |up| :: PageNumber(up[i].virt)
  }

  /** The entries that lead to a page. */
  ghost function Path(v: nat): set<(nat, nat)> {
    {(3, Prefix(v, 3)), (2, Prefix(v, 2)), (1, Prefix(v, 1)), (0, v)}
  }

  /** The entries that lead to a set of pages. */
  ghost function Paths(pages: set<nat>): set<(nat, nat)> {
    set v, x | v in pages && x in Path(v) :: x
  }

  /** Those of them that lead to tables. */
  ghost function Upper(present: set<(nat, nat)>): set<(nat, nat)> {
    set x | x in present && x.0 >= 1
  }

  /** How many tables task t has. */
  ghost function TablesOf(s: Space, t: nat): nat {
    |Upper(Present(s, t))| + (if t in s.roots then 1 else 0)
  }

  lemma UpperAdd(present: set<(nat, nat)>, l: nat, x: nat)
    ensures Upper(present + {(l, x)}) == if l == 0 then Upper(present) else Upper(present) + {(l, x)}
    ensures |Upper(present + {(l, x)})| == |Upper(present)| + (if l > 0 && (l, x) !in present then 1 else 0)
  {
    assert Upper(present + {(l, x)}) == if l == 0 then Upper(present) else Upper(present) + {(l, x)};
    if l > 0 && (l, x) in present {
      assert Upper(present) + {(l, x)} == Upper(present);
    }
  }

  lemma {:induction false} MissingAdd(present: set<(nat, nat)>, vpn: nat, m: nat, l: nat, x: nat)
    requires m < l
    ensures Missing(present + {(l, x)}, vpn, m) == Missing(present, vpn, m)
  {
    hide Prefix;
    if m > 0 {
      MissingAdd(present, vpn, m - 1, l, x);
    }
  }

  lemma PathsAdd(pages: set<nat>, v: nat)
    ensures Paths(pages + {v}) == Paths(pages) + {(3, Prefix(v, 3))} + {(2, Prefix(v, 2))} + {(1, Prefix(v, 1))} + {(0, v)}
  {
    hide Prefix, Paths;
    PathsUnion(pages, v);
    assert Path(v) == {(3, Prefix(v, 3))} + {(2, Prefix(v, 2))} + {(1, Prefix(v, 1))} + {(0, v)};
  }

  lemma PathsUnion(pages: set<nat>, v: nat)
    ensures Paths(pages + {v}) == Paths(pages) + Path(v)
  {
    hide Path;
    forall x | x in Paths(pages + {v})
      ensures x in Paths(pages) + Path(v)
    {
      var u :| u in pages + {v} && x in Path(u);
    }
    assert v in pages + {v};
  }

  lemma PathsBottom(pages: set<nat>, v: nat)
    ensures (0, v) in Paths(pages) <==> v in pages
  {
    if v in pages {
      assert (0, v) in Path(v);
    }
  }

  lemma MappedSnoc(up: seq<UserPage>, p: UserPage)
    ensures MappedPages(up + [p]) == MappedPages(up) + {PageNumber(p.virt)}
  {
    hide PageNumber;
    var longer := up + [p];
    forall v | v in MappedPages(up)
      ensures v in MappedPages(longer)
    {
      var i :| 0 <= i < |up| && v == PageNumber(up[i].virt);
      assert longer[i] == up[i];
    }
    assert longer[|up|] == p;
    forall v | v in MappedPages(longer)
      ensures v in MappedPages(up) + {PageNumber(p.virt)}
    {
      var i :| 0 <= i < |longer| && v == PageNumber(longer[i].virt);
      if i < |up| {
        assert longer[i] == up[i];
      }
    }
  }

  class Task {
    ghost const id: nat
    var pgd: nat
    var userCount: nat
    const userPages: array<UserPage>
    var kernelCount: nat
    const kernelPages: array<nat>

    /** A zeroed mm_struct. */
    constructor (ghost pid: nat)
      ensures id == pid && pgd == 0 && userCount == 0 && kernelCount == 0
      ensures userPages.Length == MAX_PROCESS_PAGES == kernelPages.Length
      ensures fresh(userPages) && fresh(kernelPages)
    {
      id := pid;
      pgd, userCount, kernelCount := 0, 0, 0;
      userPages := new UserPage[MAX_PROCESS_PAGES](_ => UserPage(0, 0));
      kernelPages := new nat[MAX_PROCESS_PAGES](_ => 0);
    }

    ghost function Pages(): seq<UserPage>
      requires userCount <= userPages.Length
      reads this, userPages
    {
      userPages[..userCount]
    }

    /** pgd is the top table, and kernel_pages records the tables. */
    ghost predicate Counted(s: Space)
      reads this, kernelPages
    {
      && userPages.Length == MAX_PROCESS_PAGES && userCount <= MAX_PROCESS_PAGES
      && (if id in s.roots then pgd == Base(s.roots[id]) else pgd == 0)
      && kernelPages.Length == MAX_PROCESS_PAGES && Recorded(s) && kernelCount == TablesOf(s, id)
    }

    /** The places from 1 on hold tables of the task's, each once. */
    ghost predicate Recorded(s: Space)
      requires kernelPages.Length == MAX_PROCESS_PAGES
      reads this`kernelCount, kernelPages
    {
      && kernelCount < MAX_PROCESS_PAGES
      && (forall j :: 1 <= j <= kernelCount ==> IsTable(s, id, kernelPages[j]))
      && (forall i, j :: 1 <= i < j <= kernelCount ==> kernelPages[i] != kernelPages[j])
    }

    /** user_pages lists the task's memory, and exactly the listed pages are mapped. */
    ghost predicate Valid(s: Space)
      reads this, userPages, kernelPages
    {
      && Counted(s)
      && Present(s, id) == Paths(MappedPages(Pages()))
      && forall i :: 0 <= i < userCount ==> IsMemory(s, id, userPages[i])
    }
  }

  ghost predicate IsTable(s: Space, t: nat, page: nat) {
    exists h: nat :: h < |s.role| && page == Base(h) && s.role[h].Table? && s.role[h].task == t
  }

  ghost predicate IsMemory(s: Space, t: nat, up: UserPage) {
    up.virt % PAGE_SIZE == 0 &&
    exists h: nat :: h < |s.role| && up.phys == Base(h) && s.role[h] == User(t, PageNumber(up.virt))
  }

  /** Like Grown, but for kernel page g becoming task memory. */
  ghost predicate Mapped(s: Space, s': Space, t: nat, g: nat) {
    && Sized(s) && Sized(s') && g < PAGING_PAGES
    && (forall f :: 0 <= f < PAGING_PAGES && !s.role[f].Free? && f != g ==> s'.role[f] == s.role[f])
    && (forall f :: 0 <= f < PAGING_PAGES && (s.role[f].User? || s.role[f].Kernel?) ==> s'.mem[f] == s.mem[f])
    && (forall t' :: t' != t ==> Present(s', t') == Present(s, t') && (t' in s'.roots <==> t' in s.roots))
    && (forall t' :: t' != t && t' in s.roots ==> s'.roots[t'] == s.roots[t'])
  }

  /** Other tasks are not concerned. */
  lemma OthersKeep(s: Space, s': Space, t: nat, g: nat, other: Task)
    requires Mapped(s, s', t, g) && s.role[g].Kernel? && other.id != t && other.Valid(s)
    ensures other.Valid(s')
  {
    hide Present, PageNumber, Paths, MappedPages, Upper;
    assert Present(s', other.id) == Present(s, other.id);
    forall j | 1 <= j <= other.kernelCount
      ensures IsTable(s', other.id, other.kernelPages[j])
    {
      assert IsTable(s, other.id, other.kernelPages[j]);
    }
    forall i | 0 <= i < other.userCount
      ensures IsMemory(s', other.id, other.userPages[i])
    {
      assert IsMemory(s, other.id, other.userPages[i]);
    }
  }

  /** What has been recorded stays right. */
  lemma RecordedGrows(s: Space, s': Space, t: Task)
    requires t.kernelPages.Length == MAX_PROCESS_PAGES && Grown(s, s', t.id) && t.Recorded(s)
    ensures t.Recorded(s')
  {
    forall j | 1 <= j <= t.kernelCount
      ensures IsTable(s', t.id, t.kernelPages[j])
    {
      assert IsTable(s, t.id, t.kernelPages[j]);
    }
  }

  /** Records a table made of a frame that was none. */
  method RecordTable(t: Task, page: nat, ghost s: Space, ghost s': Space, ghost g: nat)
    requires t.kernelPages.Length == MAX_PROCESS_PAGES && Grown(s, s', t.id) && t.Recorded(s)
    requires t.kernelCount + 1 < MAX_PROCESS_PAGES && g < PAGING_PAGES && page == Base(g)
    requires !s.role[g].Table? && s'.role[g].Table? && s'.role[g].task == t.id
    modifies t`kernelCount, t.kernelPages
    ensures t.Recorded(s') && t.kernelCount == old(t.kernelCount) + 1
  {
    hide Present;
    RecordedGrows(s, s', t);
    forall j | 1 <= j <= t.kernelCount
      ensures t.kernelPages[j] != page
    {
      assert IsTable(s, t.id, t.kernelPages[j]);
    }
    assert IsTable(s', t.id, page);
    t.kernelCount := t.kernelCount + 1;
    t.kernelPages[t.kernelCount] := page;
  }

  lemma GrownTrans(a: Space, b: Space, c: Space, t: nat)
    requires Grown(a, b, t) && Grown(b, c, t)
    ensures Grown(a, c, t)
  {
    hide Present;
  }

  /** One level of the walk: follow or hang a table, and record a new one. */
  method MapLevel(m: Memory, t: Task, table: nat, ghost f: nat, shift: nat, ghost l: nat, va: nat)
      returns (next: nat, ghost g: nat)
    requires m.Valid() && t.Counted(m.View()) && t.kernelPages as object !in {m.memMap as object, m.mem}
    requires 1 <= l <= TOP_LEVEL && shift == 12 + 9 * l
    requires f < PAGING_PAGES && table == Base(f) && m.role[f] == Table(t.id, l, Prefix(PageNumber(va), l + 1))
    requires Missing(Present(m.View(), t.id), PageNumber(va), l) <= m.Available()
    requires Missing(Present(m.View(), t.id), PageNumber(va), l) + t.kernelCount < MAX_PROCESS_PAGES
    modifies m`role, m`present, m.memMap, m.mem, t`kernelCount, t.kernelPages
    ensures m.Valid() && t.Counted(m.View()) && m.roots == old(m.roots)
    ensures Grown(old(m.View()), m.View(), t.id) && SameTranslations(old(m.View()), m.View())
    ensures Present(m.View(), t.id) == old(Present(m.View(), t.id)) + {(l, Prefix(PageNumber(va), l))}
    ensures g < PAGING_PAGES && next == Base(g) && m.role[g] == Table(t.id, l - 1, Prefix(PageNumber(va), l))
    ensures var n := Missing(old(Present(m.View(), t.id)), PageNumber(va), l);
            var n' := Missing(Present(m.View(), t.id), PageNumber(va), l - 1);
            && n' <= n && m.Available() == old(m.Available()) - (n - n')
            && t.kernelCount == old(t.kernelCount) + (n - n')
  {
    hide Present, Prefix, PageNumber, Upper, FreeFrames, Linked, Translate, SameTranslations, Task.Recorded;
    ghost var s := m.View();
    var newTable;
    next, newTable, g := m.MapTable(table, f, shift, l, va, t.id);
    UpperAdd(Present(s, t.id), l, Prefix(PageNumber(va), l));
    MissingAdd(Present(s, t.id), PageNumber(va), l - 1, l, Prefix(PageNumber(va), l));
    if newTable {
      RecordTable(t, next, s, m.View(), g);
    } else {
      RecordedGrows(s, m.View(), t);
    }
  }

  /** The task's top table, allocated and recorded when it has none. */
  method TopTable(m: Memory, t: Task) returns (pgd: nat, ghost g: nat)
    requires m.Valid() && t.Counted(m.View()) && t.kernelPages as object !in {m.memMap as object, m.mem}
    requires t.id !in m.roots ==> m.Available() > 0 && t.kernelCount + 1 < MAX_PROCESS_PAGES
    modifies m`role, m`roots, m.memMap, m.mem, t`pgd, t`kernelCount, t.kernelPages
    ensures m.Valid() && t.Counted(m.View())
    ensures Grown(old(m.View()), m.View(), t.id) && SameTranslations(old(m.View()), m.View())
    ensures Present(m.View(), t.id) == old(Present(m.View(), t.id))
    ensures g < PAGING_PAGES && pgd == Base(g) && m.role[g] == Table(t.id, TOP_LEVEL, 0)
    ensures t.id in m.roots && (t.id in old(m.roots) ==> m.roots == old(m.roots))
    ensures var n := if t.id in old(m.roots) then 0 else 1;
            m.Available() == old(m.Available()) - n && t.kernelCount == old(t.kernelCount) + n
  {
    hide Present, Prefix, PageNumber, Upper, FreeFrames, Translate, TableOk, Unshared, Task.Recorded;
    ghost var s := m.View();
    if t.pgd == 0 {
      var page;
      page, g := m.NewTopTable(t.id);
      t.pgd := page;
      RecordTable(t, page, s, m.View(), g);
    } else {
      g := m.roots[t.id];
    }
    pgd := t.pgd;
  }

  /** The chain of tables down to the bottom one for va, with what is missing hung in. */
  method BuildPath(m: Memory, t: Task, va: nat) returns (pte: nat, ghost f0: nat)
    requires m.Valid() && t.Counted(m.View()) && t.kernelPages as object !in {m.memMap as object, m.mem}
    requires Needed(m.View(), t.id, PageNumber(va)) <= m.Available()
    requires Needed(m.View(), t.id, PageNumber(va)) + t.kernelCount < MAX_PROCESS_PAGES
    modifies m`role, m`present, m`roots, m.memMap, m.mem, t`pgd, t`kernelCount, t.kernelPages
    ensures m.Valid() && t.Counted(m.View())
    ensures Grown(old(m.View()), m.View(), t.id) && SameTranslations(old(m.View()), m.View())
    ensures var v := PageNumber(va);
            Present(m.View(), t.id)
              == old(Present(m.View(), t.id)) + {(3, Prefix(v, 3))} + {(2, Prefix(v, 2))} + {(1, Prefix(v, 1))}
    ensures f0 < PAGING_PAGES && pte == Base(f0) && m.role[f0] == Table(t.id, 0, Prefix(PageNumber(va), 1))
    ensures m.Available() == old(m.Available()) - old(Needed(m.View(), t.id, PageNumber(va)))
    ensures t.kernelCount == old(t.kernelCount) + old(Needed(m.View(), t.id, PageNumber(va)))
  {
    hide Present, Prefix, PageNumber, Upper, FreeFrames, Linked, Translate, IsTable, TablesOf,
      Grown, Task.Counted, Memory.Valid, Memory.Available;
    ghost var s := m.View();
    var pgd, top := TopTable(m, t);
    ghost var s1 := m.View();
    PageNumberBound(va);
    var pud, f2 := MapLevel(m, t, pgd, top, 39, 3, va);
    ghost var s2 := m.View();
    var pmd, f1 := MapLevel(m, t, pud, f2, 30, 2, va);
    ghost var s3 := m.View();
    pte, f0 := MapLevel(m, t, pmd, f1, 21, 1, va);
    GrownTrans(s, s1, s2, t.id);
    GrownTrans(s, s2, s3, t.id);
    GrownTrans(s, s3, m.View(), t.id);
    SameTrans(s, s1, s2, s3, m.View());
  }

  lemma SameTrans(a: Space, b: Space, c: Space, d: Space, e: Space)
    requires SameTranslations(a, b) && SameTranslations(b, c) && SameTranslations(c, d) && SameTranslations(d, e)
    ensures SameTranslations(a, e)
  {
    hide Translate;
  }

  /** Maps a kernel page at va. Afterwards va's page translates to it, every other page of every
      task translates as before, and just the missing tables have been allocated. */
  method MapPage(m: Memory, t: Task, va: nat, page: nat, ghost g: nat)
    requires m.Valid() && t.Valid(m.View()) && t.kernelPages as object !in {m.memMap as object, m.mem, t.userPages}
    requires t.userPages as object !in {m.memMap as object, m.mem}
    requires g < PAGING_PAGES && page == Base(g) && m.role[g].Kernel? && va % PAGE_SIZE == 0
    requires t.userCount < MAX_PROCESS_PAGES
    requires Needed(m.View(), t.id, PageNumber(va)) <= m.Available()
    requires Needed(m.View(), t.id, PageNumber(va)) + t.kernelCount < MAX_PROCESS_PAGES
    modifies m, m.memMap, m.mem, t, t.kernelPages, t.userPages
    ensures m.Valid() && t.Valid(m.View()) && Mapped(old(m.View()), m.View(), t.id, g)
    ensures m.role[g] == User(t.id, PageNumber(va))
    ensures forall t', v: nat :: v < 0x10_0000_0000 ==>
              Translate(m.View(), t', v) ==
                if t' == t.id && v == PageNumber(va) then g else Translate(old(m.View()), t', v)
    ensures t.Pages() == old(t.Pages()) + [UserPage(page, va)]
    ensures m.Available() == old(m.Available()) - old(Needed(m.View(), t.id, PageNumber(va)))
    ensures t.kernelCount == old(t.kernelCount) + old(Needed(m.View(), t.id, PageNumber(va)))
  {
    hide Present, Prefix, PageNumber, FreeFrames, Linked, Translate, Paths, MappedPages, IsMemory, Needed,
      Mapped, Memory.Available, Memory.Valid, Task.Recorded;
    ghost var s, pages := m.View(), t.Pages();
    EnterPage(m, t, va, page, g);
    t.userPages[t.userCount] := UserPage(page, va);
    t.userCount := t.userCount + 1;
    assert t.Pages() == pages + [UserPage(page, va)];
    MappedSnoc(pages, UserPage(page, va));
    PathsAdd(MappedPages(pages), PageNumber(va));
    MemoryKeeps(s, m.View(), t.id, g, pages, UserPage(page, va));
  }

  /** Enters the page in the task's tables, with what is missing of them hung in first. */
  method EnterPage(m: Memory, t: Task, va: nat, page: nat, ghost g: nat)
    requires m.Valid() && t.Counted(m.View()) && t.kernelPages as object !in {m.memMap as object, m.mem}
    requires g < PAGING_PAGES && page == Base(g) && m.role[g].Kernel?
    requires Needed(m.View(), t.id, PageNumber(va)) <= m.Available()
    requires Needed(m.View(), t.id, PageNumber(va)) + t.kernelCount < MAX_PROCESS_PAGES
    modifies m, m.memMap, m.mem, t`pgd, t`kernelCount, t.kernelPages
    ensures m.Valid() && t.Counted(m.View()) && Mapped(old(m.View()), m.View(), t.id, g)
    ensures m.role[g] == User(t.id, PageNumber(va))
    ensures forall t', v: nat :: v < 0x10_0000_0000 ==>
              Translate(m.View(), t', v) ==
                if t' == t.id && v == PageNumber(va) then g else Translate(old(m.View()), t', v)
    ensures var v := PageNumber(va);
            Present(m.View(), t.id)
              == old(Present(m.View(), t.id)) + {(3, Prefix(v, 3))} + {(2, Prefix(v, 2))} + {(1, Prefix(v, 1))} + {(0, v)}
    ensures m.Available() == old(m.Available()) - old(Needed(m.View(), t.id, PageNumber(va)))
    ensures t.kernelCount == old(t.kernelCount) + old(Needed(m.View(), t.id, PageNumber(va)))
  {
    hide Present, Prefix, PageNumber, Upper, FreeFrames, Linked, Translate, IsTable, Missing, Needed, Memory.Available;
    ghost var s, vpn := m.View(), PageNumber(va);
    var pte, f0 := BuildPath(m, t, va);
    ghost var s4 := m.View();
    m.MapTableEntry(pte, f0, va, page, g, t.id);
    EntryKeeps(s4, m.View(), t, g, vpn);
    GrownMapped(s, s4, m.View(), t.id, g, f0, User(t.id, vpn));
  }

  /** Entering a page in a bottom table changes no count and no record of tables. */
  lemma EntryKeeps(s: Space, s': Space, t: Task, g: nat, vpn: nat)
    requires t.Counted(s) && g < |s.role| && !s.role[g].Table?
    requires s'.role == s.role[g := User(t.id, vpn)] && s'.roots == s.roots
    requires Present(s', t.id) == Present(s, t.id) + {(0, vpn)}
    ensures t.Counted(s')
  {
    hide Present, Upper;
    UpperAdd(Present(s, t.id), 0, vpn);
    forall j | 1 <= j <= t.kernelCount
      ensures IsTable(s', t.id, t.kernelPages[j])
    {
      assert IsTable(s, t.id, t.kernelPages[j]);
    }
  }

  /** The memory listed before stays listed memory, and the new page joins it. */
  lemma MemoryKeeps(s: Space, s': Space, t: nat, g: nat, up: seq<UserPage>, p: UserPage)
    requires Mapped(s, s', t, g) && s.role[g].Kernel?
    requires forall i :: 0 <= i < |up| ==> IsMemory(s, t, up[i])
    requires p.phys == Base(g) && p.virt % PAGE_SIZE == 0 && s'.role[g] == User(t, PageNumber(p.virt))
    ensures forall i :: 0 <= i < |up + [p]| ==> IsMemory(s', t, (up + [p])[i])
  {
    hide Present, PageNumber;
    forall i | 0 <= i < |up + [p]|
      ensures IsMemory(s', t, (up + [p])[i])
    {
      if i < |up| {
        assert IsMemory(s, t, up[i]);
      }
    }
  }

  /** Growth followed by one entry. */
  lemma GrownMapped(s: Space, s4: Space, s': Space, t: nat, g: nat, f: nat, r: Role)
    requires Grown(s, s4, t) && Sized(s') && g < PAGING_PAGES && f < PAGING_PAGES && s4.role[f].Table?
    requires s.role[g].Kernel? && s'.role == s4.role[g := r] && s'.roots == s4.roots
    requires forall h :: 0 <= h < PAGING_PAGES && h != f ==> s'.mem[h] == s4.mem[h]
    requires forall t' :: t' != t ==> Present(s', t') == Present(s4, t')
    ensures Mapped(s, s', t, g)
  {
    hide Present;
  }

  lemma PageNumberBound(va: nat)
    ensures PageNumber(va) < 0x10_0000_0000 && Prefix(PageNumber(va), 4) == 0
  {
    hide Prefix, PageNumber;
    TopPrefix(PageNumber(va));
  }

  ghost predicate Apart(m: Memory, t: Task) {
    && t.kernelPages as object !in {m.memMap as object, m.mem, t.userPages}
    && t.userPages as object !in {m.memMap as object, m.mem}
  }

  /** A fresh zeroed page mapped at va; 0 when no page is left. */
  method AllocateUserPage(m: Memory, t: Task, va: nat) returns (page: nat, ghost g: nat)
    requires m.Valid() && t.Valid(m.View()) && Apart(m, t) && va % PAGE_SIZE == 0
    requires t.userCount < MAX_PROCESS_PAGES
    requires m.Available() == 0 || Needed(m.View(), t.id, PageNumber(va)) + 1 <= m.Available()
    requires Needed(m.View(), t.id, PageNumber(va)) + t.kernelCount < MAX_PROCESS_PAGES
    modifies m, m.memMap, m.mem, t, t.kernelPages, t.userPages
    ensures m.Valid() && t.Valid(m.View()) && Grown(old(m.View()), m.View(), t.id)
    ensures page == 0 <==> old(m.Available()) == 0
    ensures page == 0 ==> m.View() == old(m.View()) && t.Pages() == old(t.Pages()) && t.kernelCount == old(t.kernelCount)
    ensures page != 0 ==> g < PAGING_PAGES && page == Base(g) && old(m.role)[g].Free? && m.mem[g] == Zeros()
                          && m.role[g] == User(t.id, PageNumber(va))
                          && t.Pages() == old(t.Pages()) + [UserPage(page, va)]
    ensures page != 0 ==> forall t', v: nat :: v < 0x10_0000_0000 ==>
              Translate(m.View(), t', v) ==
                if t' == t.id && v == PageNumber(va) then g else Translate(old(m.View()), t', v)
    ensures page != 0 ==> m.Available() == old(m.Available()) - 1 - old(Needed(m.View(), t.id, PageNumber(va)))
    ensures page != 0 ==> t.kernelCount == old(t.kernelCount) + old(Needed(m.View(), t.id, PageNumber(va)))
  {
    hide Present, Prefix, PageNumber, FreeFrames, Linked, Translate, Upper, Paths, MappedPages, IsTable, IsMemory,
      Missing, Zeros;
    ghost var s := m.View();
    g := 0;
    page := m.GetFreePage();
    if page != 0 {
      g :| 0 <= g < PAGING_PAGES && page == Base(g) && s.role[g].Free? && m.View() == Take(s, g, Zeros());
      ghost var s1 := m.View();
      TakeKeeps(s, g, t);
      MapPage(m, t, va, page, g);
      TakeMapped(s, m.View(), t.id, g);
    } else {
      GrownRefl(s, t.id);
    }
  }

  lemma GrownRefl(s: Space, t: nat)
    requires Sized(s)
    ensures Grown(s, s, t)
  {
    hide Present;
  }

  /** Taking a free page for the kernel concerns no task. */
  lemma TakeKeeps(s: Space, g: nat, t: Task)
    requires Linked(s) && g < PAGING_PAGES && s.role[g].Free? && t.Valid(s)
    ensures var s' := Take(s, g, Zeros());
            Sized(s') && Linked(s') && SameTranslations(s, s') && t.Valid(s') && Grown(s, s', t.id)
            && forall t', v :: Needed(s', t', v) == Needed(s, t', v)
  {
    hide Translate, TableOk, Unshared, Upper, Paths, MappedPages, PageNumber, Zeros, Missing, Prefix;
    var s' := Take(s, g, Zeros());
    SetContents(s, g, Zeros(), Kernel);
    SamePresent(s, s');
    assert Present(s', t.id) == Present(s, t.id);
    forall j | 1 <= j <= t.kernelCount
      ensures IsTable(s', t.id, t.kernelPages[j])
    {
      assert IsTable(s, t.id, t.kernelPages[j]);
    }
    forall i | 0 <= i < t.userCount
      ensures IsMemory(s', t.id, t.userPages[i])
    {
      assert IsMemory(s, t.id, t.userPages[i]);
    }
  }

  lemma TakeMapped(s: Space, s': Space, t: nat, g: nat)
    requires Sized(s) && g < PAGING_PAGES && s.role[g].Free? && Mapped(Take(s, g, Zeros()), s', t, g)
    ensures Grown(s, s', t)
  {
    hide Zeros;
    SamePresent(s, Take(s, g, Zeros()));
  }

  /** The missing tables are what a page's path adds. */
  lemma MissingCounts(present: set<(nat, nat)>, v: nat)
    ensures var path := present + {(3, Prefix(v, 3))} + {(2, Prefix(v, 2))} + {(1, Prefix(v, 1))} + {(0, v)};
            |Upper(path)| == |Upper(present)| + Missing(present, v, TOP_LEVEL)
  {
    hide Prefix, Upper;
    var p3 := present + {(3, Prefix(v, 3))};
    var p2 := p3 + {(2, Prefix(v, 2))};
    var p1 := p2 + {(1, Prefix(v, 1))};
    UpperAdd(present, 3, Prefix(v, 3));
    UpperAdd(p3, 2, Prefix(v, 2));
    UpperAdd(p2, 1, Prefix(v, 1));
    UpperAdd(p1, 0, v);
    assert Missing(present, v, 0) == 0;
    assert Missing(present, v, 1) == if (1, Prefix(v, 1)) in present then 0 else 1;
    assert Missing(present, v, 2) == Missing(present, v, 1) + if (2, Prefix(v, 2)) in present then 0 else 1;
  }

  lemma UpperMonotone(a: set<nat>, b: set<nat>)
    requires a <= b
    ensures |Upper(Paths(a))| <= |Upper(Paths(b))|
  {
    hide Prefix;
    assert Upper(Paths(a)) <= Upper(Paths(b));
    SubsetSize(Upper(Paths(a)), Upper(Paths(b)));
  }

  lemma {:induction false} SubsetSize(a: set<(nat, nat)>, b: set<(nat, nat)>)
    requires a <= b
    ensures |a| <= |b|
  {
    if x :| x in a {
      SubsetSize(a - {x}, b - {x});
    }
  }

  lemma MappedMonotone(up: seq<UserPage>, i: nat)
    requires i <= |up|
    ensures MappedPages(up[..i]) <= MappedPages(up)
  {
    hide PageNumber;
    forall v | v in MappedPages(up[..i])
      ensures v in MappedPages(up)
    {
      var j :| 0 <= j < i && v == PageNumber(up[..i][j].virt);
      assert up[j] == up[..i][j];
    }
  }

  /** Each of the first n listed pages of the parent has a copy of its contents in a frame of
      the child's own that was free before. */
  ghost predicate Copied(before: Space, s: Space, parent: nat, child: nat, up: seq<UserPage>, n: nat)
    requires Sized(before) && Sized(s)
  {
    forall i :: 0 <= i < n <= |up| ==> CopiedPage(before, s, parent, child, PageNumber(up[i].virt))
  }

  ghost predicate CopiedPage(before: Space, s: Space, parent: nat, child: nat, v: nat)
    requires Sized(before) && Sized(s)
  {
    var h, g := Translate(before, parent, v), Translate(s, child, v);
    && 0 <= h < PAGING_PAGES && 0 <= g < PAGING_PAGES
    && before.role[g].Free? && s.role[g] == User(child, v) && s.mem[g] == before.mem[h]
  }

  /** memcpy of a page: the contents of frame h go to frame g, which is task memory. */
  method CopyPage(m: Memory, h: nat, g: nat)
    requires m.Valid() && h < PAGING_PAGES && g < PAGING_PAGES && m.role[g].User?
    modifies m.mem
    ensures m.Valid() && SameTranslations(old(m.View()), m.View()) && m.Available() == old(m.Available())
    ensures m.mem[..] == old(m.mem[..])[g := old(m.mem[h])]
  {
    hide Linked, Translate, FreeFrames;
    ghost var s := m.View();
    CopyKeeps(s, m.mem[h], g);
    m.mem[g] := m.mem[h];
    assert m.View() == s.(mem := s.mem[g := s.mem[h]]);
  }

  lemma CopyKeeps(s: Space, page: seq<nat>, g: nat)
    requires Sized(s) && Linked(s) && |page| == WORDS && g < PAGING_PAGES && s.role[g].User?
    ensures var s' := s.(mem := s.mem[g := page]);
            Sized(s') && Linked(s') && SameTranslations(s, s') && FreeFrames(s') == FreeFrames(s)
  {
    hide Translate, TableOk, Unshared, Present;
    assert s.role[g := s.role[g]] == s.role;
    SetContents(s, g, page, s.role[g]);
  }

  // Copying a parent's memory

  /** All frames a child takes for copies of the first n listed pages: one each, and the tables
      that lead to them. */
  ghost function Cost(up: seq<UserPage>, n: nat): nat
    requires n <= |up|
  {
    n + |Upper(Paths(MappedPages(up[..n])))| + (if n > 0 then 1 else 0)
  }

  /** Memory runs out, if at all, between two copied pages and not while hanging tables. */
  ghost predicate RunsOutBetween(available: nat, up: seq<UserPage>) {
    available >= Cost(up, |up|) || exists n :: 0 <= n < |up| && available == Cost(up, n)
  }

  lemma CostStep(s: Space, child: nat, up: seq<UserPage>, i: nat)
    requires i < |up| && Present(s, child) == Paths(MappedPages(up[..i])) && (child in s.roots <==> i > 0)
    ensures Cost(up, i + 1) == Cost(up, i) + 1 + Needed(s, child, PageNumber(up[i].virt))
    ensures TablesOf(s, child) + Needed(s, child, PageNumber(up[i].virt)) == TablesAfter(up, i + 1)
  {
    hide Prefix, Upper, Paths, MappedPages, PageNumber, Missing, Present;
    var v := PageNumber(up[i].virt);
    assert up[..i + 1] == up[..i] + [up[i]];
    MappedSnoc(up[..i], up[i]);
    PathsAdd(MappedPages(up[..i]), v);
    MissingCounts(Paths(MappedPages(up[..i])), v);
  }

  /** The tables that lead to the first n > 0 listed pages. */
  ghost function TablesAfter(up: seq<UserPage>, n: nat): nat
    requires n <= |up|
  {
    |Upper(Paths(MappedPages(up[..n])))| + 1
  }

  lemma TablesGrow(up: seq<UserPage>, i: nat, j: nat)
    requires i <= j <= |up|
    ensures TablesAfter(up, i) <= TablesAfter(up, j)
  {
    hide Upper, Paths, MappedPages;
    MappedMonotone(up[..j], i);
    assert up[..j][..i] == up[..i];
    UpperMonotone(MappedPages(up[..i]), MappedPages(up[..j]));
  }

  /** What is left before page i is enough for it, or nothing. */
  lemma EnoughLeft(s: Space, child: nat, up: seq<UserPage>, i: nat, total: nat, left: nat)
    requires i < |up| && Present(s, child) == Paths(MappedPages(up[..i])) && (child in s.roots <==> i > 0)
    requires RunsOutBetween(total, up) && total == left + Cost(up, i)
    ensures left == 0 || left >= 1 + Needed(s, child, PageNumber(up[i].virt))
    ensures left == 0 ==> total < Cost(up, |up|)
  {
    hide Upper, Paths, MappedPages, PageNumber, Missing, Present;
    CostStep(s, child, up, i);
    TablesGrow(up, i + 1, |up|);
    if total < Cost(up, |up|) {
      var n :| 0 <= n < |up| && total == Cost(up, n);
      if n < i {
        TablesGrow(up, n, i);
      } else if n > i {
        TablesGrow(up, i + 1, n);
      }
    }
  }

  lemma TableCount(s: Space, t: Task)
    requires Linked(s) && t.Valid(s)
    ensures t.userCount > 0 ==> t.kernelCount == TablesAfter(t.Pages(), t.userCount)
    ensures t.id !in s.roots ==> t.kernelCount == 0 && t.userCount == 0
  {
    hide Upper, PageNumber, TableOk, Unshared, Prefix, IsTable, IsMemory, Present;
    var up := t.Pages();
    assert up[..t.userCount] == up;
    if t.userCount > 0 {
      var v := PageNumber(up[0].virt);
      assert v in MappedPages(up);
      PathsBottom(MappedPages(up), v);
    }
    if t.id !in s.roots {
      NothingPresent(s, t.id);
      assert Upper(Present(s, t.id)) == {} by { EmptyUpper(); }
    }
  }

  /** Two lists cover the same virtual pages, in the same order. */
  ghost predicate SameVirtual(a: seq<UserPage>, b: seq<UserPage>) {
    |a| == |b| && forall i :: 0 <= i < |a| ==> a[i].virt == b[i].virt
  }

  lemma {:induction false} SameMapped(a: seq<UserPage>, b: seq<UserPage>)
    requires SameVirtual(a, b)
    ensures MappedPages(a) == MappedPages(b)
  {
    hide MappedPages, PageNumber;
    if |a| > 0 {
      var n := |a| - 1;
      SameMapped(a[..n], b[..n]);
      MappedSnoc(a[..n], a[n]);
      MappedSnoc(b[..n], b[n]);
      assert a == a[..n] + [a[n]] && b == b[..n] + [b[n]];
    } else {
      assert a == b;
    }
  }

  lemma NothingCopied(s: Space, parent: nat, child: nat, up: seq<UserPage>)
    requires Sized(s)
    ensures Copied(s, s, parent, child, up, 0) && OtherTranslations(s, s, child)
  {}

  /** A task's records are not about the contents of pages. */
  lemma ContentsAside(s: Space, s': Space, t: Task)
    requires t.Valid(s) && s'.role == s.role && s'.present == s.present && s'.roots == s.roots
    ensures t.Valid(s')
  {
    hide Paths, MappedPages, Upper, PageNumber;
    OthersSame(s, s', t);
  }

  lemma OthersSame(s: Space, s': Space, t: Task)
    requires t.Valid(s) && s'.role == s.role
    ensures forall j :: 1 <= j <= t.kernelCount ==> IsTable(s', t.id, t.kernelPages[j])
    ensures forall i :: 0 <= i < t.userCount ==> IsMemory(s', t.id, t.userPages[i])
  {
    hide Paths, MappedPages, Upper, PageNumber, Present;
    forall j | 1 <= j <= t.kernelCount
      ensures IsTable(s', t.id, t.kernelPages[j])
    {
      assert IsTable(s, t.id, t.kernelPages[j]);
    }
    forall i | 0 <= i < t.userCount
      ensures IsMemory(s', t.id, t.userPages[i])
    {
      assert IsMemory(s, t.id, t.userPages[i]);
    }
  }

  lemma CostZero(up: seq<UserPage>)
    ensures Cost(up, 0) == 0 && MappedPages(up[..0]) == {}
  {
    hide Paths, MappedPages;
    EmptyUpper();
    assert up[..0] == [];
  }

  /** A listed page is aligned and mapped, through the task's own top table. */
  lemma ListedPage(s: Space, t: Task, i: nat)
    requires Linked(s) && t.Valid(s) && i < t.userCount
    ensures t.userPages[i].virt % PAGE_SIZE == 0 && t.id in s.roots && t.pgd == Base(s.roots[t.id])
    ensures var v := PageNumber(t.userPages[i].virt);
            0 <= Translate(s, t.id, v) == Walk(s.mem, (t.pgd - LOW_MEMORY) / PAGE_SIZE, TOP_LEVEL, v) < PAGING_PAGES
  {
    hide PageNumber, TableOk, Unshared, Walk, Upper, IsTable;
    var v := PageNumber(t.userPages[i].virt);
    assert IsMemory(s, t.id, t.userPages[i]);
    assert v == PageNumber(t.Pages()[i].virt) && v in MappedPages(t.Pages());
    PathsBottom(MappedPages(t.Pages()), v);
    TranslateFinds(s, t.id, v);
  }

  lemma EmptyUpper()
    ensures Upper({}) == {} && Paths({}) == {} && MappedPages([]) == {}
  {
    hide Prefix, PageNumber;
  }

  /** Growth for one task leaves the others as they are. */
  lemma OthersGrow(s: Space, s': Space, t: nat, other: Task)
    requires Grown(s, s', t) && other.id != t && other.Valid(s)
    ensures other.Valid(s')
  {
    hide Present, PageNumber, Paths, MappedPages, Upper;
    assert Present(s', other.id) == Present(s, other.id);
    forall j | 1 <= j <= other.kernelCount
      ensures IsTable(s', other.id, other.kernelPages[j])
    {
      assert IsTable(s, other.id, other.kernelPages[j]);
    }
    forall i | 0 <= i < other.userCount
      ensures IsMemory(s', other.id, other.userPages[i])
    {
      assert IsMemory(s, other.id, other.userPages[i]);
    }
  }

  ghost predicate OtherTranslations(s: Space, s': Space, t: nat) {
    forall t', v: nat :: t' != t && v < 0x10_0000_0000 ==> Translate(s', t', v) == Translate(s, t', v)
  }

  lemma ListFits(s: Space, t: Task)
    requires t.Valid(s)
    ensures t.userCount <= MAX_PROCESS_PAGES == t.userPages.Length
  {
    hide Present, Paths, Upper, IsTable, IsMemory;
  }

  /** Page i has been entered in frame g and then been given the contents of frame h. */
  lemma CopyStep(before: Space, s: Space, s1: Space, s2: Space, parent: nat, child: nat, up: seq<UserPage>, i: nat,
                 h: nat, g: nat)
    requires i < |up| && parent != child && Linked(before)
    requires Grown(before, s, child) && Grown(s, s1, child) && OtherTranslations(before, s, child)
    requires forall t', v: nat :: t' != child && v < 0x10_0000_0000 ==> Translate(s1, t', v) == Translate(s, t', v)
    requires Copied(before, s, parent, child, up, i)
    requires h < PAGING_PAGES && h == Translate(s, parent, PageNumber(up[i].virt))
    requires g < PAGING_PAGES && s.role[g].Free? && s1.role[g] == User(child, PageNumber(up[i].virt))
    requires forall v: nat :: v < 0x10_0000_0000 ==>
               Translate(s1, child, v) == if v == PageNumber(up[i].virt) then g else Translate(s, child, v)
    requires s2 == s1.(mem := s1.mem[g := s1.mem[h]]) && SameTranslations(s1, s2)
    ensures Sized(s2) && Grown(before, s2, child) && OtherTranslations(before, s2, child)
            && Copied(before, s2, parent, child, up, i + 1)
  {
    hide Translate, Linked, PageNumber, Present;
    assert Present(s2, child) == Present(s1, child) && forall t :: Present(s2, t) == Present(s1, t) by { SamePresent(s1, s2); }
    GrownTrans(before, s, s1, child);
    forall j | 0 <= j < i + 1
      ensures CopiedPage(before, s2, parent, child, PageNumber(up[j].virt))
    {
      var v := PageNumber(up[j].virt);
      TranslateFinds(before, parent, v);
      if v != PageNumber(up[i].virt) {
        assert CopiedPage(before, s, parent, child, v);
      }
    }
  }

  /** The state of copying after i pages: the child's memory is those pages, copied, nothing
      else has changed, and the frames taken are just what they cost. */
  ghost predicate Copying(s0: Space, m: Memory, src: Task, dst: Task, i: nat, total: nat)
    reads m, m.memMap, m.mem, src, src.userPages, src.kernelPages, dst, dst.userPages, dst.kernelPages
  {
    && m.Valid() && src.Valid(m.View()) && dst.Valid(m.View()) && i <= src.userCount
    && Sized(s0) && Grown(s0, m.View(), dst.id) && OtherTranslations(s0, m.View(), dst.id)
    && dst.userCount == i && (dst.id in m.roots <==> i > 0)
    && SameVirtual(dst.Pages(), src.Pages()[..i])
    && Copied(s0, m.View(), src.id, dst.id, src.Pages(), i)
    && total == m.Available() + Cost(src.Pages(), i)
  }

  lemma CopyBegins(s0: Space, m: Memory, src: Task, dst: Task)
    requires s0 == m.View() && m.Valid() && src.Valid(s0) && dst.Valid(s0) && dst.id !in m.roots
    ensures Copying(s0, m, src, dst, 0, m.Available())
  {
    hide Present, Linked, Translate, FreeFrames, Upper, Paths, MappedPages, PageNumber, IsTable, IsMemory;
    hide Copied, Grown, Cost, OtherTranslations;
    TableCount(s0, dst);
    GrownRefl(s0, dst.id);
    CostZero(src.Pages());
    NothingCopied(s0, src.id, dst.id, src.Pages());
  }

  /** memcpy from the parent's page at va, which the hardware finds through the parent's tables, to
      the child's new page. */
  method CopyContents(m: Memory, src: Task, ghost dst: Task, ghost i: nat, va: nat, page: nat, ghost g: nat)
      returns (ghost h: nat)
    requires m.Valid() && src.Valid(m.View()) && dst.Valid(m.View()) && Apart(m, src) && Apart(m, dst)
    requires i < src.userCount && src.userCount <= src.userPages.Length && va == src.userPages[i].virt
    requires g < PAGING_PAGES && page == Base(g) && m.role[g].User?
    modifies m.mem
    ensures m.Valid() && src.Valid(m.View()) && dst.Valid(m.View()) && m.Available() == old(m.Available())
    ensures h < PAGING_PAGES && h == Translate(old(m.View()), src.id, PageNumber(va))
    ensures SameTranslations(old(m.View()), m.View())
    ensures m.View() == old(m.View()).(mem := old(m.mem[..])[g := old(m.mem[h])])
  {
    hide Present, Linked, Translate, FreeFrames, PageNumber, SameTranslations, Task.Valid, Walk;
    ghost var s1 := m.View();
    ListedPage(s1, src, i);
    var from := Walk(m.mem[..], (src.pgd - LOW_MEMORY) / PAGE_SIZE, TOP_LEVEL, PageNumber(va));
    CopyPage(m, from, (page - LOW_MEMORY) / PAGE_SIZE);
    ContentsAside(s1, m.View(), src);
    ContentsAside(s1, m.View(), dst);
    h := from;
  }

  /** Copies page i, unless no page is left. */
  method CopyOne(m: Memory, src: Task, dst: Task, i: nat, ghost s0: Space, ghost total: nat) returns (ok: bool)
    requires Copying(s0, m, src, dst, i, total) && i < src.userCount
    requires Linked(s0) && src != dst && src.id != dst.id && Apart(m, src) && Apart(m, dst)
    requires {src.kernelPages as object, src.userPages} !! {dst.kernelPages as object, dst.userPages}
    requires RunsOutBetween(total, src.Pages())
    modifies m, m.memMap, m.mem, dst, dst.kernelPages, dst.userPages
    ensures Copying(s0, m, src, dst, if ok then i + 1 else i, total)
    ensures !ok ==> m.Available() == 0 && total < Cost(src.Pages(), src.userCount)
  {
    hide Present, Linked, Translate, FreeFrames, Upper, Paths, MappedPages, PageNumber, IsTable, IsMemory, Missing;
    hide Prefix, Zeros, Copied, Grown, RunsOutBetween, Cost, TablesAfter, OtherTranslations, SameTranslations, Task.Valid;
    ghost var s := m.View();
    ListFits(s, src);
    ListFits(s, dst);
    ghost var up, pages := src.Pages(), dst.Pages();
    BeforeCopy(s, src, dst, i, total, m.Available());
    var va := src.userPages[i].virt;
    var page, g := AllocateUserPage(m, dst, va);
    ListFits(m.View(), dst);
    if page == 0 {
      assert m.View() == s && dst.Pages() == pages && dst.userCount == i;
      return false;
    }
    ghost var s1 := m.View();
    OthersGrow(s, s1, dst.id, src);
    ghost var h := CopyContents(m, src, dst, i, va, page, g);
    CopyStep(s0, s, s1, m.View(), src.id, dst.id, up, i, h, g);
    TableCount(m.View(), dst);
    ok := true;
  }

  lemma BeforeCopy(s: Space, src: Task, dst: Task, i: nat, total: nat, left: nat)
    requires Linked(s) && src.Valid(s) && dst.Valid(s) && i < src.userCount
    requires SameVirtual(dst.Pages(), src.Pages()[..i]) && (dst.id in s.roots <==> i > 0)
    requires RunsOutBetween(total, src.Pages()) && total == left + Cost(src.Pages(), i)
    ensures var needed := Needed(s, dst.id, PageNumber(src.userPages[i].virt));
            && (left == 0 || left >= 1 + needed) && needed + dst.kernelCount < MAX_PROCESS_PAGES
            && Cost(src.Pages(), i + 1) == Cost(src.Pages(), i) + 1 + needed
    ensures left == 0 ==> total < Cost(src.Pages(), src.userCount)
    ensures src.userPages[i].virt % PAGE_SIZE == 0
  {
    hide Linked, Translate, Upper, Paths, MappedPages, PageNumber, IsTable, IsMemory, Missing;
    hide Prefix, RunsOutBetween, Cost, TablesAfter, Present;
    var up := src.Pages();
    TableCount(s, src);
    TableCount(s, dst);
    SameMapped(dst.Pages(), up[..i]);
    EnoughLeft(s, dst.id, up, i, total, left);
    CostStep(s, dst.id, up, i);
    TablesGrow(up, i + 1, |up|);
    ListedPage(s, src, i);
  }

  /** Copies the pages of the parent's memory, in the order they were mapped, to fresh pages of
      the child, which has none yet, until memory runs out. */
  method CopyVirtMemory(m: Memory, src: Task, dst: Task) returns (r: int)
    requires m.Valid() && src.Valid(m.View()) && dst.Valid(m.View()) && src != dst && src.id != dst.id
    requires Apart(m, src) && Apart(m, dst)
    requires {src.kernelPages as object, src.userPages} !! {dst.kernelPages as object, dst.userPages}
    requires dst.id !in m.roots && RunsOutBetween(m.Available(), src.Pages())
    modifies m, m.memMap, m.mem, dst, dst.kernelPages, dst.userPages
    ensures m.Valid() && src.Valid(m.View()) && dst.Valid(m.View()) && Grown(old(m.View()), m.View(), dst.id)
    ensures r == if old(m.Available()) >= Cost(src.Pages(), src.userCount) then 0 else -1
    ensures dst.userCount <= src.userCount && (r == 0 ==> dst.userCount == src.userCount)
    ensures m.Available() == old(m.Available()) - Cost(src.Pages(), dst.userCount) && (r == -1 ==> m.Available() == 0)
    ensures Cost(src.Pages(), dst.userCount) == dst.userCount + dst.kernelCount
    ensures SameVirtual(dst.Pages(), src.Pages()[..dst.userCount])
    ensures Copied(old(m.View()), m.View(), src.id, dst.id, src.Pages(), dst.userCount)
    ensures OtherTranslations(old(m.View()), m.View(), dst.id)
  {
    hide Present, Translate, FreeFrames, Upper, Paths, MappedPages, IsTable, IsMemory, Copied, Grown,
      RunsOutBetween, Cost, OtherTranslations;
    ghost var s0 := m.View();
    CopyBegins(s0, m, src, dst);
    var i := 0;
    while i < src.userCount
      invariant 0 <= i <= src.userCount && Copying(s0, m, src, dst, i, old(m.Available()))
    {
      var ok := CopyOne(m, src, dst, i, s0, old(m.Available()));
      if !ok {
        CostCounted(m.View(), src.Pages(), dst, i);
        return -1;
      }
      i := i + 1;
    }
    CostCounted(m.View(), src.Pages(), dst, i);
    r := 0;
  }

  /** What the first n pages have cost is what the child's records count. */
  lemma CostCounted(s: Space, up: seq<UserPage>, t: Task, n: nat)
    requires Linked(s) && t.Valid(s) && t.userCount == n <= |up|
    requires SameVirtual(t.Pages(), up[..n]) && (t.id in s.roots <==> n > 0)
    ensures Cost(up, n) == n + t.kernelCount
  {
    hide Upper, Paths, MappedPages, PageNumber, TableOk, Unshared, IsTable, IsMemory, Present;
    TableCount(s, t);
    SameMapped(t.Pages(), up[..n]);
    if n > 0 {
      assert t.Pages()[..n] == t.Pages();
    } else {
      CostZero(up);
    }
  }

  /** The frames a task has been given for its memory cost just what its records count. */
  lemma OwnCost(s: Space, t: Task)
    requires Linked(s) && t.Valid(s)
    ensures t.userCount <= t.userPages.Length && t.kernelCount < MAX_PROCESS_PAGES
    ensures Cost(t.Pages(), t.userCount) <= t.userCount + t.kernelCount < 2 * MAX_PROCESS_PAGES
  {
    hide Upper, Paths, MappedPages, PageNumber, TableOk, Unshared, IsTable, IsMemory, Present;
    TableCount(s, t);
    assert t.Pages()[..t.userCount] == t.Pages();
    CostZero(t.Pages());
  }
}
