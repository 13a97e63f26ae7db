/** All tasks together: booting, forking, loading a program and handling faults, and what keeps
    their memories apart whatever the order in which these happen. */
module KernelTasks {
  import opened BitOps
  import opened PageTree
  import opened PageUpdates
  import opened PageTables
  import opened AddressSpaces

  const NR_TASKS: nat := 64

  ghost function Arrays(t: Task): set<object> {
    {t.kernelPages as object, t.userPages}
  }

  ghost predicate Disjoint(tasks: seq<Task>) {
    forall i, j :: 0 <= i < j < |tasks| ==> tasks[i] != tasks[j] && Arrays(tasks[i]) !! Arrays(tasks[j])
  }

  /** All objects that tasks keep their records in. */
  ghost function Records(tasks: seq<Task>): set<object> {
    (set i | 0 <= i < |tasks| :: tasks[i] as object)
      + (set i | 0 <= i < |tasks| :: tasks[i].kernelPages as object)
      + (set i | 0 <= i < |tasks| :: tasks[i].userPages as object)
  }

  /** Tasks are numbered in order and keep their records separately; each one's records are
      right, and a number not given out yet has no tables. */
  ghost predicate WellKept(m: Memory, tasks: seq<Task>)
    reads m, m.memMap, m.mem, Records(tasks)
  {
    && m.Valid() && Disjoint(tasks)
    && (forall i :: 0 <= i < |tasks| ==> tasks[i].id == i && Apart(m, tasks[i]))
    && (forall i :: 0 <= i < |tasks| ==> tasks[i].Valid(m.View()))
    && (forall t :: t in m.roots ==> t < |tasks|)
  }

  // Accounting for all frames

  /** The frames in each task's records. */
  ghost function Counts(tasks: seq<Task>): (c: seq<nat>)
    reads tasks
    ensures |c| == |tasks| && forall i :: 0 <= i < |c| ==> c[i] == tasks[i].userCount + tasks[i].kernelCount
  {
    if tasks == [] then []
    else
      var t := tasks[|tasks| - 1];
      Counts(tasks[..|tasks| - 1]) + [t.userCount + t.kernelCount]
  }

  ghost function Sum(c: seq<nat>): nat {
    if c == [] then 0 else Sum(c[..|c| - 1]) + c[|c| - 1]
  }

  lemma {:induction false} SumUpdate(c: seq<nat>, i: nat, n: nat)
    requires i < |c|
    ensures Sum(c[i := n]) == Sum(c) - c[i] + n
  {
    var k := |c| - 1;
    if i == k {
      assert c[i := n][..k] == c[..k];
    } else {
      SumUpdate(c[..k], i, n);
      assert c[i := n][..k] == c[..k][i := n];
    }
  }

  lemma {:induction false} SumBound(c: seq<nat>, b: nat)
    requires forall i :: 0 <= i < |c| ==> c[i] <= b
    ensures Sum(c) <= b * |c|
  {
    if c != [] {
      SumBound(c[..|c| - 1], b);
    }
  }

  /** Every frame is free, in some task's records, or holds a task structure; the initial task's is
      no frame. */
  ghost predicate Accounted(m: Memory, tasks: seq<Task>)
    requires m.Valid()
    reads m, m.memMap, m.mem, tasks
  {
    m.Available() + Sum(Counts(tasks)) + |tasks| == PAGING_PAGES + 1
  }

  lemma Accounts(m: Memory, tasks: seq<Task>)
    requires m.Valid() && Accounted(m, tasks)
    ensures m.Available() + Sum(Counts(tasks)) + |tasks| == PAGING_PAGES + 1
  {}

  /** So many tasks with so many places in their lists cannot use memory up. */
  lemma FramesLeft(m: Memory, tasks: seq<Task>)
    requires WellKept(m, tasks) && Accounted(m, tasks) && |tasks| <= NR_TASKS
    ensures m.Available() >= PAGING_PAGES - 2 * MAX_PROCESS_PAGES * NR_TASKS
  {
    hide Linked, FreeFrames, Task.Valid, Sum;
    forall i | 0 <= i < |tasks|
      ensures Counts(tasks)[i] < 2 * MAX_PROCESS_PAGES
    {
      OwnCost(m.View(), tasks[i]);
    }
    SumBound(Counts(tasks), 2 * MAX_PROCESS_PAGES - 1);
  }

  /** One task's records have grown by as much as the free frames have become fewer. */
  lemma CountsMoved(was: seq<nat>, now: seq<nat>, t: nat)
    requires t < |was| == |now| && forall i :: 0 <= i < |was| && i != t ==> now[i] == was[i]
    ensures Sum(now) == Sum(was) - was[t] + now[t]
  {
    SumUpdate(was, t, now[t]);
    assert now == was[t := now[t]];
  }

  class Kernel {
    const m: Memory
    var tasks: seq<Task>
    var current: nat
    var ind: nat

    ghost predicate Valid()
      reads this, m, m.memMap, m.mem, Records(tasks)
    {
      current < |tasks| <= NR_TASKS && WellKept(m, tasks) && Accounted(m, tasks)
    }

    /** Boot: all memory free, and the initial task with an empty address space. */
    constructor ()
      ensures Valid() && |tasks| == 1 && current == 0 && tasks[0].userCount == 0
      ensures m.Available() == PAGING_PAGES
    {
      m := new Memory();
      var init := new Task(0);
      tasks := [init];
      current := 0;
      ind := 1;
      new;
      EmptyTask(m.View(), init);
    }

    /** Any other task becomes current. */
    method SwitchTo(next: nat)
      requires Valid() && next < |tasks|
      modifies this`current
      ensures Valid() && current == next && tasks == old(tasks)
    {
      hide WellKept, Accounted;
      assert this as object !in Records(tasks);
      current := next;
    }

    /** A fork. The child gets the next number and, unless it is a kernel thread, a copy of all of
        the parent's memory: in no state that calls lead to are frames too few for that. */
    method CopyProcess(kthread: bool) returns (pid: int)
      requires Valid() && |tasks| < NR_TASKS
      modifies this, m, m.memMap, m.mem
      ensures Valid() && current == old(current)
      ensures pid == old(|tasks|) && |tasks| == old(|tasks|) + 1 && tasks[..pid] == old(tasks)
      ensures Forked(old(m.View()), m.View(), tasks[current], tasks[pid], kthread)
    {
      hide WellKept, Forked, Linked, Translate, FreeFrames, Sum, Counts, Accounted, Sized, Memory.Valid;
      KeptFacts(m, tasks);
      FramesLeft(m, tasks);
      Accounts(m, tasks);
      ghost var s, records := m.View(), Records(tasks);
      var page, g := TakePage(m, tasks);
      if page == 0 {
        assert false;
        return -1;
      }
      assert forall o :: o in records ==> allocated(o);
      var p := NewChild(m, tasks, tasks[current], kthread, s, g);
      pid := |tasks|;
      assert this as object !in Records(tasks + [p]);
      tasks := tasks + [p];
    }

    /** Loads a program: a fresh page at address 0 of the current task, with the code at its start. */
    method MoveToUserMode(code: seq<nat>) returns (r: int)
      requires Valid() && |code| <= WORDS && Room(m, tasks[current], 0)
      modifies m, m.memMap, m.mem, tasks[current], tasks[current].kernelPages, tasks[current].userPages
      ensures Valid() && r == 0
      ensures FreshlyMapped(old(m.View()), m.View(), current, 0, code + Zeros()[|code|..])
    {
      hide WellKept, Translate, Linked, Present, FreeFrames, Zeros, Grown, FreshlyMapped, Room, PageNumber, Sum, Accounted;
      PageZero();
      KeptFacts(m, tasks);
      ghost var s := m.View();
      assert this as object !in Records(tasks);
      var page, g := AllocateFor(m, tasks, current, 0);
      if page == 0 {
        assert false;
        return -1;
      }
      ghost var s1 := m.View();
      KeptFacts(m, tasks);
      var f := (page - LOW_MEMORY) / PAGE_SIZE;
      WritePage(m, tasks, f, code + m.mem[f][|code|..]);
      WrittenFresh(s, s1, m.View(), current, 0, g, code);
      r := 0;
    }

    /** An abort. On a translation fault the page of the faulting address is mapped to a fresh one;
        the second and later faults are reported as failures nevertheless. */
    method MemAbort(address: nat, esr: nat) returns (r: int)
      requires Valid() && address < Pow2(64) && Room(m, tasks[current], EntryAddress(address))
      modifies this`ind, m, m.memMap, m.mem, tasks[current], tasks[current].kernelPages, tasks[current].userPages
      ensures Valid() && current == old(current) && tasks == old(tasks)
      ensures if IsTranslationFault(esr) then FreshlyMapped(old(m.View()), m.View(), current, PageNumber(address), Zeros())
              else m.View() == old(m.View())
      ensures r == if IsTranslationFault(esr) && old(ind) < 2 then 0 else -1
    {
      hide WellKept, Translate, Linked, Present, FreeFrames, Zeros, Grown, FreshlyMapped, EntryAddress, And, Pow2,
        Room, Sum, Accounted;
      if IsTranslationFault(esr) {
        PageOfAddress(address);
        assert this as object !in Records(tasks);
        var page, g := AllocateFor(m, tasks, current, EntryAddress(address));
        if page == 0 {
          assert false;
          return -1;
        }
        ind := ind + 1;
        if ind > 2 {
          return -1;
        }
        return 0;
      }
      r := -1;
    }
  }

  /** The fault status is a translation fault at some level. */
  predicate IsTranslationFault(esr: nat) {
    And(And(esr, 0x3f), 0x3c) == 4
  }

  /** The status is one of the four for translation faults, at levels 0 to 3. */
  lemma FaultStatus(esr: nat)
    ensures IsTranslationFault(esr) <==> 4 <= esr % 64 <= 7
  {
    hide And, Low, Pow2, Shr;
    Pow2Values();
    AndMask(esr, 6);
    SplitUnique(esr / 64, esr % 64, 6);
    AndHigh(esr % 64, 2, 6);
    SplitUnique(esr % 64 / 4, esr % 64 % 4, 2);
    Status(esr);
  }

  lemma Status(esr: nat)
    ensures esr == esr / 64 * 64 + esr % 64 && esr % 64 == esr % 64 / 4 * 4 + esr % 64 % 4
    ensures esr % 64 - esr % 64 % 4 == 4 <==> 4 <= esr % 64 <= 7
  {}

  /** There are places in the task's lists for the page and for the tables it needs. */
  ghost predicate Room(m: Memory, t: Task, va: nat)
    requires m.Valid()
    reads m, m.memMap, m.mem, t
  {
    t.userCount < MAX_PROCESS_PAGES && Needed(m.View(), t.id, PageNumber(va)) + t.kernelCount < MAX_PROCESS_PAGES
  }

  /** Task t's page v now is a frame that was free, with the given contents; nothing else
      anyone sees has changed. */
  ghost predicate FreshlyMapped(s: Space, s': Space, t: nat, v: nat, contents: seq<nat>) {
    && Grown(s, s', t) && OtherTranslations(s, s', t)
    && (forall u: nat :: u != v && u < 0x10_0000_0000 ==> Translate(s', t, u) == Translate(s, t, u))
    && var g := Translate(s', t, v);
       0 <= g < PAGING_PAGES && s.role[g].Free? && s'.role[g] == User(t, v) && s'.mem[g] == contents
  }

  lemma PageZero()
    ensures PageNumber(0) == 0
  {
    hide Pow2;
    ShrZero(12);
    LowShort(0, 36);
  }

  lemma {:induction false} ShrZero(n: nat)
    ensures Shr(0, n) == 0
  {
    if n > 0 {
      ShrZero(n - 1);
    }
  }

  /** Writing to a page of memory concerns no task's records. */
  method WritePage(m: Memory, tasks: seq<Task>, f: nat, page: seq<nat>)
    requires WellKept(m, tasks) && Accounted(m, tasks) && f < PAGING_PAGES && m.role[f].User? && |page| == WORDS
    modifies m.mem
    ensures WellKept(m, tasks) && Accounted(m, tasks) && SameTranslations(old(m.View()), m.View())
    ensures m.View() == old(m.View()).(mem := old(m.View()).mem[f := page])
  {
    hide Linked, Translate, Present, FreeFrames, Task.Valid;
    ghost var s := m.View();
    CopyKeeps(s, page, f);
    m.mem[f] := page;
    assert m.View() == s.(mem := s.mem[f := page]);
    forall i | 0 <= i < |tasks|
      ensures tasks[i].Valid(m.View())
    {
      ContentsAside(s, m.View(), tasks[i]);
    }
  }

  lemma WrittenFresh(s: Space, s1: Space, s2: Space, t: nat, v: nat, g: nat, code: seq<nat>)
    requires FreshlyMapped(s, s1, t, v, Zeros()) && Translate(s1, t, v) == g < PAGING_PAGES && |code| <= WORDS
    requires s2 == s1.(mem := s1.mem[g := code + s1.mem[g][|code|..]]) && SameTranslations(s1, s2)
    ensures FreshlyMapped(s, s2, t, v, code + Zeros()[|code|..])
  {
    hide Translate;
    SamePresent(s1, s2);
  }

  lemma PageOfAddress(a: nat)
    requires a < Pow2(64)
    ensures EntryAddress(a) % PAGE_SIZE == 0 && PageNumber(EntryAddress(a)) == PageNumber(a)
  {
    hide And, Pow2, Shr, Low;
    Pow2Values();
    Pow2Monotone(12, 64);
    AndHigh(a, 12, 64);
    ShrLow(a, 12);
    SplitUnique(Shr(a, 12), 0, 12);
  }

  /** A fresh page for one of the tasks. There always is one. */
  method AllocateFor(m: Memory, tasks: seq<Task>, t: nat, va: nat) returns (page: nat, ghost g: nat)
    requires WellKept(m, tasks) && Accounted(m, tasks) && t < |tasks| <= NR_TASKS
    requires va % PAGE_SIZE == 0 && Room(m, tasks[t], va)
    modifies m, m.memMap, m.mem, tasks[t], tasks[t].kernelPages, tasks[t].userPages
    ensures WellKept(m, tasks) && Accounted(m, tasks)
    ensures FreshlyMapped(old(m.View()), m.View(), t, PageNumber(va), Zeros())
    ensures page != 0 && g < PAGING_PAGES && page == Base(g) && Translate(m.View(), t, PageNumber(va)) == g
            && m.role[g] == User(t, PageNumber(va))
  {
    hide Linked, Translate, Present, FreeFrames, Zeros, Task.Valid, Grown, Missing, Sum, Counts;
    ghost var s, counts := m.View(), Counts(tasks);
    FramesLeft(m, tasks);
    assert forall i :: 0 <= i < |tasks| && i != t ==> tasks[i] != tasks[t];
    ListFits(s, tasks[t]);
    page, g := AllocateUserPage(m, tasks[t], va);
    ListFits(m.View(), tasks[t]);
    CountsMoved(counts, Counts(tasks), t);
    forall i | 0 <= i < |tasks| && i != t
      ensures tasks[i].Valid(m.View())
    {
      OthersGrow(s, m.View(), t, tasks[i]);
    }
    RootsGrow(s, m.View(), t);
  }

  lemma RootsGrow(s: Space, s': Space, t: nat)
    requires Grown(s, s', t)
    ensures forall t' :: t' in s'.roots ==> t' in s.roots || t' == t
  {
    hide Present;
  }

  /** A page for a task structure. */
  method TakePage(m: Memory, tasks: seq<Task>) returns (page: nat, ghost g: nat)
    requires WellKept(m, tasks)
    modifies m, m.memMap, m.mem
    ensures WellKept(m, tasks)
    ensures page == 0 <==> old(m.Available()) == 0
    ensures page == 0 ==> m.View() == old(m.View())
    ensures m.Valid() && Counts(tasks) == old(Counts(tasks))
    ensures page != 0 ==> g < PAGING_PAGES && page == Base(g) && old(m.role)[g].Free?
                          && m.View() == Take(old(m.View()), g, Zeros()) && m.Available() == old(m.Available()) - 1
  {
    hide Linked, Translate, Present, FreeFrames, Zeros, Task.Valid;
    ghost var s := m.View();
    g := 0;
    page := m.GetFreePage();
    if page != 0 {
      g :| 0 <= g < PAGING_PAGES && page == Base(g) && s.role[g].Free? && m.View() == Take(s, g, Zeros());
      TakeKeepsAll(s, g, tasks);
    }
  }

  /** The new task's memory: none for a kernel thread, otherwise copied from the parent's. */
  method FillChild(m: Memory, tasks: seq<Task>, parent: Task, p: Task, kthread: bool, ghost s: Space, ghost g: nat)
    requires WellKept(m, tasks) && parent in tasks && Sized(s) && Linked(s) && g < PAGING_PAGES && s.role[g].Free?
    requires m.View() == Take(s, g, Zeros()) && m.Available() >= 2 * MAX_PROCESS_PAGES
    requires p.id == |tasks| && p.pgd == 0 && p.userCount == 0 && p.kernelCount == 0
    requires p.userPages.Length == MAX_PROCESS_PAGES == p.kernelPages.Length
    requires Apart(m, p) && p !in tasks && Arrays(p) !! Records(tasks)
    modifies m, m.memMap, m.mem, p, p.kernelPages, p.userPages
    ensures WellKept(m, tasks + [p]) && Forked(s, m.View(), parent, p, kthread)
    ensures m.Valid() && m.Available() + p.userCount + p.kernelCount == old(m.Available())
    ensures Counts(tasks) == old(Counts(tasks))
  {
    hide Linked, Translate, Present, FreeFrames, Zeros, Task.Valid, Take, Cost, RunsOutBetween, Copied, Grown,
      OtherTranslations;
    ghost var s1 := m.View();
    EmptyTask(s1, p);
    ListFits(s1, parent);
    GrownRefl(s1, p.id);
    NothingCopied(s1, parent.id, p.id, parent.Pages());
    if !kthread {
      CostCovered(m, parent);
      var r := CopyVirtMemory(m, parent, p);
    }
    AllGrow(s1, m.View(), p.id, tasks);
    TakenThenCopied(s, g, m.View(), parent.id, p.id, parent.Pages(), p.userCount);
    ListFits(m.View(), p);
  }

  /** The new task, in the page taken for it. */
  method NewChild(m: Memory, tasks: seq<Task>, parent: Task, kthread: bool, ghost s: Space, ghost g: nat) returns (p: Task)
    requires WellKept(m, tasks) && parent in tasks && Sized(s) && Linked(s) && g < PAGING_PAGES && s.role[g].Free?
    requires m.View() == Take(s, g, Zeros()) && m.Available() >= 2 * MAX_PROCESS_PAGES
    requires m.Available() + Sum(Counts(tasks)) + |tasks| == PAGING_PAGES
    requires forall o :: o in Records(tasks) ==> allocated(o)
    modifies m, m.memMap, m.mem
    ensures fresh(Records([p])) && WellKept(m, tasks + [p]) && Accounted(m, tasks + [p])
    ensures Forked(s, m.View(), parent, p, kthread)
  {
    hide WellKept, Forked, Linked, Translate, FreeFrames, Sum, Counts, Accounted;
    p := new Task(|tasks|);
    FillChild(m, tasks, parent, p, kthread, s, g);
    // The new task's frames are accounted for with its structure's.
    CountsMore(tasks, p);
    AccountedBy(m, tasks + [p], Sum(Counts(tasks + [p])));
  }

  lemma CostCovered(m: Memory, t: Task)
    requires m.Valid() && t.Valid(m.View()) && m.Available() >= 2 * MAX_PROCESS_PAGES
    ensures t.userCount <= t.userPages.Length && m.Available() >= Cost(t.Pages(), t.userCount)
    ensures RunsOutBetween(m.Available(), t.Pages())
  {
    hide Linked, Cost, FreeFrames, Task.Valid;
    OwnCost(m.View(), t);
  }

  lemma AccountedBy(m: Memory, tasks: seq<Task>, n: nat)
    requires m.Valid() && Sum(Counts(tasks)) == n && m.Available() + n + |tasks| == PAGING_PAGES + 1
    ensures Accounted(m, tasks)
  {
    hide Memory.Valid, Memory.Available, Linked, FreeFrames, Sum, Counts;
  }

  lemma CountsMore(tasks: seq<Task>, p: Task)
    ensures Sum(Counts(tasks + [p])) == Sum(Counts(tasks)) + p.userCount + p.kernelCount
  {
    hide Sum, Counts;
    CountsSnoc(tasks, p);
    SumSnoc(Counts(tasks), p.userCount + p.kernelCount);
  }

  lemma CountsSnoc(tasks: seq<Task>, p: Task)
    ensures Counts(tasks + [p]) == Counts(tasks) + [p.userCount + p.kernelCount]
  {
    assert (tasks + [p])[..|tasks|] == tasks;
  }

  lemma SumSnoc(c: seq<nat>, n: nat)
    ensures Sum(c + [n]) == Sum(c) + n
  {
    assert (c + [n])[..|c|] == c;
  }

  /** Growth for one task leaves all the others as they are. */
  lemma AllGrow(s: Space, s': Space, t: nat, tasks: seq<Task>)
    requires Grown(s, s', t)
    requires forall i :: 0 <= i < |tasks| ==> tasks[i].id != t && tasks[i].Valid(s)
    ensures forall i :: 0 <= i < |tasks| ==> tasks[i].Valid(s')
    ensures forall t' :: t' in s'.roots ==> t' in s.roots || t' == t
  {
    hide Task.Valid, Present;
    forall i | 0 <= i < |tasks|
      ensures tasks[i].Valid(s')
    {
      OthersGrow(s, s', t, tasks[i]);
    }
  }

  lemma KeptFacts(m: Memory, tasks: seq<Task>)
    requires WellKept(m, tasks)
    ensures m.Valid() && Sized(m.View()) && Linked(m.View())
  {
    hide Task.Valid, Linked;
  }

  /** What a fork has done: the child's pages are the parent's, or none for a kernel thread, each
      copied to a frame that was free. */
  ghost predicate Forked(s: Space, s': Space, parent: Task, child: Task, kthread: bool)
    reads parent, parent.userPages, child, child.userPages
  {
    && Sized(s) && Sized(s') && Grown(s, s', child.id) && OtherTranslations(s, s', child.id)
    && parent.userCount <= parent.userPages.Length && child.userCount <= child.userPages.Length
    && SameVirtual(child.Pages(), if kthread then [] else parent.Pages())
    && Copied(s, s', parent.id, child.id, parent.Pages(), child.userCount)
  }

  /** Copies made after a page was taken for the task structure, seen from before. */
  lemma TakenThenCopied(s: Space, g: nat, s': Space, parent: nat, child: nat, up: seq<UserPage>, n: nat)
    requires Linked(s) && g < PAGING_PAGES && s.role[g].Free? && n <= |up|
    requires var s1 := Take(s, g, Zeros());
             Sized(s1) && Grown(s1, s', child) && OtherTranslations(s1, s', child) && Copied(s1, s', parent, child, up, n)
    ensures Grown(s, s', child) && OtherTranslations(s, s', child) && Copied(s, s', parent, child, up, n)
  {
    hide Translate, TableOk, Unshared, PageNumber, Zeros;
    var s1 := Take(s, g, Zeros());
    SetContents(s, g, Zeros(), Kernel);
    SamePresent(s, s1);
    forall i | 0 <= i < n
      ensures CopiedPage(s, s', parent, child, PageNumber(up[i].virt))
    {
      var v := PageNumber(up[i].virt);
      assert CopiedPage(s1, s', parent, child, v);
      TranslateFinds(s, parent, v);
    }
  }

  /** Taking a page for the kernel concerns no task. */
  lemma TakeKeepsAll(s: Space, g: nat, tasks: seq<Task>)
    requires Linked(s) && g < PAGING_PAGES && s.role[g].Free?
    requires forall i :: 0 <= i < |tasks| ==> tasks[i].Valid(s)
    ensures var s' := Take(s, g, Zeros());
            Linked(s') && forall i :: 0 <= i < |tasks| ==> tasks[i].Valid(s')
  {
    hide TableOk, Unshared, Present, Translate, Zeros, Task.Valid;
    var s' := Take(s, g, Zeros());
    SetContents(s, g, Zeros(), Kernel);
    forall i | 0 <= i < |tasks|
      ensures tasks[i].Valid(s')
    {
      TakeKeeps(s, g, tasks[i]);
    }
  }

  /** A task number without tables has a zeroed mm_struct to match. */
  lemma EmptyTask(s: Space, t: Task)
    requires Linked(s) && t.id !in s.roots && t.pgd == 0 && t.userCount == 0 && t.kernelCount == 0
    requires t.userPages.Length == MAX_PROCESS_PAGES == t.kernelPages.Length
    ensures t.Valid(s)
  {
    hide TableOk, Unshared, Prefix, PageNumber, Linked, Paths, Upper, MappedPages;
    NothingPresent(s, t.id);
    EmptyUpper();
    assert t.Pages() == [];
  }

  /** However the kernel got there: a task sees exactly the pages on its list, and no frame is seen
      by two tasks, or at two addresses of one. */
  lemma Isolation(m: Memory, tasks: seq<Task>, t: nat, v: nat, t': nat, v': nat)
    requires WellKept(m, tasks) && t < |tasks| && t' < |tasks| && v < 0x10_0000_0000 && v' < 0x10_0000_0000
    ensures tasks[t].userCount <= tasks[t].userPages.Length
    ensures Translate(m.View(), t, v) != -1 <==> v in MappedPages(tasks[t].Pages())
    ensures Translate(m.View(), t, v) != -1 && (t, v) != (t', v') ==> Translate(m.View(), t, v) != Translate(m.View(), t', v')
  {
    hide Linked, Translate, PageNumber, Upper, MappedPages, IsTable, IsMemory;
    var s, pages := m.View(), MappedPages(tasks[t].Pages());
    TranslateFinds(s, t, v);
    assert Present(s, t) == Paths(pages);
    PathsBottom(pages, v);
    if Translate(s, t, v) != -1 && Translate(s, t, v) == Translate(s, t', v') {
      NoSharing(s, t, v, t', v');
    }
  }
}
