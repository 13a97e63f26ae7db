/** Four-level page tables over physical page frames, and what keeps the trees of different
    tasks apart. */
module PageTree {
  import opened BitOps

  const LOW_MEMORY: nat := 0x40_0000
  const PAGE_SIZE: nat := 4096
  const PAGING_PAGES: nat := 257024
  const WORDS: nat := 512
  const TOP_LEVEL: nat := 3
  const TABLE_FLAGS: nat := 3
  const PAGE_FLAGS: nat := 0x447

  /** The physical address of frame f. */
  function Base(f: nat): nat {
    LOW_MEMORY + f * PAGE_SIZE
  }

  /** entry & PAGE_MASK */
  function EntryAddress(e: nat): nat {
    And(e, Pow2(64) - Pow2(12))
  }

  /** The frame an entry points to, or -1 when it points below the paging area. */
  function FrameOf(e: nat): int {
    if EntryAddress(e) < LOW_MEMORY then -1 else (EntryAddress(e) - LOW_MEMORY) / PAGE_SIZE
  }

  /** An entry for frame f: address | flags. */
  function Entry(f: nat, flags: nat): nat {
    Or(flags, Base(f))
  }

  lemma EntryPointsTo(f: nat, flags: nat)
    requires f < PAGING_PAGES && flags in {TABLE_FLAGS, PAGE_FLAGS}
    ensures Entry(f, flags) != 0 && EntryAddress(Entry(f, flags)) == Base(f) && FrameOf(Entry(f, flags)) == f
  {
    hide Or, And, Shl, Pow2, Low;
    Pow2Values();
    ShlMul(1024 + f, 12);
    OrShifted(flags, 1024 + f, 12);
    SplitUnique(1024 + f, flags, 12);
    Pow2Wide();
    Pow2Monotone(32, 64);
    AndHigh(Base(f) + flags, 12, 64);
  }

  /** The bits of an entry by their meaning: a table or page descriptor, and for a page normal memory,
      with access from user programs, writable, and accessed. */
  lemma DescriptorBits(f: nat)
    requires f < PAGING_PAGES
    ensures Low(Entry(f, TABLE_FLAGS), 12) == 3
    ensures Low(Entry(f, PAGE_FLAGS), 12) == 3 + 1 * Pow2(2) + Pow2(6) + Pow2(10)
  {
    hide Or, Shl, Low, Pow2;
    Pow2Values();
    ShlMul(1024 + f, 12);
    OrShifted(TABLE_FLAGS, 1024 + f, 12);
    OrShifted(PAGE_FLAGS, 1024 + f, 12);
    SplitUnique(1024 + f, TABLE_FLAGS, 12);
    SplitUnique(1024 + f, PAGE_FLAGS, 12);
  }

  // Virtual page numbers

  /** The virtual page number without its l lowest groups of nine bits. */
  function Prefix(vpn: nat, l: nat): nat {
    if l == 0 then vpn else Prefix(vpn / 512, l - 1)
  }

  /** Which entry the walk reads in a level-l table. */
  function Index(vpn: nat, l: nat): (i: nat)
    ensures i < WORDS
  {
    Prefix(vpn, l) % 512
  }

  lemma {:induction false} PrefixUp(vpn: nat, l: nat)
    ensures Prefix(vpn, l + 1) == Prefix(vpn, l) / 512
    decreases l
  {
    if l > 0 {
      PrefixUp(vpn / 512, l - 1);
    }
  }

  lemma SlotOfPath(vpn: nat, l: nat)
    ensures Prefix(vpn, l) == Prefix(vpn, l + 1) * 512 + Index(vpn, l)
  {
    hide Prefix;
    PrefixUp(vpn, l);
  }

  /** The page number of an address is 36 bits wide. */
  function PageNumber(va: nat): (v: nat)
    ensures v < 0x10_0000_0000
  {
    PageNumberFits();
    Low(Shr(va, 12), 36)
  }

  lemma PageNumberFits()
    ensures Pow2(36) == 0x10_0000_0000
  {
    Pow2Wide();
    Pow2Values();
    Pow2Add(32, 4);
  }

  lemma ShrNine(v: nat)
    ensures Shr(v, 9) == v / 512 && Low(v, 9) == v % 512
  {
    hide Shr, Low, Pow2;
    Pow2Values();
    SplitUnique(v / 512, v % 512, 9);
  }

  lemma {:induction false} PrefixIsShift(v: nat, l: nat)
    ensures Prefix(v, l) == Shr(v, 9 * l)
    decreases l
  {
    hide Shr;
    if l == 0 {
      ShrNone(v);
    } else {
      ShrNine(v);
      PrefixIsShift(v / 512, l - 1);
      ShrShr(v, 9, 9 * (l - 1));
      assert 9 + 9 * (l - 1) == 9 * l;
    }
  }

  /** The hardware's division of a 48-bit address: nine bits for each level, above the twelve of the
      offset in the page. */
  lemma HardwareIndex(va: nat)
    requires va < 0x1_0000_0000_0000
    ensures Index(PageNumber(va), 3) == va / 0x80_0000_0000 && Index(PageNumber(va), 2) == va / 0x4000_0000 % 512
    ensures Index(PageNumber(va), 1) == va / 0x20_0000 % 512 && Index(PageNumber(va), 0) == va / 4096 % 512
  {
    hide Shr, Low, Pow2;
    Pow2Values();
    PageNumberFits();
    assert va == va / 4096 * 4096 + va % 4096;
    SplitUnique(va / 4096, va % 4096, 12);
    LowShort(va / 4096, 36);
    Nines(va);
    Prefixes(va / 4096);
  }

  lemma Prefixes(v: nat)
    ensures Prefix(v, 0) == v && Prefix(v, 1) == v / 512 && Prefix(v, 2) == v / 512 / 512
    ensures Prefix(v, 3) == v / 512 / 512 / 512
  {
    assert Prefix(v, 2) == Prefix(v / 512, 1);
  }

  lemma Nines(va: nat)
    ensures va / 4096 / 512 == va / 0x20_0000 && va / 0x20_0000 / 512 == va / 0x4000_0000
    ensures va / 0x4000_0000 / 512 == va / 0x80_0000_0000
  {}

  lemma ShrNone(v: nat)
    ensures Shr(v, 0) == v
  {}

  lemma {:induction false} LowOfLow(x: nat, m: nat, n: nat)
    requires n <= m
    ensures Low(Low(x, m), n) == Low(x, n)
  {
    if n > 0 {
      LowOfLow(x / 2, m - 1, n - 1);
    }
  }

  lemma {:induction false} ShrOfLow(x: nat, m: nat, n: nat)
    requires n <= m
    ensures Shr(Low(x, m), n) == Low(Shr(x, n), m - n)
  {
    if n > 0 {
      ShrOfLow(x / 2, m - 1, n - 1);
    }
  }

  /** (va >> shift) & (PTRS_PER_TABLE - 1) is the index of va's page at that level. */
  lemma IndexOfAddress(va: nat, l: nat)
    requires l <= TOP_LEVEL
    ensures And(Shr(va, 12 + 9 * l), WORDS - 1) == Index(PageNumber(va), l)
  {
    hide Shr, Low, And, Pow2;
    var x := Shr(va, 12);
    Pow2Values();
    ShrShr(va, 12, 9 * l);
    AndMask(Shr(va, 12 + 9 * l), 9);
    PrefixIsShift(PageNumber(va), l);
    ShrOfLow(x, 36, 9 * l);
    LowOfLow(Shr(x, 9 * l), 36 - 9 * l, 9);
    ShrNine(Prefix(PageNumber(va), l));
  }

  lemma TopPrefix(vpn: nat)
    requires vpn < 0x10_0000_0000
    ensures Prefix(vpn, 4) == 0
  {
    PrefixUp(vpn, 3);
    PrefixUp(vpn, 2);
    PrefixUp(vpn, 1);
    PrefixUp(vpn, 0);
  }

  // Frames

  /** What a frame is used for: nothing, a kernel page, one task's table at a level for all
      pages with a given prefix, or one task's memory at a virtual page. */
  datatype Role = Free | Kernel | Table(task: nat, level: nat, key: nat) | User(task: nat, vpn: nat)

  /** Physical memory with, for the proof, every frame's role, the entries in use in each
      task's tables as (level, slot) pairs, and each task's top table. */
  datatype Space = Space(mem: seq<seq<nat>>, role: seq<Role>, present: map<nat, set<(nat, nat)>>, roots: map<nat, nat>)

  function Present(s: Space, t: nat): set<(nat, nat)> {
    if t in s.present then s.present[t] else {}
  }

  ghost predicate Sized(s: Space) {
    |s.mem| == |s.role| == PAGING_PAGES && forall f :: 0 <= f < PAGING_PAGES ==> |s.mem[f]| == WORDS
  }

  /** Entry i of table f: in use exactly when recorded, and pointing to the frame whose role is
      to be there. */
  ghost predicate SlotOk(s: Space, f: nat, i: nat)
    requires Sized(s) && f < PAGING_PAGES && i < WORDS && s.role[f].Table?
  {
    var Table(t, l, k) := s.role[f];
    var e, slot := s.mem[f][i], k * 512 + i;
    && (e != 0 <==> (l, slot) in Present(s, t))
    && (e != 0 ==> 0 <= FrameOf(e) < PAGING_PAGES && e == Entry(FrameOf(e), if l == 0 then PAGE_FLAGS else TABLE_FLAGS)
                   && s.role[FrameOf(e)] == if l == 0 then User(t, slot) else Table(t, l - 1, slot))
  }

  /** A table is its task's top table or hangs below an entry in use. */
  ghost predicate TableOk(s: Space, f: nat)
    requires Sized(s) && f < PAGING_PAGES && s.role[f].Table?
  {
    var Table(t, l, k) := s.role[f];
    && l <= TOP_LEVEL
    && (if l == TOP_LEVEL then k == 0 && t in s.roots && s.roots[t] == f else (l + 1, k) in Present(s, t))
    && forall i: nat :: i < WORDS ==> SlotOk(s, f, i)
  }

  ghost predicate Linked(s: Space) {
    && Sized(s)
    && (forall f: nat :: f < PAGING_PAGES && s.role[f].Table? ==> TableOk(s, f))
    && (forall t :: t in s.roots ==> s.roots[t] < PAGING_PAGES && s.role[s.roots[t]] == Table(t, TOP_LEVEL, 0))
    && (forall t, l: nat, x: nat :: (l, x) in Present(s, t) ==>
          l <= TOP_LEVEL && t in s.roots && (l < TOP_LEVEL ==> (l + 1, x / 512) in Present(s, t)))
    && Unshared(s)
  }

  /** No two tables serve the same part of the same task. */
  ghost predicate Unshared(s: Space)
    requires Sized(s)
  {
    forall f: nat, g: nat :: f < PAGING_PAGES && g < PAGING_PAGES && s.role[f].Table? && s.role[f] == s.role[g] ==> f == g
  }

  // Translation

  /** The hardware's walk from table f down: the frame vpn maps to, or -1. */
  function Walk(mem: seq<seq<nat>>, f: int, l: nat, vpn: nat): int
    decreases l
  {
    if !(0 <= f < |mem|) || |mem[f]| != WORDS then -1
    else
      var e := mem[f][Index(vpn, l)];
      if e == 0 then -1 else if l == 0 then FrameOf(e) else Walk(mem, FrameOf(e), l - 1, vpn)
  }

  /** What task t's tables make of virtual page vpn. */
  function Translate(s: Space, t: nat, vpn: nat): int {
    if t in s.roots then Walk(s.mem, s.roots[t], TOP_LEVEL, vpn) else -1
  }

  lemma TableAt(s: Space, f: nat, i: nat)
    requires Linked(s) && f < PAGING_PAGES && s.role[f].Table? && i < WORDS
    ensures TableOk(s, f) && SlotOk(s, f, i)
  {
    hide FrameOf, Present;
    assert TableOk(s, f);
  }

  /** From a table on vpn's path the walk finds the frame that is task t's memory at vpn, if
      the page is mapped, and nothing otherwise. */
  lemma {:induction false} WalkFinds(s: Space, f: nat, vpn: nat)
    requires Linked(s) && f < PAGING_PAGES && s.role[f].Table?
    requires s.role[f].key == Prefix(vpn, s.role[f].level + 1)
    ensures var Table(t, l, k) := s.role[f];
            var g := Walk(s.mem, f, l, vpn);
            if (0, vpn) in Present(s, t) then 0 <= g < PAGING_PAGES && s.role[g] == User(t, vpn) else g == -1
    decreases s.role[f].level
  {
    hide FrameOf, Prefix, Present, Linked;
    PathAt(s, f, vpn);
    var Table(t, l, k) := s.role[f];
    if s.mem[f][Index(vpn, l)] != 0 {
      if l > 0 {
        WalkFinds(s, FrameOf(s.mem[f][Index(vpn, l)]), vpn);
      }
    } else if (0, vpn) in Present(s, t) {
      ClosedUp(s, t, 0, l, vpn);
    }
  }

  /** The entry on vpn's path in table f. */
  lemma PathAt(s: Space, f: nat, vpn: nat)
    requires Linked(s) && f < PAGING_PAGES && s.role[f].Table?
    requires s.role[f].key == Prefix(vpn, s.role[f].level + 1)
    ensures Sized(s) && SlotOk(s, f, Index(vpn, s.role[f].level))
    ensures s.role[f].key * 512 + Index(vpn, s.role[f].level) == Prefix(vpn, s.role[f].level)
    ensures Prefix(vpn, 0) == vpn
    ensures s.role[f].level <= TOP_LEVEL
  {
    hide FrameOf, Present;
    SlotOfPath(vpn, s.role[f].level);
    TableAt(s, f, Index(vpn, s.role[f].level));
  }

  /** A mapped page's whole path is in use. */
  lemma {:induction false} ClosedUp(s: Space, t: nat, l: nat, m: nat, vpn: nat)
    requires Linked(s) && l <= m <= TOP_LEVEL && (l, Prefix(vpn, l)) in Present(s, t)
    ensures (m, Prefix(vpn, m)) in Present(s, t)
  {
    hide FrameOf, Prefix, Present, Unshared;
    if l < m {
      ClosedUp(s, t, l, m - 1, vpn);
      PrefixUp(vpn, m - 1);
      assert (m - 1 + 1, Prefix(vpn, m - 1) / 512) in Present(s, t);
    }
  }

  /** A task's translations are to its own memory, at that very page. */
  lemma TranslateFinds(s: Space, t: nat, vpn: nat)
    requires Linked(s) && vpn < 0x10_0000_0000
    ensures var g := Translate(s, t, vpn);
            if (0, vpn) in Present(s, t) then 0 <= g < PAGING_PAGES && s.role[g] == User(t, vpn) else g == -1
  {
    hide Walk, TableOk, Unshared, FrameOf, Prefix;
    TopPrefix(vpn);
    if t in s.roots {
      WalkFinds(s, s.roots[t], vpn);
    }
  }

  /** No two tasks, and no two pages of one task, share a frame; and no translation leads to a
      table or a kernel page. */
  lemma NoSharing(s: Space, t: nat, vpn: nat, t': nat, vpn': nat)
    requires Linked(s) && vpn < 0x10_0000_0000 && vpn' < 0x10_0000_0000
    requires Translate(s, t, vpn) != -1 && Translate(s, t, vpn) == Translate(s, t', vpn')
    ensures t == t' && vpn == vpn'
    ensures var g := Translate(s, t, vpn); 0 <= g < PAGING_PAGES && s.role[g].User?
  {
    hide Translate, Linked;
    TranslateFinds(s, t, vpn);
    TranslateFinds(s, t', vpn');
  }

  /** The tables form trees: an entry in use leads to a table no other entry leads to, and
      never to a top table. */
  lemma TablesAreTrees(s: Space, f: nat, i: nat, f': nat, i': nat)
    requires Linked(s) && f < PAGING_PAGES && f' < PAGING_PAGES && i < WORDS && i' < WORDS
    requires s.role[f].Table? && s.role[f'].Table? && s.role[f].level > 0
    requires s.mem[f][i] != 0 && s.mem[f'][i'] != 0 && FrameOf(s.mem[f][i]) == FrameOf(s.mem[f'][i'])
    ensures f == f' && i == i'
    ensures var g := FrameOf(s.mem[f][i]); 0 <= g < PAGING_PAGES && s.role[g].Table? && s.role[g].level < TOP_LEVEL
  {
    hide FrameOf, Present;
    TableAt(s, f, i);
    TableAt(s, f', i');
    assert s.role[f].key * 512 + i == s.role[f'].key * 512 + i';
    assert s.role[f] == s.role[f'];
  }
}
