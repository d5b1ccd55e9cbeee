/**
 What the processor grants: it walks all four levels, and a write or a user access needs the bit on
 every level, an instruction fetch no execute-disable bit on any. The leaf entries alone decide.
 */
module PageTableAccess {
  import opened Machine
  import opened Wrappers
  import opened PageTableModel
  import opened PageTableProofs

  /** The processor's walk, with what the levels above have left. */
  function Mmu(tables: map<nat, Table>, p: nat, path: seq<nat>, writable: bool, user: bool, executable: bool)
    : Option<Mapping>
    requires |path| > 0 && forall i :: 0 <= i < |path| ==> path[i] < ENTRIES
    decreases |path|
  {
    if p !in tables then None
    else
      var e := tables[p][path[0]];
      var w, u, x := writable && e.writable, user && e.user, executable && !e.xd;
      if !e.present then None
      else if |path| == 1 then Some(Mapping(e.frame, w, u, x))
      else if e.huge then None
      else Mmu(tables, e.frame, path[1..], w, u, x)
  }

  function Grants(s: Space, r: nat, path: seq<nat>): Option<Mapping>
    requires UserPath(path)
  {
    Mmu(s.tables, r, path, true, true, true)
  }

  // -------------------------------------------------------------- invariant

  /** The entry that leads to table c lets user accesses through. */
  ghost predicate UserAt(s: Space, c: nat) {
    c in s.place
    && (|s.place[c].path| > 0 ==>
          && s.place[c].parent in s.tables && s.place[c].path[|s.place[c].path| - 1] < ENTRIES
          && s.tables[s.place[c].parent][s.place[c].path[|s.place[c].path| - 1]].user)
  }

  /** Upper entries hold nothing back: writable, executable, and open to the user where an entry below is. */
  ghost predicate EntryOpen(s: Space, p: nat, i: nat)
    requires p in s.place && p in s.tables && i < ENTRIES
  {
    var e := s.tables[p][i];
    e.present ==> (|s.place[p].path| < 3 ==> e.writable && !e.xd) && (e.user ==> UserAt(s, p))
  }

  ghost predicate Open(s: Space) {
    forall p, i :: p in s.place && p in s.tables && Owned(s.place[p].path, i) ==> EntryOpen(s, p, i)
  }

  // ------------------------------------------------------ the leaves decide

  /** A leaf open to the user has only such entries above it. */
  lemma {:induction false} UserAllTheWay(s: Space, p: nat, path: seq<nat>)
    requires Inv(s) && Open(s) && p in s.place && |path| == 4 - |s.place[p].path| > 0
    requires (forall k :: 0 <= k < |path| ==> path[k] < ENTRIES) && Owned(s.place[p].path, path[0])
    requires Walk(s.tables, p, path).Some? && Walk(s.tables, p, path).value.user
    ensures s.tables[p][path[0]].user
    decreases |path|
  {
    hide PlaceOk;
    if |path| > 1 {
      assert EntryOk(s, p, path[0]);
      var c := s.tables[p][path[0]].frame;
      UserAllTheWay(s, c, path[1..]);
      assert EntryOpen(s, c, path[1..][0]);
    }
  }

  lemma {:induction false} MmuIsLeaf(s: Space, p: nat, path: seq<nat>, user: bool)
    requires Inv(s) && Open(s) && p in s.place && |path| == 4 - |s.place[p].path| > 0
    requires (forall k :: 0 <= k < |path| ==> path[k] < ENTRIES) && Owned(s.place[p].path, path[0])
    requires Walk(s.tables, p, path).Some? && Walk(s.tables, p, path).value.user ==> user
    ensures Mmu(s.tables, p, path, true, user, true) == Meaning(Walk(s.tables, p, path))
    decreases |path|
  {
    hide PlaceOk;
    assert EntryOk(s, p, path[0]) && EntryOpen(s, p, path[0]);
    var e := s.tables[p][path[0]];
    if e.present && |path| > 1 {
      if Walk(s.tables, p, path).Some? && Walk(s.tables, p, path).value.user { UserAllTheWay(s, p, path); }
      MmuIsLeaf(s, e.frame, path[1..], user && e.user);
    }
  }

  /** In an open space the processor grants exactly what the leaf entry says. */
  lemma GrantsIsMeaning(s: Space, r: nat, path: seq<nat>)
    requires Inv(s) && Open(s) && Root(s, r) && UserPath(path)
    ensures Grants(s, r, path) == Meaning(Translate(s, r, path))
  {
    hide Mmu, Walk, PlaceOk, EntryOk, Open;
    MmuIsLeaf(s, r, path, true);
  }

  // ------------------------------------------------------------ every operation

  lemma HookOpen(s: Space, p: nat, i: nat, user: bool, grant: nat)
    requires Inv(s) && Open(s) && CanHook(s, p, i, grant) && (user ==> UserAt(s, p))
    ensures Open(Hook(s, p, i, user, grant)) && (user ==> UserAt(Hook(s, p, i, user, grant), grant))
  {
    hide PlaceOk, EntryOk, EntryOpen, UserAt;
    var t := Hook(s, p, i, user, grant);
    forall q, j | q in t.place && q in t.tables && Owned(t.place[q].path, j) ensures EntryOpen(t, q, j) {
      HookEntryOpen(s, p, i, user, grant, q, j);
    }
    HookedUser(s, p, i, user, grant);
  }

  lemma HookedUser(s: Space, p: nat, i: nat, user: bool, grant: nat)
    requires p in s.place && p in s.tables && i < ENTRIES && p != grant
    ensures user ==> UserAt(Hook(s, p, i, user, grant), grant)
  {
  }

  lemma HookEntryOpen(s: Space, p: nat, i: nat, user: bool, grant: nat, q: nat, j: nat)
    requires Inv(s) && Open(s) && CanHook(s, p, i, grant) && (user ==> UserAt(s, p))
    requires var t := Hook(s, p, i, user, grant); q in t.place && q in t.tables && Owned(t.place[q].path, j)
    ensures EntryOpen(Hook(s, p, i, user, grant), q, j)
  {
    hide PlaceOk, EntryOk, EntryOpen;
    if q == grant {
      HookedOpen(s, p, i, user, grant, j);
    } else {
      if |s.place[q].path| > 0 { ParentIsOurs(s, q); }
      if |s.place[p].path| > 0 { ParentIsOurs(s, p); }
      HookOldOpen(s, p, i, user, grant, q, j);
    }
  }

  lemma HookedOpen(s: Space, p: nat, i: nat, user: bool, grant: nat, j: nat)
    requires p in s.place && p in s.tables && i < ENTRIES && p != grant && j < ENTRIES
    ensures EntryOpen(Hook(s, p, i, user, grant), grant, j)
  {
  }

  lemma HookOldOpen(s: Space, p: nat, i: nat, user: bool, grant: nat, q: nat, j: nat)
    requires p in s.place && p in s.tables && i < ENTRIES && grant !in s.place && grant !in s.tables && q != grant
    requires q in s.place && q in s.tables && j < ENTRIES && EntryOpen(s, q, j) && (user ==> UserAt(s, p))
    requires |s.place[q].path| > 0 ==> s.place[q].parent in s.place
    requires !s.tables[p][i].present && |s.place[p].path| < 3
    requires |s.place[q].path| > 0 && s.place[q].parent == p ==> s.place[q].path[|s.place[q].path| - 1] != i
    requires |s.place[p].path| > 0 && s.place[p].parent == p ==> s.place[p].path[|s.place[p].path| - 1] != i
    ensures EntryOpen(Hook(s, p, i, user, grant), q, j)
  {
  }

  lemma SetOpen(s: Space, p: nat, i: nat, e: Pte)
    requires Inv(s) && Open(s) && p in s.place && Owned(s.place[p].path, i)
    requires e.present ==> (|s.place[p].path| < 3 ==> e.writable && !e.xd) && (e.user ==> UserAt(s, p))
    requires |s.place[p].path| == 3 || (e.present && (s.tables[p][i].user ==> e.user))
    ensures Open(SetEntry(s, p, i, e))
  {
    hide EntryOk;
    var t := SetEntry(s, p, i, e);
    forall q, j | q in t.place && q in t.tables && Owned(t.place[q].path, j) ensures EntryOpen(t, q, j) {
      assert PlaceOk(s, q);
      if !(q == p && j == i) { assert EntryOpen(s, q, j); }
      if UserAt(s, q) { SetUserAt(s, p, i, e, q); }
    }
  }

  lemma SetUserAt(s: Space, p: nat, i: nat, e: Pte, q: nat)
    requires Inv(s) && p in s.place && Owned(s.place[p].path, i) && UserAt(s, q)
    requires |s.place[p].path| == 3 || (s.tables[p][i].user ==> e.user)
    ensures UserAt(SetEntry(s, p, i, e), q)
  {
    assert PlaceOk(s, q);
  }

  /** ensure_next_table keeps the space open, and opens the way it goes. */
  lemma EnsureNextOpen(s: Space, p: nat, i: nat, user: bool, grant: nat)
    requires Inv(s) && Open(s) && p in s.place && |s.place[p].path| < 3 && Owned(s.place[p].path, i)
    requires (grant == 0 || grant in s.free) && (user ==> UserAt(s, p))
    ensures var (t, c) := EnsureNext(s, p, i, user, grant);
            Open(t) && (c != 0 && user ==> UserAt(t, c))
  {
    hide Hook, PlaceOk;
    assert EntryOk(s, p, i) && EntryOpen(s, p, i);
    var e := s.tables[p][i];
    if !e.present {
      if grant != 0 { HookOpen(s, p, i, user, grant); }
    } else {
      SetOpen(s, p, i, e.(writable := true, user := e.user || user));
      PlaceNonzero(s, e.frame);
    }
  }

  /** One level down, as part of a mapping. */
  lemma NextOpen(s: Space, p: nat, i: nat, user: bool, grant: nat, before: bool)
    requires Inv(s) && p in s.place && |s.place[p].path| < 3 && Owned(s.place[p].path, i)
    requires (grant == 0 || grant in s.free) && (before ==> Open(s) && (user ==> UserAt(s, p)))
    ensures var (t, c) := EnsureNext(s, p, i, user, grant);
            before ==> Open(t) && (c != 0 && user ==> UserAt(t, c))
  {
    hide Inv, Open, UserAt, EnsureNext;
    if before { EnsureNextOpen(s, p, i, user, grant); }
  }

  lemma LeafOpen(s: Space, p: nat, i: nat, phys: nat, flags: MapFlags, before: bool)
    requires Inv(s) && p in s.place && |s.place[p].path| == 3 && Owned(s.place[p].path, i)
    requires before ==> Open(s) && (flags.user ==> UserAt(s, p))
    ensures p in s.tables && (before ==> Open(SetEntry(s, p, i, LeafOf(phys, flags))))
  {
    hide Open, UserAt, PlaceOk, EntryOk;
    if before { SetOpen(s, p, i, LeafOf(phys, flags)); }
  }

  lemma RootIsOpen(s: Space, r: nat)
    requires Inv(s) && Root(s, r)
    ensures UserAt(s, r)
  {
  }

  lemma {:induction false} DescendOpen(s: Space, r: nat, path: seq<nat>, user: bool, g: seq<nat>, d: nat)
    requires Inv(s) && Open(s) && Root(s, r) && UserPath(path) && ValidGrants(s, g) && d <= 3
    ensures var (t, p) := Descend(s, r, path, user, g, d); Open(t) && (p != 0 && user ==> UserAt(t, p))
    decreases d
  {
    hide Inv, Open, UserAt, EnsureNext, Reached;
    if d == 0 {
      RootIsOpen(s, r);
    } else {
      DescendOpen(s, r, path, user, g, d - 1);
      var (t, p) := Descend(s, r, path, user, g, d - 1);
      if p != 0 {
        ReachedNext(s, t, p, r, path, user, g, d - 1);
        ReachedDepth(s, t, p, r, path, g, d - 1);
        EnsureNextOpen(t, p, path[d - 1], user, g[d - 1]);
      }
    }
  }

  lemma ReachedDepth(s: Space, t: Space, p: nat, r: nat, path: seq<nat>, g: seq<nat>, d: nat)
    requires |g| == 3 && d < 3 && UserPath(path) && Reached(s, t, p, r, path, g, d) && p != 0
    ensures p in t.place && |t.place[p].path| < 3
  {
    hide Inv, Extends;
  }

  lemma MapPageOpen(s: Space, r: nat, path: seq<nat>, phys: nat, flags: MapFlags, g: seq<nat>)
    requires Inv(s) && Open(s) && Root(s, r) && UserPath(path) && ValidGrants(s, g)
    ensures Open(MapPage(s, r, path, LeafOf(phys, flags), flags.user, g).0)
  {
    hide Inv, Open, UserAt, Descend, Reached;
    DescendOpen(s, r, path, flags.user, g, 3);
    var (t, p) := Descend(s, r, path, flags.user, g, 3);
    if p != 0 {
      LeafReached(s, t, p, r, path, g);
      SetOpen(t, p, path[3], LeafOf(phys, flags));
    }
  }

  lemma UnmapPageOpen(s: Space, r: nat, path: seq<nat>)
    requires Inv(s) && Open(s) && Root(s, r) && UserPath(path)
    ensures Open(UnmapPage(s, r, path))
  {
    hide Open, PlaceOk, EntryOk, Walk, Follow;
    RootNonzero(s, r);
    FollowAt(s, r, path[..3], path[3]);
    var p := Follow(s.tables, r, path[..3]);
    if p != 0 { SetOpen(s, p, path[3], ZERO); }
  }

  /** Where a table and the one above it stay as they are, so does what they let through. */
  lemma SameOpen(s: Space, t: Space, q: nat, j: nat)
    requires q in s.place && q in s.tables && q in t.place && q in t.tables && t.place[q] == s.place[q]
    requires t.tables[q] == s.tables[q] && j < ENTRIES && EntryOpen(s, q, j)
    requires var up := s.place[q].parent;
             |s.place[q].path| > 0 && up in s.tables ==> up in t.tables && t.tables[up] == s.tables[up]
    ensures EntryOpen(t, q, j)
  {
  }

  lemma ParentIsOurs(s: Space, q: nat)
    requires Inv(s) && q in s.place && |s.place[q].path| > 0
    ensures s.place[q].parent in s.place && s.place[s.place[q].parent].root == s.place[q].root
    ensures var up, last := s.place[q].parent, s.place[q].path[|s.place[q].path| - 1];
            up in s.tables && last < ENTRIES && s.tables[up][last].present
  {
    assert PlaceOk(s, q);
  }

  lemma CreateOpen(s: Space, kernel: Table, grant: nat)
    requires Inv(s) && Open(s) && grant in s.free
    ensures Open(Create(s, kernel, grant))
  {
    hide PlaceOk, EntryOk, EntryOpen;
    var t := Create(s, kernel, grant);
    forall q, j | q in t.place && q in t.tables && Owned(t.place[q].path, j) ensures EntryOpen(t, q, j) {
      if q != grant {
        if |s.place[q].path| > 0 { ParentIsOurs(s, q); }
        SameOpen(s, t, q, j);
      } else {
        FreshOpen(s, kernel, grant, j);
      }
    }
  }

  lemma FreshOpen(s: Space, kernel: Table, grant: nat, j: nat)
    requires UserSlot(j)
    ensures EntryOpen(Create(s, kernel, grant), grant, j)
  {
  }

  lemma DestroyOpen(s: Space, r: nat)
    requires Inv(s) && Open(s) && Root(s, r)
    ensures Open(Destroy(s, r))
  {
    hide PlaceOk, EntryOk, EntryOpen;
    var t := Destroy(s, r);
    forall q, j | q in t.place && q in t.tables && Owned(t.place[q].path, j) ensures EntryOpen(t, q, j) {
      if |s.place[q].path| > 0 { ParentIsOurs(s, q); }
      SameOpen(s, t, q, j);
    }
  }

  lemma StepOpen(s: Space, kernel: Table, op: Op)
    requires Inv(s) && Open(s) && ValidOp(s, op)
    ensures Open(Step(s, kernel, op))
  {
    hide Inv, Open, MapPage, UnmapPage, Create, Destroy;
    match op
    case NewSpace(grant) => CreateOpen(s, kernel, grant);
    case MapUser(r, path, phys, flags, grants) => MapPageOpen(s, r, path, phys, flags, grants);
    case UnmapUser(r, path) => UnmapPageOpen(s, r, path);
    case DropSpace(r) => DestroyOpen(s, r);
  }

  lemma {:induction false} RunOpen(s: Space, f: Flat, kernel: Table, ops: seq<Op>)
    requires Inv(s) && Open(s) && Refines(s, f) && ValidRun(s, kernel, ops)
    ensures Open(Run(s, f, kernel, ops).0)
    decreases |ops|
  {
    if ops != [] {
      hide Inv, Open, Refines, FlatStep, Step, Succeeds;
      StepRefines(s, f, kernel, ops[0]);
      StepOpen(s, kernel, ops[0]);
      RunOpen(Step(s, kernel, ops[0]), FlatStep(f, ops[0], Succeeds(s, ops[0])), kernel, ops[1..]);
    }
  }

  /**
   In every run from boot the processor, walking all levels of any live address space, reaches on
   each user page exactly the frame that was mapped there, with exactly the rights asked for.
   */
  lemma ProcessorSeesFlatMap(pages: set<nat>, kernel: Table, ops: seq<Op>, r: nat, path: seq<nat>)
    requires 0 !in pages && ValidRun(Space(map[], pages, map[]), kernel, ops) && UserPath(path)
    ensures var (t, f) := Run(Space(map[], pages, map[]), Flat({}, map[]), kernel, ops);
            Root(t, r) ==> Grants(t, r, path) == Lookup(f, r, path)
  {
    hide Grants, Translate;
    var s, f := Space(map[], pages, map[]), Flat({}, map[]);
    assert Refines(s, f) && Open(s);
    RunRefines(s, f, kernel, ops);
    RunOpen(s, f, kernel, ops);
    var t := Run(s, f, kernel, ops).0;
    if Root(t, r) { GrantsIsMeaning(t, r, path); }
  }

  // ---------------------------------------------------------------- addresses

  lemma Split512(q: nat, r: nat)
    requires r < 512
    ensures (q * 512 + r) / 512 == q && (q * 512 + r) % 512 == r
  {
  }

  lemma Split4096(q: nat, r: nat)
    requires r < 4096
    ensures (q * 4096 + r) / 4096 == q && (q * 4096 + r) % 4096 == r
  {
  }

  /** The indices of an address, put together from them and an offset. */
  lemma IndicesOfParts(a: nat, b: nat, c: nat, d: nat, offset: nat)
    requires a < 512 && b < 512 && c < 512 && d < 512 && offset < 4096
    ensures Indices((((a * 512 + b) * 512 + c) * 512 + d) * 4096 + offset) == [a, b, c, d]
  {
    hide Indices;
    var ab := a * 512 + b;
    var abc := ab * 512 + c;
    var page := abc * 512 + d;
    DigitsOf(page * 4096 + offset);
    Split4096(page, offset);
    Split512(abc, d);
    Split512(ab, c);
    Split512(a, b);
    Split512(0, a);
  }

  /** Each index is a digit to base 512 of the page number. */
  lemma DigitsOf(virt: nat)
    ensures var n := virt / 4096;
            Indices(virt) == [n / 512 / 512 / 512 % 512, n / 512 / 512 % 512, n / 512 % 512, n % 512]
  {
    assert virt / 0x20_0000 == virt / 4096 / 512;
    assert virt / 0x4000_0000 == virt / 4096 / 512 / 512;
    assert virt / 0x80_0000_0000 == virt / 4096 / 512 / 512 / 512;
  }

  /** All bytes of a page have its indices. */
  lemma SamePage(virt: nat, k: nat)
    requires virt % PAGE == 0 && k < PAGE
    ensures Indices(virt + k) == Indices(virt) && (virt + k) % PAGE == k
  {
    hide Indices;
    DigitsOf(virt);
    DigitsOf(virt + k);
    assert (virt + k) / 4096 == virt / 4096;
  }

  /** debug_resolve of x, a byte of the page at virt, answers its byte of the frame, and these rights. */
  predicate ResolvesTo(tables: map<nat, Table>, r: nat, x: nat, virt: nat, phys: nat, flags: MapFlags) {
    var e := Resolve(tables, r, x);
    && e.Some? && e.value.0 == phys + (x - virt)
    && e.value.1.writable == flags.writable && e.value.1.user == flags.user && e.value.1.xd == !flags.executable
  }

  ghost predicate PageResolves(tables: map<nat, Table>, r: nat, virt: nat, phys: nat, flags: MapFlags) {
    forall x: nat :: virt <= x < virt + PAGE ==> ResolvesTo(tables, r, x, virt, phys, flags)
  }

  /** debug_resolve after a successful map_page: every byte of the page leads to its byte of the frame. */
  lemma ResolveAfterMap(s: Space, t: Space, r: nat, virt: nat, phys: nat, flags: MapFlags)
    requires Inv(t) && Root(s, r) && Root(t, r) && UserAddress(virt) && virt % PAGE == 0
    requires UserPath(Indices(virt))
    requires OnePageChanged(s, t, r, Indices(virt), Some(LeafOf(phys, flags)))
    ensures PageResolves(t.tables, r, virt, phys % ADDRESS_LIMIT, flags)
  {
    hide Inv, Resolve, Translate, Indices;
    forall x: nat | virt <= x < virt + PAGE ensures ResolvesTo(t.tables, r, x, virt, phys % ADDRESS_LIMIT, flags) {
      SamePage(virt, x - virt);
      PageInside(virt, x - virt);
      ResolveIsTranslate(t, r, x);
    }
  }

  lemma PageInside(virt: nat, k: nat)
    requires UserAddress(virt) && virt % PAGE == 0 && k < PAGE
    ensures UserAddress(virt + k)
  {
  }

  // -------------------------------------------------------- the kernel's half

  /** The user slots of the top level are exactly those of the user addresses. */
  lemma UserSlotsExactly(i: nat)
    ensures UserSlot(i) <==> exists virt: nat ::
              0x4000_0000_0000 <= virt < 0x8000_0000_0000 && virt / 0x80_0000_0000 == i
  {
    if UserSlot(i) {
      var virt := i * 0x80_0000_0000;
      assert 0x4000_0000_0000 <= virt < 0x8000_0000_0000 && virt / 0x80_0000_0000 == i;
    }
  }

  /** Every address space has the kernel's entries in all slots but the user ones. */
  ghost predicate KernelShared(s: Space, kernel: Table) {
    forall r, i :: Root(s, r) && r in s.tables && 0 <= i < 512 && !UserSlot(i) ==> s.tables[r][i] == kernel[i]
  }

  lemma EnsureNextShares(s: Space, p: nat, i: nat, user: bool, grant: nat, kernel: Table)
    requires KernelShared(s, kernel) && p in s.tables && p in s.place && Owned(s.place[p].path, i)
    requires grant !in s.place && grant != p
    ensures KernelShared(EnsureNext(s, p, i, user, grant).0, kernel)
  {
  }

  lemma {:induction false} DescendShares(s: Space, r: nat, path: seq<nat>, user: bool, g: seq<nat>, d: nat,
                                         kernel: Table)
    requires Inv(s) && KernelShared(s, kernel) && Root(s, r) && UserPath(path) && ValidGrants(s, g) && d <= 3
    ensures KernelShared(Descend(s, r, path, user, g, d).0, kernel)
    decreases d
  {
    hide Inv, KernelShared, EnsureNext, Reached;
    if d > 0 {
      DescendShares(s, r, path, user, g, d - 1, kernel);
      var (t, p) := Descend(s, r, path, user, g, d - 1);
      if p != 0 {
        ReachedNext(s, t, p, r, path, user, g, d - 1);
        FreeIsUnplaced(t, p, g[d - 1]);
        EnsureNextShares(t, p, path[d - 1], user, g[d - 1], kernel);
      }
    }
  }

  lemma FreeIsUnplaced(s: Space, p: nat, grant: nat)
    requires Inv(s) && p in s.place && (grant == 0 || grant in s.free)
    ensures grant !in s.place && grant != p
  {
    forall q | q in s.place ensures q != 0 { PlaceNonzero(s, q); }
  }

  lemma SetShares(s: Space, p: nat, i: nat, e: Pte, kernel: Table)
    requires KernelShared(s, kernel) && p in s.tables && p in s.place && Owned(s.place[p].path, i)
    ensures KernelShared(SetEntry(s, p, i, e), kernel)
  {
  }

  lemma StepShares(s: Space, kernel: Table, op: Op)
    requires Inv(s) && KernelShared(s, kernel) && ValidOp(s, op)
    ensures KernelShared(Step(s, kernel, op), kernel)
  {
    hide PlaceOk, EntryOk, Descend, Follow, Walk, Reached;
    match op
    case NewSpace(grant) =>
    case MapUser(r, path, phys, flags, g) =>
      DescendShares(s, r, path, flags.user, g, 3, kernel);
      var (t, p) := Descend(s, r, path, flags.user, g, 3);
      if p != 0 {
        LeafReached(s, t, p, r, path, g);
        SetShares(t, p, path[3], LeafOf(phys, flags), kernel);
      }
    case UnmapUser(r, path) =>
      RootNonzero(s, r);
      FollowAt(s, r, path[..3], path[3]);
      var p := Follow(s.tables, r, path[..3]);
      if p != 0 { SetShares(s, p, path[3], ZERO, kernel); }
    case DropSpace(r) =>
  }

  /** In every run all address spaces keep the kernel's half. */
  lemma {:induction false} RunShares(s: Space, f: Flat, kernel: Table, ops: seq<Op>)
    requires Inv(s) && KernelShared(s, kernel) && Refines(s, f) && ValidRun(s, kernel, ops)
    ensures KernelShared(Run(s, f, kernel, ops).0, kernel)
    decreases |ops|
  {
    if ops != [] {
      hide Inv, KernelShared, Refines, FlatStep, Step, Succeeds;
      StepRefines(s, f, kernel, ops[0]);
      StepShares(s, kernel, ops[0]);
      RunShares(Step(s, kernel, ops[0]), FlatStep(f, ops[0], Succeeds(s, ops[0])), kernel, ops[1..]);
    }
  }

  // ---------------------------------------------------------------- large pages

  /** A gigabyte page: debug_resolve of its byte k answers byte k of the frame, and its entry. */
  lemma ResolveGigabyte(tables: map<nat, Table>, r: nat, base: nat, k: nat, pdpt: nat)
    requires r != 0 && r in tables && pdpt in tables && base % 0x4000_0000 == 0 && k < 0x4000_0000
    requires var e := tables[r][Indices(base)[0]]; e.present && !e.huge && e.frame == pdpt
    requires var e := tables[pdpt][Indices(base)[1]]; e.present && e.huge
    ensures var e := tables[pdpt][Indices(base)[1]]; Resolve(tables, r, base + k) == Some((e.frame + k, e))
  {
    hide Indices;
    SameGigabyte(base, k);
  }

  lemma SameGigabyte(base: nat, k: nat)
    requires base % 0x4000_0000 == 0 && k < 0x4000_0000
    ensures (base + k) % 0x4000_0000 == k
    ensures Indices(base + k)[0] == Indices(base)[0] && Indices(base + k)[1] == Indices(base)[1]
  {
    hide Indices;
    DigitsOf(base);
    DigitsOf(base + k);
    ByteOfGigabyte(base, k);
  }

  lemma ByteOfGigabyte(base: nat, k: nat)
    requires base % 0x4000_0000 == 0 && k < 0x4000_0000
    ensures (base + k) % 0x4000_0000 == k && (base + k) / 4096 / 512 / 512 == base / 4096 / 512 / 512
  {
    var q, j := base / 0x4000_0000, k / 0x20_0000;
    InTwoMegabytes(q * 512, 0);
    InTwoMegabytes(q * 512 + j, k % 0x20_0000);
    Split512(q, j);
    Split512(q, 0);
  }

  /** The number of a page of two megabytes, from any of its bytes. */
  lemma InTwoMegabytes(q: nat, k: nat)
    requires k < 0x20_0000
    ensures (q * 0x20_0000 + k) / 4096 / 512 == q
  {
    var j := k / 4096;
    assert (q * 0x20_0000 + k) / 4096 == q * 512 + j;
    Split512(q, j);
  }

  /** A page of two megabytes likewise. */
  lemma ResolveTwoMegabytes(tables: map<nat, Table>, r: nat, base: nat, k: nat, pdpt: nat, pd: nat)
    requires r != 0 && r in tables && pdpt in tables && pd in tables && base % 0x20_0000 == 0 && k < 0x20_0000
    requires var e := tables[r][Indices(base)[0]]; e.present && !e.huge && e.frame == pdpt
    requires var e := tables[pdpt][Indices(base)[1]]; e.present && !e.huge && e.frame == pd
    requires var e := tables[pd][Indices(base)[2]]; e.present && e.huge
    ensures var e := tables[pd][Indices(base)[2]]; Resolve(tables, r, base + k) == Some((e.frame + k, e))
  {
    hide Indices;
    SameTwoMegabytes(base, k);
  }

  lemma SameTwoMegabytes(base: nat, k: nat)
    requires base % 0x20_0000 == 0 && k < 0x20_0000
    ensures (base + k) % 0x20_0000 == k && Indices(base + k)[0] == Indices(base)[0]
    ensures Indices(base + k)[1] == Indices(base)[1] && Indices(base + k)[2] == Indices(base)[2]
  {
    hide Indices;
    DigitsOf(base);
    DigitsOf(base + k);
    ByteOfTwoMegabytes(base, k);
  }

  lemma ByteOfTwoMegabytes(base: nat, k: nat)
    requires base % 0x20_0000 == 0 && k < 0x20_0000
    ensures (base + k) % 0x20_0000 == k && (base + k) / 4096 / 512 == base / 4096 / 512
  {
    var q := base / 0x20_0000;
    InTwoMegabytes(q, 0);
    InTwoMegabytes(q, k);
  }

  /** No table is made, and nothing changes, where a large page is in the way. */
  lemma LargePageRefused(s: Space, p: nat, i: nat, user: bool, grant: nat)
    requires p in s.tables && p in s.place && i < ENTRIES && s.tables[p][i].present && s.tables[p][i].huge
    ensures EnsureNext(s, p, i, user, grant) == (s, 0)
  {
  }
}
