/**
 Four-level x86-64 page tables. The tables of all address spaces live in one store of
 physical pages; `place` records, for each page in use, which address space it belongs to,
 the indices that lead to it from the root, and the page that points to it.
 */
module PageTableModel {
  import opened Machine
  import opened Wrappers

  const ENTRIES: nat := 512
  const USER_FIRST: nat := 128
  const USER_LIMIT: nat := 256

  /** The bits of an entry the kernel reads and writes; `frame` is the masked address. */
  datatype Pte = Pte(present: bool, writable: bool, user: bool, huge: bool, xd: bool, frame: nat)

  const ZERO := Pte(false, false, false, false, false, 0)

  function ZeroTable(n: nat): (t: seq<Pte>)
    ensures |t| == n && forall i :: 0 <= i < n ==> t[i] == ZERO
  {
    if n == 0 then [] else ZeroTable(n - 1) + [ZERO]
  }

  type Table = t: seq<Pte> | |t| == 512 witness ZeroTable(512)

  datatype MapFlags = MapFlags(writable: bool, user: bool, executable: bool)

  datatype Place = Place(root: nat, path: seq<nat>, parent: nat)

  datatype Space = Space(tables: map<nat, Table>, free: set<nat>, place: map<nat, Place>)

  predicate UserSlot(i: nat) { USER_FIRST <= i < USER_LIMIT }

  // -------------------------------------------------------------- addresses

  /** The four table indices of a virtual address. */
  function Indices(virt: nat): (p: seq<nat>)
    ensures |p| == 4 && forall i :: 0 <= i < 4 ==> p[i] < ENTRIES
  {
    [virt / 0x80_0000_0000 % 512, virt / 0x4000_0000 % 512, virt / 0x20_0000 % 512, virt / 0x1000 % 512]
  }

  /** The page number a path of four indices stands for. */
  function PageNumber(path: seq<nat>): nat
    requires |path| == 4
  {
    ((path[0] * 512 + path[1]) * 512 + path[2]) * 512 + path[3]
  }

  const USER_BASE: nat := 0x4000_0000_0000
  const USER_END: nat := 0x8000_0000_0000

  predicate UserAddress(virt: nat) { USER_BASE <= virt < USER_END }

  lemma UserAddressPath(virt: nat)
    requires UserAddress(virt)
    ensures UserPath(Indices(virt))
  {
  }

  /** Indices and PageNumber are inverse on 48-bit addresses. */
  lemma IndicesOfPage(virt: nat)
    requires virt < 0x1_0000_0000_0000
    ensures PageNumber(Indices(virt)) == virt / PAGE
  {
    var n := virt / 0x1000;
    assert virt / 0x20_0000 == n / 512;
    assert virt / 0x4000_0000 == n / 512 / 512;
    assert virt / 0x80_0000_0000 == n / 512 / 512 / 512 < 512;
    SplitDigits(n);
  }

  lemma SplitDigits(n: nat)
    ensures ((n / 512 / 512 / 512 * 512 + n / 512 / 512 % 512) * 512 + n / 512 % 512) * 512 + n % 512 == n
  {
    var a := n / 512;
    var b := a / 512;
    assert n == a * 512 + n % 512 && a == b * 512 + a % 512 && b == b / 512 * 512 + b % 512;
  }

  lemma LastDigit(a: nat, b: nat, x: nat, y: nat)
    requires a * 512 + x == b * 512 + y && x < 512 && y < 512
    ensures a == b && x == y
  {
  }

  lemma PageNumberInjective(v: seq<nat>, w: seq<nat>)
    requires |v| == 4 && |w| == 4 && PageNumber(v) == PageNumber(w)
    requires forall i :: 0 <= i < 4 ==> v[i] < ENTRIES && w[i] < ENTRIES
    ensures v == w
  {
    var v2, w2 := v[0] * 512 + v[1], w[0] * 512 + w[1];
    LastDigit(v2 * 512 + v[2], w2 * 512 + w[2], v[3], w[3]);
    LastDigit(v2, w2, v[2], w[2]);
    LastDigit(v[0], w[0], v[1], w[1]);
  }

  // ------------------------------------------------------------ translation

  /** Follow entries from table p; the last one is the translation. */
  function Walk(tables: map<nat, Table>, p: nat, path: seq<nat>): Option<Pte>
    requires |path| > 0 && forall i :: 0 <= i < |path| ==> path[i] < ENTRIES
    decreases |path|
  {
    if p !in tables then None
    else
      var e := tables[p][path[0]];
      if !e.present then None
      else if |path| == 1 then Some(e)
      else if e.huge then None
      else Walk(tables, e.frame, path[1..])
  }

  /** debug_resolve, with its large-page cases; a table outside the store reads as absent. */
  function Resolve(tables: map<nat, Table>, r: nat, virt: nat): Option<(nat, Pte)> {
    var p := Indices(virt);
    if r == 0 || r !in tables || !tables[r][p[0]].present || tables[r][p[0]].huge then None
    else
      var pdpt := tables[r][p[0]].frame;
      if pdpt !in tables || !tables[pdpt][p[1]].present then None
      else if tables[pdpt][p[1]].huge then Some((tables[pdpt][p[1]].frame + virt % 0x4000_0000, tables[pdpt][p[1]]))
      else
        var pd := tables[pdpt][p[1]].frame;
        if pd !in tables || !tables[pd][p[2]].present then None
        else if tables[pd][p[2]].huge then Some((tables[pd][p[2]].frame + virt % 0x20_0000, tables[pd][p[2]]))
        else
          var pt := tables[pd][p[2]].frame;
          if pt !in tables || !tables[pt][p[3]].present then None
          else Some((tables[pt][p[3]].frame + virt % PAGE, tables[pt][p[3]]))
  }

  // ------------------------------------------------------------- operations

  /** alloc_table_page handed out `grant`: zero it and hook it under p at index i. */
  function Hook(s: Space, p: nat, i: nat, user: bool, grant: nat): Space
    requires p in s.tables && p in s.place && i < ENTRIES
  {
    var entry := Pte(true, true, user, false, false, grant);
    Space(s.tables[grant := ZeroTable(ENTRIES)][p := s.tables[p][i := entry]], s.free - {grant},
          s.place[grant := Place(s.place[p].root, s.place[p].path + [i], p)])
  }

  /** ensure_next_table; result 0 is null, `grant` is the page allocator's answer if asked. */
  function EnsureNext(s: Space, p: nat, i: nat, user: bool, grant: nat): (Space, nat)
    requires p in s.tables && p in s.place && i < ENTRIES
  {
    var e := s.tables[p][i];
    if !e.present then
      if grant == 0 then (s, 0) else (Hook(s, p, i, user, grant), grant)
    else if e.huge then (s, 0)
    else (s.(tables := s.tables[p := s.tables[p][i := e.(writable := true, user := e.user || user)]]), e.frame)
  }

  function SetEntry(s: Space, p: nat, i: nat, e: Pte): Space
    requires p in s.tables && i < ENTRIES
  {
    s.(tables := s.tables[p := s.tables[p][i := e]])
  }

  /** The table reached by following present entries, 0 when one is missing. */
  function Follow(tables: map<nat, Table>, p: nat, path: seq<nat>): nat
    requires forall i :: 0 <= i < |path| ==> path[i] < ENTRIES
    decreases |path|
  {
    if path == [] then p
    else if p !in tables || !tables[p][path[0]].present || tables[p][path[0]].huge then 0
    else Follow(tables, tables[p][path[0]].frame, path[1..])
  }

  /** One page of unmap_range: clear the leaf entry when its table exists. */
  function UnmapPage(s: Space, r: nat, path: seq<nat>): Space
    requires UserPath(path)
  {
    var p := Follow(s.tables, r, path[..3]);
    if p == 0 || p !in s.tables then s else SetEntry(s, p, path[3], ZERO)
  }

  /** The kernel half of the boot table, with the user slots cleared. */
  function KernelClone(kernel: Table): (t: Table)
    ensures forall i :: 0 <= i < ENTRIES ==> t[i] == if UserSlot(i) then ZERO else kernel[i]
  {
    seq(512, i requires 0 <= i < 512 => if UserSlot(i) then ZERO else kernel[i])
  }

  /** create_address_space, when the page allocator answers with `grant`. */
  function Create(s: Space, kernel: Table, grant: nat): Space {
    Space(s.tables[grant := KernelClone(kernel)], s.free - {grant}, s.place[grant := Place(grant, [], 0)])
  }

  /** The table pages of one address space. */
  function PagesOf(s: Space, r: nat): set<nat> {
    set p | p in s.place && s.place[p].root == r
  }

  /** destroy_address_space: all its table pages go back, and nothing else does. */
  function Destroy(s: Space, r: nat): Space {
    Space(s.tables - PagesOf(s, r), s.free + PagesOf(s, r), s.place - PagesOf(s, r))
  }

  function LeafOf(phys: nat, flags: MapFlags): Pte {
    Pte(true, flags.writable, flags.user, false, !flags.executable, phys % ADDRESS_LIMIT)
  }

  // -------------------------------------------------------------- invariant

  /** Index i of the table at this path may be used by the address space itself. */
  predicate Owned(path: seq<nat>, i: nat) {
    i < ENTRIES && (path == [] ==> UserSlot(i))
  }

  ghost predicate PlaceOk(s: Space, p: nat)
    requires p in s.place
  {
    var l := s.place[p];
    && p in s.tables && p != 0 && |l.path| <= 3
    && l.root in s.place && s.place[l.root].path == [] && s.place[l.root].root == l.root
    && (|l.path| == 0 ==> l.root == p)
    && (|l.path| > 0 ==>
          var up, i := l.path[..|l.path| - 1], l.path[|l.path| - 1];
          && l.parent in s.place && s.place[l.parent].root == l.root && s.place[l.parent].path == up
          && Owned(up, i)
          && l.parent in s.tables && s.tables[l.parent][i].present && s.tables[l.parent][i].frame == p)
  }

  ghost predicate EntryOk(s: Space, p: nat, i: nat)
    requires p in s.place && p in s.tables && i < ENTRIES
  {
    var l, e := s.place[p], s.tables[p][i];
    && !e.huge
    && (e.present && |l.path| < 3 ==>
          e.frame in s.place && s.place[e.frame] == Place(l.root, l.path + [i], p))
  }

  /** Every page in use hangs in exactly one place of exactly one tree. */
  ghost predicate Inv(s: Space) {
    && s.tables.Keys == s.place.Keys
    && s.place.Keys !! s.free && 0 !in s.free
    && (forall p :: p in s.place ==> PlaceOk(s, p))
    && (forall p, i :: p in s.place && Owned(s.place[p].path, i) ==> EntryOk(s, p, i))
  }

  /** A full path through user slots. */
  predicate UserPath(path: seq<nat>) {
    |path| == 4 && (forall i :: 0 <= i < 4 ==> path[i] < ENTRIES) && UserSlot(path[0])
  }

  ghost predicate Root(s: Space, r: nat) {
    r in s.place && s.place[r].path == []
  }

  /** The flat map an address space denotes. */
  function Translate(s: Space, r: nat, path: seq<nat>): Option<Pte>
    requires UserPath(path)
  {
    Walk(s.tables, r, path)
  }

  /** Two states denote the same translations for every address space they share. */
  ghost predicate SameTranslations(s: Space, t: Space) {
    forall r, path :: Root(s, r) && UserPath(path) ==> Translate(t, r, path) == Translate(s, r, path)
  }
}
