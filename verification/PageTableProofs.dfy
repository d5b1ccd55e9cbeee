/** The page tables refine a flat map from pages to entries. */
module PageTableProofs {
  import opened Machine
  import opened Wrappers
  import opened PageTableModel

  /** A page is determined by its address space and its path. */
  lemma {:induction false} PlaceUnique(s: Space, p: nat, q: nat)
    requires Inv(s) && p in s.place && q in s.place
    requires s.place[p].root == s.place[q].root && s.place[p].path == s.place[q].path
    ensures p == q
    decreases |s.place[p].path|
  {
    assert PlaceOk(s, p) && PlaceOk(s, q);
    if |s.place[p].path| > 0 {
      PlaceUnique(s, s.place[p].parent, s.place[q].parent);
    }
  }

  // ------------------------------------------------------------------- hook

  ghost predicate CanHook(s: Space, p: nat, i: nat, grant: nat) {
    && p in s.place && p in s.tables && |s.place[p].path| < 3 && Owned(s.place[p].path, i)
    && grant in s.free && !s.tables[p][i].present && grant !in s.place && grant != 0
  }

  lemma HookPlaceOk(s: Space, p: nat, i: nat, user: bool, grant: nat, q: nat)
    requires CanHook(s, p, i, grant) && q in s.place && PlaceOk(s, q) && s.tables.Keys == s.place.Keys
    ensures PlaceOk(Hook(s, p, i, user, grant), q)
  {
  }

  lemma HookGrantOk(s: Space, p: nat, i: nat, user: bool, grant: nat)
    requires CanHook(s, p, i, grant) && PlaceOk(s, p)
    ensures PlaceOk(Hook(s, p, i, user, grant), grant)
    ensures forall j :: 0 <= j < ENTRIES ==> EntryOk(Hook(s, p, i, user, grant), grant, j)
  {
  }

  lemma HookEntryOk(s: Space, p: nat, i: nat, user: bool, grant: nat, q: nat, j: nat)
    requires CanHook(s, p, i, grant) && q in s.place && q in s.tables && j < ENTRIES && EntryOk(s, q, j)
    ensures EntryOk(Hook(s, p, i, user, grant), q, j)
  {
  }

  lemma HookKeepsInv(s: Space, p: nat, i: nat, user: bool, grant: nat)
    requires Inv(s) && p in s.place && |s.place[p].path| < 3 && Owned(s.place[p].path, i)
    requires grant in s.free && !s.tables[p][i].present
    ensures Inv(Hook(s, p, i, user, grant))
  {
    hide PlaceOk, EntryOk;
    var t := Hook(s, p, i, user, grant);
    HookGrantOk(s, p, i, user, grant);
    forall q | q in t.place ensures PlaceOk(t, q) {
      if q != grant { HookPlaceOk(s, p, i, user, grant, q); }
    }
    forall q, j | q in t.place && Owned(t.place[q].path, j) ensures EntryOk(t, q, j) {
      if q != grant { HookEntryOk(s, p, i, user, grant, q, j); }
    }
  }

  /** A fresh empty table changes no translation. */
  lemma {:induction false} HookKeepsWalk(s: Space, p: nat, i: nat, user: bool, grant: nat, q: nat, path: seq<nat>)
    requires Inv(s) && CanHook(s, p, i, grant)
    requires q in s.place && |path| == 4 - |s.place[q].path| > 0 && (forall k :: 0 <= k < |path| ==> path[k] < ENTRIES)
    requires Owned(s.place[q].path, path[0])
    ensures Walk(Hook(s, p, i, user, grant).tables, q, path) == Walk(s.tables, q, path)
    decreases |path|
  {
    hide PlaceOk;
    var t := Hook(s, p, i, user, grant);
    assert EntryOk(s, q, path[0]);
    var e := s.tables[q][path[0]];
    if q == p && path[0] == i {
      assert t.tables[grant] == ZeroTable(ENTRIES) && !t.tables[grant][path[1]].present;
      assert path[1..][0] == path[1];
    } else if e.present && |path| > 1 {
      HookKeepsWalk(s, p, i, user, grant, e.frame, path[1..]);
    }
  }

  // ---------------------------------------------------------- entry updates

  predicate SameTarget(s: Space, p: nat, i: nat, e: Pte)
    requires p in s.tables && i < ENTRIES
  {
    e.present == s.tables[p][i].present && e.frame == s.tables[p][i].frame
  }

  /** Writes of one entry that other pages' places do not depend on. */
  lemma SetPlaceOk(s: Space, p: nat, i: nat, e: Pte, q: nat)
    requires p in s.tables && i < ENTRIES && q in s.place && PlaceOk(s, q)
    requires SameTarget(s, p, i, e) || (p in s.place && |s.place[p].path| == 3)
    ensures PlaceOk(SetEntry(s, p, i, e), q)
  {
  }

  lemma SetEntryOk(s: Space, p: nat, i: nat, e: Pte, q: nat, j: nat)
    requires p in s.tables && i < ENTRIES && !e.huge
    requires q in s.place && q in s.tables && j < ENTRIES && EntryOk(s, q, j)
    requires SameTarget(s, p, i, e) || (p in s.place && |s.place[p].path| == 3)
    ensures EntryOk(SetEntry(s, p, i, e), q, j)
  {
  }

  /** Rewriting an entry in place, keeping where it points, or any entry of a leaf table. */
  lemma SetKeepsInv(s: Space, p: nat, i: nat, e: Pte)
    requires Inv(s) && p in s.place && Owned(s.place[p].path, i) && !e.huge
    requires SameTarget(s, p, i, e) || |s.place[p].path| == 3
    ensures Inv(SetEntry(s, p, i, e))
  {
    hide PlaceOk, EntryOk;
    var t := SetEntry(s, p, i, e);
    assert t.tables.Keys == s.tables.Keys;
    forall q | q in t.place ensures PlaceOk(t, q) { SetPlaceOk(s, p, i, e, q); }
    forall q, j | q in t.place && Owned(t.place[q].path, j) ensures EntryOk(t, q, j) { SetEntryOk(s, p, i, e, q, j); }
  }

  lemma {:induction false} FlagsKeepWalk(s: Space, p: nat, i: nat, e: Pte, q: nat, path: seq<nat>)
    requires Inv(s) && p in s.place && |s.place[p].path| < 3 && Owned(s.place[p].path, i)
    requires SameTarget(s, p, i, e) && !e.huge
    requires q in s.place && |path| == 4 - |s.place[q].path| > 0 && (forall k :: 0 <= k < |path| ==> path[k] < ENTRIES)
    requires Owned(s.place[q].path, path[0])
    ensures Walk(SetEntry(s, p, i, e).tables, q, path) == Walk(s.tables, q, path)
    decreases |path|
  {
    hide PlaceOk;
    assert EntryOk(s, q, path[0]);
    var d := s.tables[q][path[0]];
    if d.present && |path| > 1 { FlagsKeepWalk(s, p, i, e, d.frame, path[1..]); }
  }

  /** The table on the way to p at depth d, and the entry it goes through. */
  lemma {:induction false} OnTheWay(s: Space, p: nat, q: nat)
    requires Inv(s) && p in s.place && q in s.place && s.place[p].root == s.place[q].root
    requires |s.place[q].path| < |s.place[p].path| && s.place[q].path == s.place[p].path[..|s.place[q].path|]
    ensures s.place[p].path[|s.place[q].path|] < ENTRIES
    ensures s.tables[q][s.place[p].path[|s.place[q].path|]].present
    decreases |s.place[p].path|
  {
    assert PlaceOk(s, p);
    var l := s.place[p];
    var up := s.place[l.parent];
    if |up.path| == |s.place[q].path| {
      PlaceUnique(s, l.parent, q);
    } else {
      assert up.path[..|s.place[q].path|] == l.path[..|s.place[q].path|];
      OnTheWay(s, l.parent, q);
    }
  }

  /** The walk from q along this path is the walk to entry i of table p. */
  ghost predicate LeadsTo(s: Space, q: nat, path: seq<nat>, p: nat, i: nat)
    requires q in s.place && p in s.place
  {
    s.place[q].root == s.place[p].root && s.place[q].path + path == s.place[p].path + [i]
  }

  /** It changes the translation of that one page of that one address space. */
  lemma {:induction false} LeafWalk(s: Space, p: nat, i: nat, e: Pte, q: nat, path: seq<nat>)
    requires Inv(s) && p in s.place && |s.place[p].path| == 3 && i < ENTRIES && !e.huge
    requires q in s.place && |path| == 4 - |s.place[q].path| > 0 && (forall k :: 0 <= k < |path| ==> path[k] < ENTRIES)
    requires Owned(s.place[q].path, path[0])
    ensures Walk(SetEntry(s, p, i, e).tables, q, path)
         == if LeadsTo(s, q, path, p, i) then (if e.present then Some(e) else None) else Walk(s.tables, q, path)
    decreases |path|
  {
    hide PlaceOk;
    assert EntryOk(s, q, path[0]);
    var d, full := s.tables[q][path[0]], s.place[q].path + path;
    if |path| == 1 {
      assert full == s.place[q].path + [path[0]];
      if LeadsTo(s, q, path, p, i) {
        assert full[..3] == s.place[q].path && full[3] == path[0];
        PlaceUnique(s, p, q);
      }
    } else if d.present {
      assert (s.place[q].path + [path[0]]) + path[1..] == full;
      LeafWalk(s, p, i, e, d.frame, path[1..]);
    } else if LeadsTo(s, q, path, p, i) {
      LeadsOnTheWay(s, q, path, p, i);
    }
  }

  lemma LeadsOnTheWay(s: Space, q: nat, path: seq<nat>, p: nat, i: nat)
    requires Inv(s) && q in s.place && p in s.place && LeadsTo(s, q, path, p, i)
    requires |s.place[p].path| == 3 && |path| == 4 - |s.place[q].path| && |path| > 1 && path[0] < ENTRIES
    ensures s.tables[q][path[0]].present
  {
    hide PlaceOk, EntryOk;
    var n, full := |s.place[q].path|, s.place[q].path + path;
    assert full[..n] == s.place[q].path && full[n] == path[0];
    assert full[..n] == s.place[p].path[..n] && full[n] == s.place[p].path[n];
    OnTheWay(s, p, q);
  }

  // --------------------------------------------------------- ensure and map

  /** What each step of a mapping keeps: soundness, old places and every translation. */
  ghost predicate Extends(s: Space, t: Space) {
    && Inv(t)
    && (forall p :: p in s.place ==> p in t.place && t.place[p] == s.place[p])
    && t.free + t.place.Keys == s.free + s.place.Keys
    && SameTranslations(s, t)
    && (forall r :: Root(t, r) ==> Root(s, r))
  }

  lemma ExtendsTrans(s: Space, t: Space, u: Space)
    requires Extends(s, t) && Extends(t, u)
    ensures Extends(s, u)
  {
    hide Inv;
    forall r, path | Root(s, r) && UserPath(path) ensures Translate(u, r, path) == Translate(s, r, path) {
      assert Root(t, r);
    }
  }

  lemma HookExtends(s: Space, p: nat, i: nat, user: bool, grant: nat)
    requires Inv(s) && CanHook(s, p, i, grant)
    ensures Extends(s, Hook(s, p, i, user, grant))
  {
    hide PlaceOk, EntryOk, Walk;
    var t := Hook(s, p, i, user, grant);
    HookKeepsInv(s, p, i, user, grant);
    forall r, path | Root(s, r) && UserPath(path) ensures Translate(t, r, path) == Translate(s, r, path) {
      HookKeepsWalk(s, p, i, user, grant, r, path);
    }
  }

  lemma FlagsExtend(s: Space, p: nat, i: nat, e: Pte)
    requires Inv(s) && p in s.place && |s.place[p].path| < 3 && Owned(s.place[p].path, i)
    requires SameTarget(s, p, i, e) && !e.huge
    ensures Extends(s, SetEntry(s, p, i, e))
  {
    hide PlaceOk, EntryOk, Walk;
    var t := SetEntry(s, p, i, e);
    SetKeepsInv(s, p, i, e);
    forall r, path | Root(s, r) && UserPath(path) ensures Translate(t, r, path) == Translate(s, r, path) {
      FlagsKeepWalk(s, p, i, e, r, path);
    }
  }

  lemma ExtendsRefl(s: Space)
    requires Inv(s)
    ensures Extends(s, s)
  {
  }

  lemma EnsureNextKeeps(s: Space, p: nat, i: nat, user: bool, grant: nat)
    requires Inv(s) && p in s.place && |s.place[p].path| < 3 && Owned(s.place[p].path, i)
    requires grant == 0 || grant in s.free
    ensures var (t, c) := EnsureNext(s, p, i, user, grant);
            && Extends(s, t) && s.free - {grant} <= t.free
            && (c == 0 <==> !s.tables[p][i].present && grant == 0)
            && (c == 0 ==> t == s)
            && (c != 0 ==> c in t.place && t.place[c] == Place(s.place[p].root, s.place[p].path + [i], p))
  {
    hide Extends;
    assert EntryOk(s, p, i) && PlaceOk(s, p);
    var e := s.tables[p][i];
    if !e.present {
      if grant != 0 { HookExtends(s, p, i, user, grant); } else { ExtendsRefl(s); }
    } else {
      assert PlaceOk(s, e.frame);
      FlagsExtend(s, p, i, e.(writable := true, user := e.user || user));
    }
  }

  /** The page allocator's answers to the up to three requests of one mapping. */
  ghost predicate ValidGrants(s: Space, g: seq<nat>) {
    && |g| == 3
    && (forall i :: 0 <= i < 3 ==> g[i] == 0 || g[i] in s.free)
    && (forall i, j :: 0 <= i < j < 3 && g[i] != 0 ==> g[i] != g[j])
  }

  /** p is the table of address space r at depth d on this path. */
  ghost predicate At(s: Space, p: nat, r: nat, path: seq<nat>, d: nat)
    requires d <= |path|
  {
    p != 0 && p in s.place && s.place[p].root == r && s.place[p].path == path[..d]
  }

  lemma DescendStep(s: Space, t: Space, r: nat, p: nat, path: seq<nat>, user: bool, grant: nat, d: nat)
    requires Extends(s, t) && UserPath(path) && d < 3 && At(t, p, r, path, d) && (grant == 0 || grant in t.free)
    ensures Inv(t) && p in t.tables && p in t.place && path[d] < ENTRIES
    ensures var (u, c) := EnsureNext(t, p, path[d], user, grant);
            && Extends(s, u) && t.free - {grant} <= u.free
            && (c != 0 ==> At(u, c, r, path, d + 1))
            && (c == 0 <==> !t.tables[p][path[d]].present && grant == 0)
  {
    hide PlaceOk, EntryOk, SameTranslations;
    assert Owned(t.place[p].path, path[d]);
    EnsureNextKeeps(t, p, path[d], user, grant);
    ExtendsTrans(s, t, EnsureNext(t, p, path[d], user, grant).0);
    assert path[..d + 1] == path[..d] + [path[d]];
  }

  /** The state and table a mapping has reached at depth d; table 0 when one could not be made. */
  ghost predicate Reached(s: Space, t: Space, p: nat, r: nat, path: seq<nat>, g: seq<nat>, d: nat)
    requires |g| == 3 && d <= |path|
  {
    && Extends(s, t)
    && (forall i :: d <= i < 3 && g[i] != 0 ==> g[i] in t.free)
    && (p != 0 ==> At(t, p, r, path, d))
  }

  /** One level down: from a table reached at depth d to one at depth d + 1, or to no table. */
  lemma ReachedNext(s: Space, t: Space, p: nat, r: nat, path: seq<nat>, user: bool, g: seq<nat>, d: nat)
    requires |g| == 3 && UserPath(path) && d < 3 && ValidGrants(s, g)
    requires Reached(s, t, p, r, path, g, d) && p != 0
    ensures Inv(t) && p in t.tables && p in t.place && Owned(t.place[p].path, path[d])
    ensures path[d] < ENTRIES && (g[d] == 0 || g[d] in t.free)
    ensures var (u, c) := EnsureNext(t, p, path[d], user, g[d]); Reached(s, u, c, r, path, g, d + 1)
  {
    hide Inv, Extends, EnsureNext;
    DescendStep(s, t, r, p, path, user, g[d], d);
  }

  /** Walk down d levels from the root, making tables on the way. */
  function Descend(s: Space, r: nat, path: seq<nat>, user: bool, g: seq<nat>, d: nat): (res: (Space, nat))
    requires Inv(s) && Root(s, r) && UserPath(path) && ValidGrants(s, g) && d <= 3
    ensures Reached(s, res.0, res.1, r, path, g, d)
    decreases d
  {
    hide Inv, Extends, At, EnsureNext, Reached;
    if d == 0 then
      DescendStart(s, r, path, g);
      (s, r)
    else
      var (t, p) := Descend(s, r, path, user, g, d - 1);
      if p == 0 then
        ReachedNothing(s, t, r, path, g, d - 1);
        (t, 0)
      else
        ReachedNext(s, t, p, r, path, user, g, d - 1);
        EnsureNext(t, p, path[d - 1], user, g[d - 1])
  }

  lemma ReachedNothing(s: Space, t: Space, r: nat, path: seq<nat>, g: seq<nat>, d: nat)
    requires |g| == 3 && d < |path| && Reached(s, t, 0, r, path, g, d)
    ensures Reached(s, t, 0, r, path, g, d + 1)
  {
    hide Inv, Extends, At;
  }

  lemma DescendStart(s: Space, r: nat, path: seq<nat>, g: seq<nat>)
    requires Inv(s) && Root(s, r) && UserPath(path) && ValidGrants(s, g)
    ensures Reached(s, s, r, r, path, g, 0)
  {
    assert PlaceOk(s, r);
    ExtendsRefl(s);
  }

  /** map_page on a user page, once its arguments passed the checks. */
  function MapPage(s: Space, r: nat, path: seq<nat>, leaf: Pte, user: bool, g: seq<nat>): (res: (Space, bool))
    requires Inv(s) && Root(s, r) && UserPath(path) && ValidGrants(s, g)
  {
    var (t, p) := Descend(s, r, path, user, g, 3);
    if p == 0 then (t, false)
    else
      LeafReached(s, t, p, r, path, g);
      (SetEntry(t, p, path[3], leaf), true)
  }

  lemma LeafReached(s: Space, t: Space, p: nat, r: nat, path: seq<nat>, g: seq<nat>)
    requires UserPath(path) && |g| == 3 && Reached(s, t, p, r, path, g, 3) && p != 0
    ensures Inv(t) && p in t.tables && p in t.place && t.place[p].root == r && t.place[p].path == path[..3]
            && path[3] < ENTRIES
  {
    hide PlaceOk, EntryOk;
  }

  /** Only the translation of one page of one address space differs. */
  ghost predicate OnePageChanged(s: Space, t: Space, r: nat, path: seq<nat>, leaf: Option<Pte>)
    requires UserPath(path)
  {
    forall q, w :: Root(s, q) && UserPath(w) ==>
      Translate(t, q, w) == if q == r && w == path then leaf else Translate(s, q, w)
  }

  /** Same pages in use or free, same address spaces. */
  ghost predicate SamePool(s: Space, t: Space) {
    && t.free + t.place.Keys == s.free + s.place.Keys
    && (forall q :: Root(t, q) <==> Root(s, q))
  }

  lemma LeafChangesOnePage(s: Space, p: nat, r: nat, path: seq<nat>, e: Pte)
    requires Inv(s) && UserPath(path) && At(s, p, r, path, 3) && !e.huge && Root(s, r)
    ensures Inv(SetEntry(s, p, path[3], e))
    ensures OnePageChanged(s, SetEntry(s, p, path[3], e), r, path, if e.present then Some(e) else None)
  {
    hide PlaceOk, EntryOk, Walk, Translate;
    SetKeepsInv(s, p, path[3], e);
    forall q, w | Root(s, q) && UserPath(w)
      ensures Translate(SetEntry(s, p, path[3], e), q, w)
           == if q == r && w == path then (if e.present then Some(e) else None) else Translate(s, q, w)
    {
      LeafTranslate(s, p, r, path, e, q, w);
    }
  }

  lemma LeafTranslate(s: Space, p: nat, r: nat, path: seq<nat>, e: Pte, q: nat, w: seq<nat>)
    requires Inv(s) && UserPath(path) && At(s, p, r, path, 3) && !e.huge && Root(s, q) && UserPath(w)
    ensures Translate(SetEntry(s, p, path[3], e), q, w)
         == if q == r && w == path then (if e.present then Some(e) else None) else Translate(s, q, w)
  {
    hide Inv, PlaceOk, EntryOk, Walk;
    RootNonzero(s, q);
    PlaceNonzero(s, p);
    LeafWalk(s, p, path[3], e, q, w);
    assert [] + w == w && path[..3] + [path[3]] == path;
  }

  lemma RootNonzero(s: Space, r: nat)
    requires Inv(s) && Root(s, r)
    ensures r != 0 && s.place[r].root == r
  {
    assert PlaceOk(s, r);
  }

  /** With a page for every request, the descent succeeds. */
  lemma {:induction false} DescendSucceeds(s: Space, r: nat, path: seq<nat>, user: bool, g: seq<nat>, d: nat)
    requires Inv(s) && Root(s, r) && UserPath(path) && ValidGrants(s, g) && d <= 3
    requires forall i :: 0 <= i < d ==> g[i] != 0
    ensures Descend(s, r, path, user, g, d).1 != 0
    decreases d
  {
    hide Inv, Extends, At, EnsureNext;
    if d == 0 {
      RootNonzero(s, r);
    } else {
      DescendSucceeds(s, r, path, user, g, d - 1);
      var (t, p) := Descend(s, r, path, user, g, d - 1);
      DescendStep(s, t, r, p, path, user, g[d - 1], d - 1);
    }
  }

  lemma ChangeAfterExtension(s: Space, t: Space, u: Space, r: nat, path: seq<nat>, leaf: Option<Pte>)
    requires Extends(s, t) && UserPath(path) && OnePageChanged(t, u, r, path, leaf)
    requires u.free == t.free && u.place == t.place
    ensures OnePageChanged(s, u, r, path, leaf) && SamePool(s, u)
  {
    hide Inv;
    forall q | Root(s, q) ensures Root(t, q) { }
  }

  /**
   map_page refines the flat map: success changes exactly one page of one address space,
   failure changes no translation at all; both keep the trees sound and lose no page.
   */
  lemma MapPageRefines(s: Space, r: nat, path: seq<nat>, leaf: Pte, user: bool, g: seq<nat>)
    requires Inv(s) && Root(s, r) && UserPath(path) && ValidGrants(s, g) && leaf.present && !leaf.huge
    ensures var (t, ok) := MapPage(s, r, path, leaf, user, g);
            && Inv(t) && SamePool(s, t)
            && (ok ==> OnePageChanged(s, t, r, path, Some(leaf)))
            && (!ok ==> SameTranslations(s, t))
            && ((forall i :: 0 <= i < 3 ==> g[i] != 0) ==> ok)
  {
    hide Descend, PlaceOk, EntryOk, SameTranslations, OnePageChanged;
    var (t, p) := Descend(s, r, path, user, g, 3);
    if forall i :: 0 <= i < 3 ==> g[i] != 0 { DescendSucceeds(s, r, path, user, g, 3); }
    if p != 0 {
      LeafReached(s, t, p, r, path, g);
      assert Root(t, r);
      LeafChangesOnePage(t, p, r, path, leaf);
      ChangeAfterExtension(s, t, SetEntry(t, p, path[3], leaf), r, path, Some(leaf));
    }
  }

  // ------------------------------------------------------------------ unmap

  lemma {:induction false} FollowAt(s: Space, p: nat, path: seq<nat>, last: nat)
    requires Inv(s) && p in s.place && |s.place[p].path| + |path| == 3 && last < ENTRIES
    requires (forall k :: 0 <= k < |path| ==> path[k] < ENTRIES) && (|path| > 0 ==> Owned(s.place[p].path, path[0]))
    ensures var c := Follow(s.tables, p, path);
            && (c != 0 ==>
                  c in s.place && s.place[c].root == s.place[p].root && s.place[c].path == s.place[p].path + path)
            && (c == 0 ==> Walk(s.tables, p, path + [last]) == None)
    decreases |path|
  {
    hide PlaceOk;
    PlaceNonzero(s, p);
    if path == [] {
      assert s.place[p].path + path == s.place[p].path;
    } else {
      assert EntryOk(s, p, path[0]);
      var e, full := s.tables[p][path[0]], path + [last];
      assert full[0] == path[0] && full[1..] == path[1..] + [last];
      if e.present {
        FollowAt(s, e.frame, path[1..], last);
        assert (s.place[p].path + [path[0]]) + path[1..] == s.place[p].path + path;
      }
    }
  }

  lemma PlaceNonzero(s: Space, p: nat)
    requires Inv(s) && p in s.place
    ensures p != 0 && p in s.tables
  {
    assert PlaceOk(s, p);
  }

  lemma UnmappedAlready(s: Space, r: nat, path: seq<nat>)
    requires UserPath(path) && Translate(s, r, path) == None
    ensures OnePageChanged(s, s, r, path, None)
  {
    hide Walk;
  }

  /** unmap_range clears exactly the page, whether or not it was mapped. */
  lemma UnmapPageRefines(s: Space, r: nat, path: seq<nat>)
    requires Inv(s) && Root(s, r) && UserPath(path)
    ensures var t := UnmapPage(s, r, path);
            Inv(t) && OnePageChanged(s, t, r, path, None) && t.free == s.free && t.place == s.place
  {
    hide Inv, PlaceOk, EntryOk, Walk, Follow, OnePageChanged;
    RootNonzero(s, r);
    assert path[..3] + [path[3]] == path && [] + path[..3] == path[..3];
    FollowAt(s, r, path[..3], path[3]);
    var p := Follow(s.tables, r, path[..3]);
    if p != 0 {
      PlaceNonzero(s, p);
      LeafChangesOnePage(s, p, r, path, ZERO);
    } else {
      UnmappedAlready(s, r, path);
    }
  }

  // ----------------------------------------------------- create and destroy

  lemma {:induction false} OtherWalk(s: Space, t: Space, r: nat, q: nat, path: seq<nat>)
    requires Inv(s) && q in s.place && |path| == 4 - |s.place[q].path| > 0 && s.place[q].root == r
    requires (forall k :: 0 <= k < |path| ==> path[k] < ENTRIES) && Owned(s.place[q].path, path[0])
    requires forall p :: p in s.place && s.place[p].root == r ==> p in t.tables && t.tables[p] == s.tables[p]
    ensures Walk(t.tables, q, path) == Walk(s.tables, q, path)
    decreases |path|
  {
    hide PlaceOk;
    assert EntryOk(s, q, path[0]);
    var e := s.tables[q][path[0]];
    if e.present && |path| > 1 { OtherWalk(s, t, r, e.frame, path[1..]); }
  }

  lemma CreateKeepsInv(s: Space, kernel: Table, grant: nat)
    requires Inv(s) && grant in s.free
    ensures Inv(Create(s, kernel, grant))
  {
    hide PlaceOk, EntryOk;
    var t := Create(s, kernel, grant);
    CreateGrantOk(s, kernel, grant);
    forall p | p in t.place ensures PlaceOk(t, p) {
      if p != grant { CreatePlaceOk(s, kernel, grant, p); }
    }
    forall p, i | p in t.place && Owned(t.place[p].path, i) ensures EntryOk(t, p, i) {
      if p != grant { CreateEntryOk(s, kernel, grant, p, i); }
    }
  }

  lemma CreateGrantOk(s: Space, kernel: Table, grant: nat)
    requires grant != 0
    ensures PlaceOk(Create(s, kernel, grant), grant)
    ensures forall i :: UserSlot(i) ==> EntryOk(Create(s, kernel, grant), grant, i)
  {
  }

  lemma CreateEntryOk(s: Space, kernel: Table, grant: nat, p: nat, i: nat)
    requires grant !in s.place && p in s.place && p in s.tables && i < ENTRIES && EntryOk(s, p, i)
    ensures EntryOk(Create(s, kernel, grant), p, i)
  {
  }

  lemma CreatePlaceOk(s: Space, kernel: Table, grant: nat, p: nat)
    requires s.tables.Keys == s.place.Keys && grant !in s.place && p in s.place && PlaceOk(s, p)
    ensures PlaceOk(Create(s, kernel, grant), p)
  {
  }

  /** A new address space maps nothing and disturbs no other. */
  lemma CreateRefines(s: Space, kernel: Table, grant: nat)
    requires Inv(s) && grant in s.free
    ensures var t := Create(s, kernel, grant);
            && Inv(t) && SameTranslations(s, t) && t.free + t.place.Keys == s.free + s.place.Keys
            && (forall q :: Root(t, q) <==> Root(s, q) || q == grant)
            && (forall path :: UserPath(path) ==> Translate(t, grant, path) == None)
  {
    hide PlaceOk, EntryOk;
    CreateKeepsInv(s, kernel, grant);
    var t := Create(s, kernel, grant);
    forall r, path | Root(s, r) && UserPath(path) ensures Translate(t, r, path) == Translate(s, r, path) {
      RootNonzero(s, r);
      OtherWalk(s, t, r, r, path);
    }
  }

  lemma DestroyPlaceOk(s: Space, r: nat, p: nat)
    requires p in s.place && s.place[p].root != r && PlaceOk(s, p)
    ensures PlaceOk(Destroy(s, r), p)
  {
  }

  lemma DestroyEntryOk(s: Space, r: nat, p: nat, i: nat)
    requires p in s.place && p in s.tables && s.place[p].root != r && i < ENTRIES && EntryOk(s, p, i)
    ensures EntryOk(Destroy(s, r), p, i)
  {
  }

  lemma DestroyKeepsInv(s: Space, r: nat)
    requires Inv(s) && Root(s, r)
    ensures Inv(Destroy(s, r))
  {
    hide PlaceOk, EntryOk;
    var t := Destroy(s, r);
    RootNonzero(s, r);
    forall p | p in t.place ensures PlaceOk(t, p) { DestroyPlaceOk(s, r, p); }
    forall p, i | p in t.place && Owned(t.place[p].path, i) ensures EntryOk(t, p, i) { DestroyEntryOk(s, r, p, i); }
    forall p | p in PagesOf(s, r) ensures p != 0 { PlaceNonzero(s, p); }
  }

  /** Destroying an address space gives its pages back and disturbs no other. */
  lemma DestroyRefines(s: Space, r: nat)
    requires Inv(s) && Root(s, r)
    ensures var t := Destroy(s, r);
            && Inv(t) && t.free + t.place.Keys == s.free + s.place.Keys
            && (forall q :: Root(t, q) <==> Root(s, q) && q != r)
            && (forall q, path :: Root(t, q) && UserPath(path) ==> Translate(t, q, path) == Translate(s, q, path))
  {
    hide PlaceOk, EntryOk;
    DestroyKeepsInv(s, r);
    var t := Destroy(s, r);
    forall q | Root(s, q) ensures s.place[q].root == q { RootNonzero(s, q); }
    forall q, path | Root(t, q) && UserPath(path) ensures Translate(t, q, path) == Translate(s, q, path) {
      OtherWalk(s, t, q, q, path);
    }
  }

  /** On user addresses debug_resolve reads the flat map: no large page is ever there. */
  lemma ResolveIsTranslate(s: Space, r: nat, virt: nat)
    requires Inv(s) && Root(s, r) && UserAddress(virt)
    ensures UserPath(Indices(virt))
    ensures Resolve(s.tables, r, virt)
         == match Translate(s, r, Indices(virt)) case None => None case Some(e) => Some((e.frame + virt % PAGE, e))
  {
    hide PlaceOk;
    UserAddressPath(virt);
    RootNonzero(s, r);
    hide Indices;
    var p := Indices(virt);
    assert EntryOk(s, r, p[0]);
    var e4 := s.tables[r][p[0]];
    assert p[1..][0] == p[1] && p[1..][1..] == p[2..] && p[2..][0] == p[2] && p[2..][1..] == p[3..]
           && p[3..][0] == p[3];
    if e4.present {
      PlaceNonzero(s, e4.frame);
      assert EntryOk(s, e4.frame, p[1]);
      var e3 := s.tables[e4.frame][p[1]];
      assert Walk(s.tables, r, p) == Walk(s.tables, e4.frame, p[1..]);
      if e3.present {
        PlaceNonzero(s, e3.frame);
        assert EntryOk(s, e3.frame, p[2]);
        assert Walk(s.tables, e4.frame, p[1..]) == Walk(s.tables, e3.frame, p[2..]);
        var e2 := s.tables[e3.frame][p[2]];
        if e2.present {
          PlaceNonzero(s, e2.frame);
          assert Walk(s.tables, e3.frame, p[2..]) == Walk(s.tables, e2.frame, p[3..]);
        }
      }
    }
  }

  // -------------------------------------------------------------------- runs

  datatype Op =
    | NewSpace(grant: nat)
    | MapUser(r: nat, path: seq<nat>, phys: nat, flags: MapFlags, grants: seq<nat>)
    | UnmapUser(r: nat, path: seq<nat>)
    | DropSpace(r: nat)

  ghost predicate ValidOp(s: Space, op: Op) {
    match op
    case NewSpace(grant) => grant in s.free
    case MapUser(r, path, _, _, grants) => Root(s, r) && UserPath(path) && ValidGrants(s, grants)
    case UnmapUser(r, path) => Root(s, r) && UserPath(path)
    case DropSpace(r) => Root(s, r)
  }

  function Step(s: Space, kernel: Table, op: Op): Space
    requires Inv(s) && ValidOp(s, op)
  {
    match op
    case NewSpace(grant) => Create(s, kernel, grant)
    case MapUser(r, path, phys, flags, grants) => MapPage(s, r, path, LeafOf(phys, flags), flags.user, grants).0
    case UnmapUser(r, path) => UnmapPage(s, r, path)
    case DropSpace(r) => Destroy(s, r)
  }

  /** Did the operation do what it was asked? Only a mapping can fail, for want of tables. */
  function Succeeds(s: Space, op: Op): bool
    requires Inv(s) && ValidOp(s, op)
  {
    match op
    case MapUser(r, path, phys, flags, grants) => MapPage(s, r, path, LeafOf(phys, flags), flags.user, grants).1
    case _ => true
  }

  /** Where a page leads and what may be done there. */
  datatype Mapping = Mapping(phys: nat, writable: bool, user: bool, executable: bool)

  /** The flat view: for each live address space a partial map from pages to mappings. */
  datatype Flat = Flat(spaces: set<nat>, pages: map<(nat, seq<nat>), Mapping>)

  function FlatStep(f: Flat, op: Op, ok: bool): Flat {
    match op
    case NewSpace(grant) => f.(spaces := f.spaces + {grant})
    case MapUser(r, path, phys, flags, _) =>
      var m := Mapping(phys % ADDRESS_LIMIT, flags.writable, flags.user, flags.executable);
      if ok then f.(pages := f.pages[(r, path) := m]) else f
    case UnmapUser(r, path) => f.(pages := f.pages - {(r, path)})
    case DropSpace(r) => Flat(f.spaces - {r}, map k | k in f.pages && k.0 != r :: f.pages[k])
  }

  function Lookup(f: Flat, r: nat, path: seq<nat>): Option<Mapping> {
    if (r, path) in f.pages then Some(f.pages[(r, path)]) else None
  }

  /** What a leaf entry says. */
  function Meaning(e: Option<Pte>): Option<Mapping> {
    match e
    case None => None
    case Some(leaf) => Some(Mapping(leaf.frame, leaf.writable, leaf.user, !leaf.xd))
  }

  ghost predicate Refines(s: Space, f: Flat) {
    && (forall r :: Root(s, r) <==> r in f.spaces)
    && (forall k :: k in f.pages ==> k.0 in f.spaces)
    && (forall r, path :: Root(s, r) && UserPath(path) ==> Meaning(Translate(s, r, path)) == Lookup(f, r, path))
  }

  /** Every operation is its flat counterpart, and neither makes nor loses a page. */
  lemma StepRefines(s: Space, f: Flat, kernel: Table, op: Op)
    requires Inv(s) && ValidOp(s, op) && Refines(s, f)
    ensures var t := Step(s, kernel, op);
            Inv(t) && Refines(t, FlatStep(f, op, Succeeds(s, op))) && t.free + t.place.Keys == s.free + s.place.Keys
  {
    hide Inv, MapPage, UnmapPage, Create, Destroy, Translate, LeafOf;
    match op
    case NewSpace(grant) =>
      CreateRefines(s, kernel, grant);
      GrantIsNew(s, grant);
    case MapUser(r, path, phys, flags, grants) =>
      LeafIsPlain(phys, flags);
      MapPageRefines(s, r, path, LeafOf(phys, flags), flags.user, grants);
    case UnmapUser(r, path) => UnmapPageRefines(s, r, path);
    case DropSpace(r) => DestroyRefines(s, r);
  }

  lemma GrantIsNew(s: Space, grant: nat)
    requires Inv(s) && grant in s.free
    ensures !Root(s, grant)
  {
  }

  /** The leaf entry leads to the frame and grants what was asked for. */
  lemma LeafIsPlain(phys: nat, flags: MapFlags)
    ensures LeafOf(phys, flags).present && !LeafOf(phys, flags).huge
    ensures Meaning(Some(LeafOf(phys, flags)))
         == Some(Mapping(phys % ADDRESS_LIMIT, flags.writable, flags.user, flags.executable))
  {
  }

  ghost predicate ValidRun(s: Space, kernel: Table, ops: seq<Op>)
    decreases |ops|
  {
    ops == [] || (Inv(s) && ValidOp(s, ops[0]) && ValidRun(Step(s, kernel, ops[0]), kernel, ops[1..]))
  }

  /** The tables and the flat view after a run, side by side. */
  ghost function Run(s: Space, f: Flat, kernel: Table, ops: seq<Op>): (Space, Flat)
    requires ValidRun(s, kernel, ops)
    decreases |ops|
  {
    if ops == [] then (s, f)
    else Run(Step(s, kernel, ops[0]), FlatStep(f, ops[0], Succeeds(s, ops[0])), kernel, ops[1..])
  }

  /** In every run the tables are the flat map, and pages in use plus free pages are constant. */
  lemma {:induction false} RunRefines(s: Space, f: Flat, kernel: Table, ops: seq<Op>)
    requires Inv(s) && Refines(s, f) && ValidRun(s, kernel, ops)
    ensures var (t, g) := Run(s, f, kernel, ops);
            Inv(t) && Refines(t, g) && t.free + t.place.Keys == s.free + s.place.Keys
    decreases |ops|
  {
    if ops != [] {
      hide Inv, Refines, FlatStep, Step, Succeeds;
      StepRefines(s, f, kernel, ops[0]);
      RunRefines(Step(s, kernel, ops[0]), FlatStep(f, ops[0], Succeeds(s, ops[0])), kernel, ops[1..]);
    }
  }

  /** From boot: once every address space is destroyed, every table page is free again. */
  lemma AllPagesReturn(pages: set<nat>, kernel: Table, ops: seq<Op>)
    requires 0 !in pages
    requires ValidRun(Space(map[], pages, map[]), kernel, ops)
    ensures var (t, g) := Run(Space(map[], pages, map[]), Flat({}, map[]), kernel, ops);
            g.spaces == {} ==> t.free == pages
  {
    var s, f := Space(map[], pages, map[]), Flat({}, map[]);
    assert Refines(s, f);
    RunRefines(s, f, kernel, ops);
    var (t, g) := Run(s, f, kernel, ops);
    if g.spaces == {} {
      forall p | p in t.place ensures Root(t, t.place[p].root) { assert PlaceOk(t, p); }
      assert t.place.Keys == {};
    }
  }
}
