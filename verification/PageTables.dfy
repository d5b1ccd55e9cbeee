/**
 The page-table manager: the table walks and updates of src/core/virtual_memory.cpp.
 Pages come from and go back to the physical page allocator, whose answers are parameters;
 giving back a page that is already free is ruled out by a precondition.
 */
module PageTables {
  import opened Machine
  import opened Wrappers
  import opened PageTableModel
  import opened PageTableProofs
  import opened PageTableAccess

  /** Pages strictly below the table p in its tree. */
  ghost function Below(s: Space, p: nat): set<nat>
    requires p in s.place
  {
    set q | q in s.place && q != p && s.place[q].root == s.place[p].root && s.place[p].path <= s.place[q].path
  }

  /** Pages below p through an index smaller than n. */
  ghost function BelowUpTo(s: Space, p: nat, n: nat): set<nat>
    requires p in s.place
  {
    set q | q in Below(s, p) && |s.place[q].path| > |s.place[p].path| && s.place[q].path[|s.place[p].path|] < n
  }

  /** t is s with the given pages taken out of use, tables other than p and those untouched. */
  ghost predicate Removed(s: Space, t: Space, p: nat, gone: set<nat>) {
    && Inv(t)
    && t.place == s.place - gone && t.free == s.free + gone
    && (forall q :: q in s.tables && q != p && q !in gone ==> q in t.tables && t.tables[q] == s.tables[q])
  }

  /** The path of a page below p is longer than that of p. */
  lemma BelowIsLonger(s: Space, p: nat, q: nat)
    requires Inv(s) && p in s.place && q in Below(s, p)
    ensures |s.place[q].path| > |s.place[p].path|
  {
    if |s.place[q].path| == |s.place[p].path| { PlaceUnique(s, p, q); }
  }

  // -------------------------------------------------------- one child removed

  /** Cut the subtree hanging from entry i of p, once only its top table is left. */
  function CutChild(s: Space, p: nat, i: nat): Space
    requires p in s.tables && i < ENTRIES
  {
    var c := s.tables[p][i].frame;
    Space((s.tables - {c})[p := s.tables[p][i := ZERO]], s.free + {c}, s.place - {c})
  }

  ghost predicate CanCut(s: Space, p: nat, i: nat) {
    && p in s.place && p in s.tables && |s.place[p].path| < 3 && Owned(s.place[p].path, i) && s.tables[p][i].present
    && var c := s.tables[p][i].frame;
       && c in s.place && s.place[c] == Place(s.place[p].root, s.place[p].path + [i], p) && c != p && c != 0
       && (forall q :: q in s.place && |s.place[q].path| > 0 ==> s.place[q].parent != c)
       && |s.place[c].path| > 0
  }

  lemma CutPlaceOk(s: Space, p: nat, i: nat, q: nat)
    requires CanCut(s, p, i) && q in s.place && q != s.tables[p][i].frame && PlaceOk(s, q)
    ensures PlaceOk(CutChild(s, p, i), q)
  {
  }

  lemma CutEntryOk(s: Space, p: nat, i: nat, q: nat, j: nat)
    requires CanCut(s, p, i) && q in s.place && q != s.tables[p][i].frame && q in s.tables && j < ENTRIES
             && EntryOk(s, q, j)
    ensures EntryOk(CutChild(s, p, i), q, j)
  {
    var n := |s.place[p].path|;
    assert (s.place[p].path + [i])[n] == i;
    assert (s.place[q].path + [j])[|s.place[q].path|] == j;
  }

  lemma CutKeepsInv(s: Space, p: nat, i: nat)
    requires Inv(s) && CanCut(s, p, i)
    ensures Inv(CutChild(s, p, i))
  {
    hide PlaceOk, EntryOk;
    var t := CutChild(s, p, i);
    forall q | q in t.place ensures PlaceOk(t, q) { CutPlaceOk(s, p, i, q); }
    forall q, j | q in t.place && Owned(t.place[q].path, j) ensures EntryOk(t, q, j) { CutEntryOk(s, p, i, q, j); }
  }

  /** The pages below p through index n are the child there and what is below the child. */
  lemma NextBelow(s: Space, p: nat, n: nat, c: nat)
    requires Inv(s) && p in s.place && n < ENTRIES
    requires c in s.place && s.place[c].root == s.place[p].root && s.place[c].path == s.place[p].path + [n]
    ensures BelowUpTo(s, p, n + 1) == BelowUpTo(s, p, n) + Below(s, c) + {c}
  {
    hide Inv;
    var d := |s.place[p].path|;
    assert s.place[c].path[d] == n && s.place[c].path[..d] == s.place[p].path;
    forall q | q in BelowUpTo(s, p, n + 1) ensures q in BelowUpTo(s, p, n) + Below(s, c) + {c} {
      if s.place[q].path[d] == n { assert s.place[c].path == s.place[q].path[..d + 1]; }
    }
    forall q | q in Below(s, c) ensures q in BelowUpTo(s, p, n + 1) {
      assert s.place[q].path[..d + 1] == s.place[c].path && s.place[q].path[d] == n;
      assert s.place[q].path[..d] == s.place[p].path;
    }
  }

  /** Without a present entry at n nothing hangs there. */
  lemma NothingBelow(s: Space, p: nat, n: nat)
    requires Inv(s) && p in s.place && n < ENTRIES && (!s.tables[p][n].present || |s.place[p].path| == 3)
    ensures BelowUpTo(s, p, n + 1) == BelowUpTo(s, p, n)
  {
    hide EntryOk;
    var d := |s.place[p].path|;
    forall q | q in BelowUpTo(s, p, n + 1) ensures s.place[q].path[d] < n {
      assert PlaceOk(s, q);
      if s.place[q].path[d] == n { OnTheWay(s, q, p); }
    }
  }

  lemma BelowStart(s: Space, p: nat)
    requires Inv(s) && p in s.place
    ensures BelowUpTo(s, p, 0) == {}
    ensures BelowUpTo(s, p, ENTRIES) == Below(s, p)
  {
    forall q | q in Below(s, p)
      ensures |s.place[q].path| > |s.place[p].path| && s.place[q].path[|s.place[p].path|] < ENTRIES
    {
      BelowIsLonger(s, p, q);
      assert PlaceOk(s, q);
      OnTheWay(s, q, p);
    }
  }

  /** Once the child's entries are gone, no page names it as parent. */
  lemma EmptiedCanBeCut(t: Space, p: nat, i: nat, c: nat)
    requires Inv(t) && p in t.place && |t.place[p].path| < 3 && Owned(t.place[p].path, i)
    requires t.tables[p][i].present && t.tables[p][i].frame == c && c in t.place
    requires forall j :: 0 <= j < ENTRIES ==> !t.tables[c][j].present
    ensures CanCut(t, p, i)
  {
    assert EntryOk(t, p, i) && PlaceOk(t, c);
    forall q | q in t.place && |t.place[q].path| > 0 ensures t.place[q].parent != c { assert PlaceOk(t, q); }
  }

  // ------------------------------------------------------- freeing a subtree

  /** Everything below p through an index smaller than i is gone, and nothing else changed. */
  ghost predicate Progress(o: Space, s: Space, p: nat, i: nat) {
    && p in o.place && p in o.tables && p in s.place && p in s.tables
    && Removed(o, s, p, BelowUpTo(o, p, i))
    && (forall j :: 0 <= j < i && Owned(o.place[p].path, j) ==> !s.tables[p][j].present)
    && (forall j :: i <= j < ENTRIES ==> s.tables[p][j] == o.tables[p][j])
  }

  lemma ProgressStart(o: Space, p: nat, i: nat)
    requires Inv(o) && p in o.place && (i == 0 || (o.place[p].path == [] && i == USER_FIRST))
    ensures Progress(o, o, p, i)
  {
    hide EntryOk, PlaceOk;
    NothingInFront(o, p, i);
    assert o.place - {} == o.place && o.free + {} == o.free;
  }

  lemma NothingInFront(o: Space, p: nat, i: nat)
    requires Inv(o) && p in o.place && (i == 0 || (o.place[p].path == [] && i == USER_FIRST))
    ensures BelowUpTo(o, p, i) == {}
  {
    hide EntryOk, PlaceOk;
    forall q | q in o.place && |o.place[q].path| > 0 ensures UserSlot(o.place[q].path[0]) { TopIsUser(o, q); }
  }

  /** The first index of every path is a user slot. */
  lemma {:induction false} TopIsUser(s: Space, q: nat)
    requires Inv(s) && q in s.place && |s.place[q].path| > 0
    ensures UserSlot(s.place[q].path[0])
    decreases |s.place[q].path|
  {
    hide EntryOk;
    assert PlaceOk(s, q);
    if |s.place[q].path| > 1 { TopIsUser(s, s.place[q].parent); }
  }

  lemma ProgressSkip(o: Space, s: Space, p: nat, i: nat)
    requires Inv(o) && Progress(o, s, p, i) && i < ENTRIES && !s.tables[p][i].present
    ensures Progress(o, s, p, i + 1)
  {
    hide Inv;
    NothingBelow(o, p, i);
  }

  lemma ProgressLeaf(o: Space, s: Space, p: nat, i: nat)
    requires Inv(o) && Progress(o, s, p, i) && i < ENTRIES && |o.place[p].path| == 3
    ensures Progress(o, SetEntry(s, p, i, ZERO), p, i + 1)
  {
    hide Inv;
    NothingBelow(o, p, i);
    assert s.place[p] == o.place[p];
    SetKeepsInv(s, p, i, ZERO);
  }

  /** Child c has been emptied: it can be cut off its parent p. */
  lemma EmptiedChild(o: Space, s: Space, t: Space, p: nat, i: nat, c: nat)
    requires Inv(o) && Progress(o, s, p, i) && i < ENTRIES && |o.place[p].path| < 3 && Owned(o.place[p].path, i)
    requires s.tables[p][i].present && s.tables[p][i].frame == c && c in s.place
    requires Removed(s, t, c, Below(s, c)) && c in t.tables && forall j :: 0 <= j < ENTRIES ==> !t.tables[c][j].present
    ensures p in t.tables && p in t.place && t.place[p] == o.place[p] && t.tables[p] == s.tables[p]
    ensures CanCut(t, p, i) && c !in t.free && c != p
  {
    ChildPlaces(o, s, p, i, c);
    NotBelow(s, p, c);
    hide Inv, Below, BelowUpTo;
    EmptiedInv(t);
    EmptiedCanBeCut(t, p, i, c);
  }

  lemma CutRemoves(o: Space, s: Space, t: Space, p: nat, c: nat, gone: set<nat>, below: set<nat>, i: nat)
    requires Removed(o, s, p, gone) && Removed(s, t, c, below) && CanCut(t, p, i) && t.tables[p][i].frame == c
    requires c !in gone && c !in below
    ensures Removed(o, CutChild(t, p, i), p, gone + below + {c})
  {
    hide PlaceOk, EntryOk;
    CutKeepsInv(t, p, i);
    var u := CutChild(t, p, i);
    assert u.place == o.place - (gone + below + {c});
    assert u.free == o.free + (gone + below + {c});
  }

  /** Removing child c and everything below it moves the progress one index on. */
  lemma ProgressCut(o: Space, s: Space, t: Space, p: nat, i: nat, c: nat)
    requires Inv(o) && Progress(o, s, p, i) && i < ENTRIES && |o.place[p].path| < 3 && Owned(o.place[p].path, i)
    requires s.tables[p][i].present && s.tables[p][i].frame == c && c in s.place
    requires Removed(s, t, c, Below(s, c)) && c in t.tables && forall j :: 0 <= j < ENTRIES ==> !t.tables[c][j].present
    ensures p in t.tables && t.tables[p][i].frame == c && c !in t.free && c != p
            && Progress(o, CutChild(t, p, i), p, i + 1)
  {
    hide Inv, Below, BelowUpTo, Removed;
    EmptiedChild(o, s, t, p, i, c);
    ChildPlaces(o, s, p, i, c);
    NextBelow(o, p, i, c);
    SameBelow(o, s, p, i, c);
    NotBelow(s, p, c);
    NotGone(o, s, p, i, c);
    CutRemoves(o, s, t, p, c, BelowUpTo(o, p, i), Below(s, c), i);
  }

  lemma NotGone(o: Space, s: Space, p: nat, i: nat, c: nat)
    requires Progress(o, s, p, i) && c in s.place
    ensures c !in BelowUpTo(o, p, i)
  {
  }

  lemma EmptiedInv(t: Space)
    requires Inv(t)
    ensures t.tables.Keys == t.place.Keys && t.place.Keys !! t.free
  {
  }

  lemma NotBelow(s: Space, p: nat, c: nat)
    requires p in s.place && c in s.place && |s.place[p].path| < |s.place[c].path|
    ensures p !in Below(s, c) && c !in Below(s, c)
  {
  }

  lemma ChildPlaces(o: Space, s: Space, p: nat, i: nat, c: nat)
    requires Progress(o, s, p, i) && i < ENTRIES && |o.place[p].path| < 3 && Owned(o.place[p].path, i)
    requires s.tables[p][i].present && s.tables[p][i].frame == c
    ensures s.place[p] == o.place[p] && c in s.place && c in o.place && s.place[c] == o.place[c]
    ensures o.place[c] == Place(o.place[p].root, o.place[p].path + [i], p) && c != p
  {
    hide PlaceOk;
    assert EntryOk(s, p, i);
  }

  /** What hangs below the child is untouched by the indices already done. */
  lemma SameBelow(o: Space, s: Space, p: nat, i: nat, c: nat)
    requires Progress(o, s, p, i) && c in s.place && c in o.place && s.place[c] == o.place[c]
    requires o.place[c].path == o.place[p].path + [i]
    ensures Below(s, c) == Below(o, c)
  {
    hide Inv;
    var d := |o.place[p].path|;
    assert o.place[c].path[d] == i;
    forall q | q in Below(o, c) ensures q in s.place && s.place[q] == o.place[q] {
      assert o.place[q].path[d] == o.place[c].path[d];
    }
  }

  lemma ProgressEnd(o: Space, s: Space, p: nat, n: nat)
    requires Inv(o) && Progress(o, s, p, n) && (n == ENTRIES || (o.place[p].path == [] && n == USER_LIMIT))
    ensures BelowUpTo(o, p, n) == Below(o, p)
  {
    hide EntryOk;
    BelowStart(o, p);
    forall q | q in BelowUpTo(o, p, ENTRIES) ensures q in BelowUpTo(o, p, n) {
      if n == USER_LIMIT { TopIsUser(o, q); }
    }
  }

  lemma ProgressPlaces(o: Space, s: Space, p: nat, i: nat)
    requires Inv(o) && Progress(o, s, p, i) && i < ENTRIES
    ensures Inv(s) && s.place[p] == o.place[p] && (Owned(o.place[p].path, i) ==> !s.tables[p][i].huge)
  {
    hide PlaceOk;
    if Owned(o.place[p].path, i) { assert EntryOk(s, p, i); }
  }

  /** With everything below the root gone, freeing the root completes Destroy. */
  lemma RootLast(o: Space, s: Space, r: nat)
    requires Inv(o) && Root(o, r) && Progress(o, s, r, USER_LIMIT)
    ensures r !in s.free
    ensures Space(s.tables - {r}, s.free + {r}, s.place - {r}) == Destroy(o, r) && Inv(Destroy(o, r))
  {
    hide Inv, Below, BelowUpTo;
    ProgressEnd(o, s, r, USER_LIMIT);
    DestroyKeepsInv(o, r);
    EmptiedInv(o);
    EmptiedInv(s);
    PagesAreBelow(o, r);
    hide PagesOf;
    assert s.tables - {r} == o.tables - PagesOf(o, r);
    assert s.place - {r} == o.place - PagesOf(o, r);
    assert s.free + {r} == o.free + PagesOf(o, r);
  }

  lemma PagesAreBelow(o: Space, r: nat)
    requires Inv(o) && Root(o, r)
    ensures PagesOf(o, r) == Below(o, r) + {r} && r !in Below(o, r)
  {
    RootNonzero(o, r);
  }

  // ------------------------------------------------------------------- ranges

  lemma Unchanged(s: Space)
    ensures SamePool(s, s) && SameTranslations(s, s)
  {
  }

  lemma AtRoot(s: Space, r: nat, path: seq<nat>)
    requires Inv(s) && Root(s, r) && UserPath(path)
    ensures At(s, r, r, path, 0) && Owned(s.place[r].path, path[0])
  {
    RootNonzero(s, r);
  }

  lemma AtIsTable(s: Space, t: Space, p: nat, r: nat, path: seq<nat>, d: nat)
    requires Extends(s, t) && UserPath(path) && Root(s, r) && 0 < d <= 3 && At(t, p, r, path, d)
    ensures Inv(t) && Root(t, r) && p in t.place && p in t.tables && |t.place[p].path| == d
            && Owned(t.place[p].path, path[d])
  {
    hide PlaceOk, EntryOk;
  }

  lemma ExtendedPool(s: Space, t: Space)
    requires Extends(s, t)
    ensures Inv(t) && SamePool(s, t) && SameTranslations(s, t)
  {
    hide PlaceOk, EntryOk;
  }

  /** The first `n` pages from page number `first` on map to consecutive frames from phys. */
  ghost predicate RangeMapped(s: Space, t: Space, r: nat, first: nat, n: nat, phys: nat, flags: MapFlags) {
    forall q, w :: Root(s, q) && UserPath(w) ==>
      Translate(t, q, w)
        == if q == r && first <= PageNumber(w) < first + n
           then Some(Pte(true, flags.writable, flags.user, false, !flags.executable,
                         (phys + (PageNumber(w) - first) * PAGE) % ADDRESS_LIMIT))
           else Translate(s, q, w)
  }

  /** The pages numbered first .. last of address space r map to nothing, all others as before. */
  ghost predicate RangeCleared(s: Space, t: Space, r: nat, first: nat, last: nat) {
    forall q, w :: Root(s, q) && UserPath(w) ==>
      Translate(t, q, w) == if q == r && first <= PageNumber(w) < last then None else Translate(s, q, w)
  }

  lemma NothingMapped(s: Space, r: nat, first: nat, phys: nat, flags: MapFlags)
    ensures RangeMapped(s, s, r, first, 0, phys, flags) && SamePool(s, s)
  {
  }

  lemma SamePoolTrans(s: Space, t: Space, u: Space)
    requires SamePool(s, t) && SamePool(t, u)
    ensures SamePool(s, u)
  {
  }

  lemma PoolRoots(s: Space, t: Space, r: nat)
    requires SamePool(s, t)
    ensures Root(t, r) <==> Root(s, r)
  {
  }

  lemma SameRange(s: Space, t: Space, u: Space, r: nat, first: nat, n: nat, phys: nat, flags: MapFlags)
    requires SamePool(s, t) && RangeMapped(s, t, r, first, n, phys, flags) && SameTranslations(t, u)
    ensures RangeMapped(s, u, r, first, n, phys, flags)
  {
    hide Translate, LeafOf, PageNumber;
    forall q | Root(s, q) ensures Root(t, q) { }
  }

  /** A user path is the path of an address exactly when it has its page number. */
  lemma PathOfPage(virt: nat, w: seq<nat>)
    requires UserAddress(virt) && UserPath(w)
    ensures w == Indices(virt) <==> PageNumber(w) == virt / PAGE
  {
    IndicesOfPage(virt);
    hide PageNumber, Indices;
    if PageNumber(w) == virt / PAGE { PageNumberInjective(w, Indices(virt)); }
  }

  lemma MappedMore(s: Space, t: Space, u: Space, r: nat, virt: nat, n: nat, phys: nat, flags: MapFlags)
    requires SamePool(s, t) && RangeMapped(s, t, r, virt / PAGE, n, phys, flags) && UserAddress(virt + n * PAGE)
    requires UserPath(Indices(virt + n * PAGE))
    requires OnePageChanged(t, u, r, Indices(virt + n * PAGE), Some(LeafOf(phys + n * PAGE, flags)))
    ensures RangeMapped(s, u, r, virt / PAGE, n + 1, phys, flags)
  {
    hide Translate, LeafOf, PageNumber, Indices;
    var first := virt / PAGE;
    assert (virt + n * PAGE) / PAGE == first + n;
    LeafIs(phys + n * PAGE, flags);
    forall q, w | Root(s, q) && UserPath(w)
      ensures Translate(u, q, w)
           == if q == r && first <= PageNumber(w) < first + (n + 1)
              then Some(Pte(true, flags.writable, flags.user, false, !flags.executable,
                            (phys + (PageNumber(w) - first) * PAGE) % ADDRESS_LIMIT))
              else Translate(s, q, w)
    {
      assert Root(t, q);
      PathOfPage(virt + n * PAGE, w);
    }
  }

  /** The leaf entry of map_page, bit by bit. */
  lemma LeafIs(phys: nat, flags: MapFlags)
    ensures LeafOf(phys, flags)
         == Pte(true, flags.writable, flags.user, false, !flags.executable, phys % ADDRESS_LIMIT)
  {
  }

  /** Pages a byte count rounds up to. */
  function Pages(size: nat): nat { (size + PAGE - 1) / PAGE }

  lemma FollowThree(s: Space, r: nat, path: seq<nat>)
    requires Inv(s) && Root(s, r) && UserPath(path)
    ensures r in s.tables
    ensures var e4 := s.tables[r][path[0]];
            Follow(s.tables, r, path[..3]) ==
              if !e4.present || e4.huge || e4.frame !in s.tables then 0
              else
                var e3 := s.tables[e4.frame][path[1]];
                if !e3.present || e3.huge || e3.frame !in s.tables then 0
                else
                  var e2 := s.tables[e3.frame][path[2]];
                  if !e2.present || e2.huge then 0 else e2.frame
  {
    hide PlaceOk, EntryOk;
    var p := path[..3];
    assert p[1..] == path[1..3] && path[1..3][1..] == path[2..3] && path[2..3][1..] == [];
    var e4 := s.tables[r][path[0]];
    if e4.present && !e4.huge {
      assert Follow(s.tables, r, p) == Follow(s.tables, e4.frame, path[1..3]);
      if e4.frame in s.tables {
        var e3 := s.tables[e4.frame][path[1]];
        if e3.present && !e3.huge {
          assert Follow(s.tables, e4.frame, path[1..3]) == Follow(s.tables, e3.frame, path[2..3]);
          if e3.frame in s.tables {
            assert path[2..3] == [path[2]] && [path[2]][1..] == [];
            assert Follow(s.tables, e3.frame, [path[2]]) ==
              if !s.tables[e3.frame][path[2]].present || s.tables[e3.frame][path[2]].huge then 0
              else Follow(s.tables, s.tables[e3.frame][path[2]].frame, []);
          }
        }
      }
    }
  }

  /** UnmapPage writes the leaf entry of the table it finds, which is one of ours. */
  lemma UnmapWrites(s: Space, r: nat, path: seq<nat>)
    requires Inv(s) && Root(s, r) && UserPath(path)
    ensures var p := Follow(s.tables, r, path[..3]);
            && (p != 0 ==> p in s.tables && UnmapPage(s, r, path) == SetEntry(s, p, path[3], ZERO))
            && (p == 0 ==> UnmapPage(s, r, path) == s)
  {
    hide EntryOk, PlaceOk, Walk, Follow;
    RootNonzero(s, r);
    FollowAt(s, r, path[..3], path[3]);
  }

  lemma NothingCleared(s: Space, r: nat, first: nat)
    ensures RangeCleared(s, s, r, first, first)
  {
  }

  lemma ClearedMore(s: Space, t: Space, u: Space, r: nat, first: nat, page: nat)
    requires t.place == s.place && RangeCleared(s, t, r, first, page) && first <= page && UserAddress(page * PAGE)
    requires UserPath(Indices(page * PAGE)) && OnePageChanged(t, u, r, Indices(page * PAGE), None)
    ensures RangeCleared(s, u, r, first, page + 1)
  {
    hide Translate, PageNumber, Indices;
    forall q, w | Root(s, q) && UserPath(w)
      ensures Translate(u, q, w) == if q == r && first <= PageNumber(w) < page + 1 then None else Translate(s, q, w)
    {
      assert Root(t, q);
      PathOfPage(page * PAGE, w);
    }
  }

  class PageTables {
    var tables: map<nat, Table>
    var free: set<nat>
    ghost var place: map<nat, Place>
    const kernel: Table

    ghost function View(): Space
      reads this
    {
      Space(tables, free, place)
    }

    ghost predicate Valid()
      reads this
    {
      Inv(View())
    }

    /** g_phys_alloc.free_pages on a table page; the page is in use. */
    method FreePage(p: nat)
      requires p !in free
      modifies this
      ensures free == old(free) + {p} && tables == old(tables) - {p} && place == old(place) - {p}
    {
      free := free + {p};
      tables := tables - {p};
      place := place - {p};
    }

    /** free_page_table_tree: every table below p goes back exactly once, no leaf frame does. */
    method FreePageTableTree(p: nat, level: nat)
      requires Valid() && p in place && 1 <= |place[p].path| <= 3 && level == 4 - |place[p].path|
      modifies this
      ensures p in place && p in tables
      ensures Removed(old(View()), View(), p, Below(old(View()), p))
      ensures forall i :: 0 <= i < ENTRIES ==> !tables[p][i].present
      decreases level
    {
      hide Inv, Below, BelowUpTo, Removed;
      ghost var o := View();
      ProgressStart(o, p, 0);
      var i := 0;
      while i < ENTRIES
        invariant 0 <= i <= ENTRIES && Progress(o, View(), p, i)
      {
        ghost var s := View();
        var entry := tables[p][i];
        ProgressPlaces(o, s, p, i);
        if !entry.present || entry.huge {
          ProgressSkip(o, s, p, i);
        } else if level > 1 {
          ChildPlaces(o, s, p, i, entry.frame);
          FreePageTableTree(entry.frame, level - 1);
          ghost var t := View();
          ProgressCut(o, s, t, p, i, entry.frame);
          FreePage(entry.frame);
          tables := tables[p := tables[p][i := ZERO]];
          assert View() == CutChild(t, p, i);
        } else {
          tables := tables[p := tables[p][i := ZERO]];
          assert View() == SetEntry(s, p, i, ZERO);
          ProgressLeaf(o, s, p, i);
        }
        i := i + 1;
      }
      ProgressEnd(o, View(), p, ENTRIES);
    }

    /** destroy_address_space on a live address space. */
    method DestroyAddressSpace(r: nat)
      requires Valid() && Root(View(), r)
      modifies this
      ensures Valid() && View() == Destroy(old(View()), r)
    {
      hide Inv, Below, BelowUpTo, Removed;
      ghost var o := View();
      RootNonzero(o, r);
      ProgressStart(o, r, USER_FIRST);
      var i := USER_FIRST;
      while i < USER_LIMIT
        invariant USER_FIRST <= i <= USER_LIMIT && Progress(o, View(), r, i)
      {
        ghost var s := View();
        var entry := tables[r][i];
        ProgressPlaces(o, s, r, i);
        if entry.present && !entry.huge {
          ChildPlaces(o, s, r, i, entry.frame);
          FreePageTableTree(entry.frame, 3);
          ghost var t := View();
          ProgressCut(o, s, t, r, i, entry.frame);
          FreePage(entry.frame);
          tables := tables[r := tables[r][i := ZERO]];
          assert View() == CutChild(t, r, i);
        } else {
          ProgressSkip(o, s, r, i);
        }
        i := i + 1;
      }
      ghost var s := View();
      ProgressPlaces(o, s, r, i);
      RootLast(o, s, r);
      FreePage(r);
    }

    /** alloc_table_page: a zeroed page, or 0 when the page allocator has none to give. */
    method AllocTablePage() returns (p: nat)
      requires 0 !in free
      modifies this
      ensures place == old(place)
      ensures p == 0 ==> tables == old(tables) && free == old(free)
      ensures p != 0 ==> p in old(free) && free == old(free) - {p} && tables == old(tables)[p := ZeroTable(ENTRIES)]
    {
      var refuse: bool := *;
      p := 0;
      if refuse || free == {} { return; }
      p :| p in free;
      free := free - {p};
      tables := tables[p := ZeroTable(ENTRIES)];
    }

    /** ensure_next_table; the grant is the page it was given, 0 when it asked for none. */
    method EnsureNextTable(p: nat, i: nat, user: bool) returns (c: nat, ghost grant: nat)
      requires Valid() && p in place && |place[p].path| < 3 && Owned(place[p].path, i)
      modifies this
      ensures grant == 0 || grant in old(free)
      ensures (View(), c) == EnsureNext(old(View()), p, i, user, grant)
    {
      hide PlaceOk, EntryOk;
      c, grant := 0, 0;
      var entry := tables[p][i];
      if !entry.present {
        c := AllocTablePage();
        grant := c;
        if c == 0 { return; }
        tables := tables[p := tables[p][i := Pte(true, true, user, false, false, c)]];
        place := place[c := Place(place[p].root, place[p].path + [i], p)];
      } else if !entry.huge {
        tables := tables[p := tables[p][i := entry.(writable := true, user := entry.user || user)]];
        c := entry.frame;
      }
    }

    /** create_address_space; 0 when no page could be had. */
    method CreateAddressSpace() returns (r: nat)
      requires Valid()
      modifies this
      ensures Valid()
      ensures r == 0 ==> View() == old(View())
      ensures r != 0 ==> r in old(free) && View() == Create(old(View()), kernel, r)
    {
      hide PlaceOk, EntryOk;
      ghost var s := View();
      r := AllocTablePage();
      if r == 0 { return; }
      CreateKeepsInv(s, kernel, r);
      tables := tables[r := KernelClone(kernel)];
      place := place[r := Place(r, [], 0)];
      assert View() == Create(s, kernel, r);
    }

    /** map_page */
    method MapPage(r: nat, virt: nat, phys: nat, flags: MapFlags) returns (ok: bool)
      requires Valid() && (r == 0 || Root(View(), r)) && UserAddress(virt)
      modifies this
      ensures Valid() && SamePool(old(View()), View())
      ensures r == 0 || phys == 0 || virt % PAGE != 0 || phys % PAGE != 0 ==> !ok && View() == old(View())
      ensures UserPath(Indices(virt))
      ensures ok ==> OnePageChanged(old(View()), View(), r, Indices(virt),
                                    Some(Pte(true, flags.writable, flags.user, false, !flags.executable,
                                             phys % ADDRESS_LIMIT)))
      ensures ok ==> PageResolves(tables, r, virt, phys % ADDRESS_LIMIT, flags)
      ensures !ok ==> SameTranslations(old(View()), View())
      ensures Open(old(View())) ==> Open(View())
    {
      hide Inv, Extends, EnsureNext, OnePageChanged, SameTranslations, Indices, Open, UserAt, LeafOf, PageResolves;
      ghost var s, open := View(), Open(View());
      UserAddressPath(virt);
      if r == 0 || phys == 0 {
        Unchanged(s);
        return false;
      }
      if virt % PAGE != 0 || phys % PAGE != 0 {
        Unchanged(s);
        return false;
      }
      var path := Indices(virt);
      RootNonzero(s, r);
      ExtendsRefl(s);
      ghost var grant;
      AtRoot(s, r, path);
      var pdpt;
      pdpt, grant := EnsureNextTable(r, path[0], flags.user);
      DescendStep(s, s, r, r, path, flags.user, grant, 0);
      RootIsOpen(s, r);
      NextOpen(s, r, path[0], flags.user, grant, open);
      ghost var t := View();
      if pdpt == 0 { ExtendedPool(s, t); return false; }
      AtIsTable(s, t, pdpt, r, path, 1);
      var pd;
      pd, grant := EnsureNextTable(pdpt, path[1], flags.user);
      DescendStep(s, t, r, pdpt, path, flags.user, grant, 1);
      NextOpen(t, pdpt, path[1], flags.user, grant, open);
      t := View();
      if pd == 0 { ExtendedPool(s, t); return false; }
      AtIsTable(s, t, pd, r, path, 2);
      var pt;
      pt, grant := EnsureNextTable(pd, path[2], flags.user);
      DescendStep(s, t, r, pd, path, flags.user, grant, 2);
      NextOpen(t, pd, path[2], flags.user, grant, open);
      t := View();
      if pt == 0 { ExtendedPool(s, t); return false; }
      AtIsTable(s, t, pt, r, path, 3);
      LeafIsPlain(phys, flags);
      LeafIs(phys, flags);
      LeafOpen(t, pt, path[3], phys, flags, open);
      LeafChangesOnePage(t, pt, r, path, LeafOf(phys, flags));
      tables := tables[pt := tables[pt][path[3] := LeafOf(phys, flags)]];
      ChangeAfterExtension(s, t, View(), r, path, Some(LeafOf(phys, flags)));
      PoolRoots(s, View(), r);
      ResolveAfterMap(s, View(), r, virt, phys, flags);
      return true;
    }

    /** map_contiguous: maps pages in order and stops at the first that cannot be mapped. */
    method MapContiguous(r: nat, virt: nat, phys: nat, size: nat, flags: MapFlags) returns (ok: bool, ghost done: nat)
      requires Valid() && (r == 0 || Root(View(), r)) && virt >= USER_BASE && virt + Pages(size) * PAGE <= USER_END
      modifies this
      ensures Valid() && SamePool(old(View()), View())
      ensures RangeMapped(old(View()), View(), r, virt / PAGE, done, phys, flags)
      ensures if ok then done == Pages(size) else done < Pages(size)
      ensures Open(old(View())) ==> Open(View())
    {
      hide Open, PageResolves, Inv, OnePageChanged, SameTranslations, RangeMapped, SamePool;
      ghost var s := View();
      var page := 0;
      NothingMapped(s, r, virt / PAGE, phys, flags);
      while page < Pages(size)
        invariant 0 <= page <= Pages(size) && Valid() && SamePool(s, View()) && (r == 0 || Root(View(), r))
        invariant RangeMapped(s, View(), r, virt / PAGE, page, phys, flags) && (Open(s) ==> Open(View()))
      {
        ghost var t := View();
        ok := MapPage(r, virt + page * PAGE, phys + page * PAGE, flags);
        SamePoolTrans(s, t, View());
        if !ok {
          SameRange(s, t, View(), r, virt / PAGE, page, phys, flags);
          return false, page;
        }
        MappedMore(s, t, View(), r, virt, page, phys, flags);
        PoolRoots(t, View(), r);
        page := page + 1;
      }
      return true, page;
    }

    /** Follow three entries down; 0 when one of them is missing or a large page. */
    method LeafTable(r: nat, path: seq<nat>) returns (p: nat)
      requires Valid() && Root(View(), r) && UserPath(path)
      ensures p == Follow(tables, r, path[..3])
    {
      hide PlaceOk, EntryOk;
      FollowThree(View(), r, path);
      var e := tables[r][path[0]];
      if !e.present || e.huge { return 0; }
      p := e.frame;
      if p !in tables { return 0; }
      e := tables[p][path[1]];
      if !e.present || e.huge { return 0; }
      p := e.frame;
      if p !in tables { return 0; }
      e := tables[p][path[2]];
      if !e.present || e.huge { return 0; }
      p := e.frame;
    }

    /** unmap_range on an address space; empty tables are left in place. */
    method UnmapRange(r: nat, virt: nat, size: nat)
      requires Valid() && (r == 0 || Root(View(), r)) && virt >= USER_BASE && virt + size <= USER_END
      modifies this
      ensures Valid() && place == old(place) && free == old(free)
      ensures r == 0 || size == 0 ==> View() == old(View())
      ensures r != 0 && size > 0 ==> RangeCleared(old(View()), View(), r, virt / PAGE, (virt + size + PAGE - 1) / PAGE)
      ensures Open(old(View())) ==> Open(View())
    {
      hide Open, Inv, RangeCleared, OnePageChanged, UnmapPage, Follow, Indices;
      if r == 0 || size == 0 { return; }
      ghost var s := View();
      var page, last := virt / PAGE, (virt + size + PAGE - 1) / PAGE;
      ghost var first := page;
      NothingCleared(s, r, first);
      while page < last
        invariant first <= page <= last && Valid() && place == old(place) && free == old(free) && Root(View(), r)
        invariant RangeCleared(s, View(), r, first, page) && (Open(s) ==> Open(View()))
      {
        ghost var t := View();
        UserAddressPath(page * PAGE);
        var path := Indices(page * PAGE);
        UnmapPageRefines(t, r, path);
        if Open(t) { UnmapPageOpen(t, r, path); }
        UnmapWrites(t, r, path);
        var p := LeafTable(r, path);
        if p != 0 { tables := tables[p := tables[p][path[3] := ZERO]]; }
        ClearedMore(s, t, View(), r, first, page);
        page := page + 1;
      }
    }
  }
}
