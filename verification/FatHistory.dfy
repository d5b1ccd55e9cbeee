/** Runs of write_file and remove_file, by name, on the files the directories list. */
module FatHistory {
  import opened Bytes
  import opened Wrappers
  import opened FatModel
  import opened FatProofs
  import opened FatNames
  import opened FatDirectory
  import opened FatUpdate
  import opened FatCreate
  import opened FatOwners
  import opened FatFiles
  import opened FatOps

  // ------------------------------------------------------------------- steps

  ghost predicate ValidOp(f: Fs, op: Op) { DirAt(op.dir) in f.chains }

  /** write_file and remove_file, their failures included. */
  ghost function Step(f: Fs, op: Op): (Fs, bool)
    requires Inv(f) && ValidOp(f, op)
  {
    var found := Lookup(Entries(f, op.dir), op.name);
    match op
    case WriteFile(dir, name, bytes) =>
      if found.None? then Create(f, dir, name, bytes)
      else if IsDir(found.value.short) then (f, false)
      else Overwrite(f, dir, found.value, bytes)
    case RemoveFile(dir, name) =>
      if found.None? || IsDir(found.value.short) then (f, false) else (Remove(f, dir, found.value), true)
  }

  /** The place in the directory that the operation is about. */
  ghost function TouchedAt(f: Fs, op: Op): nat
    requires Inv(f) && ValidOp(f, op)
  {
    var found := Lookup(Entries(f, op.dir), op.name);
    if found.Some? then found.value.at else Place(f, op.dir, op.name)
  }

  /** Every outcome of an operation leaves a good volume and everything but that place as it was. */
  lemma StepKeeps(f: Fs, op: Op)
    requires Inv(f) && ValidOp(f, op)
    ensures Inv(Step(f, op).0) && DirAt(op.dir) in Step(f, op).0.chains
    ensures Preserves(f, Step(f, op).0, op.dir, TouchedAt(f, op))
  {
    hide Inv, Preserves, Create, Overwrite, Remove, Entries, Creation, Place;
    InvSound(f);
    var found := Lookup(Entries(f, op.dir), op.name);
    PreservesRefl(f, op.dir, TouchedAt(f, op));
    match op
    case WriteFile(dir, name, bytes) =>
      if found.None? {
        CreateKeeps(f, dir, name, bytes, TouchedAt(f, op));
        CreationPreserves(f, op, Create(f, dir, name, bytes).0, Create(f, dir, name, bytes).1, bytes);
      } else if !IsDir(found.value.short) {
        OverwriteKeeps(f, dir, found.value, bytes);
        DirStays(f, Overwrite(f, dir, found.value, bytes).0, dir, found.value.at);
      }
    case RemoveFile(dir, name) =>
      if found.Some? && !IsDir(found.value.short) {
        RemoveKeeps(f, dir, found.value);
        DirStays(f, Remove(f, dir, found.value), dir, found.value.at);
      }
  }

  lemma InvSound(f: Fs)
    requires Inv(f)
    ensures Sound(f.vol, f.chains)
  {
  }

  lemma DirStays(f: Fs, g: Fs, dir: nat, at: nat)
    requires Inv(f) && Inv(g) && DirAt(dir) in f.chains && Preserves(f, g, dir, at)
    ensures DirAt(dir) in g.chains
  {
  }

  lemma CreationPreserves(f: Fs, op: Op, g: Fs, ok: bool, bytes: seq<Byte>)
    requires Inv(f) && Inv(g) && ValidOp(f, op) && DirAt(op.dir) in g.chains
             && Lookup(Entries(f, op.dir), op.name).None?
    requires Creation(f, g, ok, op.dir, op.name, bytes, TouchedAt(f, op))
    ensures Preserves(f, g, op.dir, TouchedAt(f, op))
  {
    hide Inv, Preserves, Entries, Place;
  }

  // --------------------------------------------------------------- other files

  /** e is still listed in d, and if it is a file it has the same contents. */
  ghost predicate Kept(f: Fs, g: Fs, d: nat, e: Entry) {
    && Inv(f) && Inv(g) && DirAt(d) in f.chains && DirAt(d) in g.chains && e in Entries(f, d) && e in Entries(g, d)
    && (!IsDir(e.short) ==> Contents(g, d, e) == Contents(f, d, e))
  }

  lemma PreservedIsKept(f: Fs, g: Fs, dir: nat, at: nat, d: nat, e: Entry)
    requires Inv(f) && Inv(g) && DirAt(d) in f.chains && e in Entries(f, d) && (d != dir || e.at != at)
             && Preserves(f, g, dir, at)
    ensures Kept(f, g, d, e)
  {
    hide Scan, SlotsOf, Sound, OwnerOk, WellFormed, Standard, FirstOfSlot, SizeOfSlot;
    assert e in Entries(g, d);
    if !IsDir(e.short) {
      assert DirOk(f, d) && DirOk(g, d);
      assert EntryOk(f.vol.clusterBytes, f.chains, d, e) && EntryOk(g.vol.clusterBytes, g.chains, d, e);
      if FirstOfSlot(e.short) != 0 { OwnerBytes(f, g, FileAt(d, e.at)); }
    }
  }

  lemma OwnerBytes(f: Fs, g: Fs, o: Owner)
    requires Sound(f.vol, f.chains) && Sound(g.vol, g.chains) && o in f.chains && o in g.chains
             && g.chains[o] == f.chains[o]
    requires SameBytes(f.vol, g.vol, f.chains[o])
    ensures (forall i :: 0 <= i < |f.chains[o]| ==> f.chains[o][i] < |f.vol.data| && f.chains[o][i] < |g.vol.data|)
    ensures Concat(g.vol.data, g.chains[o]) == Concat(f.vol.data, f.chains[o])
  {
    assert Chain(f.vol.fat, f.chains[o], f.vol.max) && Chain(g.vol.fat, g.chains[o], g.vol.max);
    ConcatFrame(f.vol.data, g.vol.data, f.chains[o]);
  }

  /** Entries are told apart by their place. */
  lemma PlaceTells(f: Fs, d: nat, a: Entry, b: Entry)
    requires Sound(f.vol, f.chains) && DirAt(d) in f.chains && a in Entries(f, d) && b in Entries(f, d) && a.at == b.at
    ensures a == b
  {
    hide Scan, SlotsOf, Sound;
    ScanOrder(SlotsOf(f, d));
    var es := Entries(f, d);
    var i :| 0 <= i < |es| && es[i] == a;
    var j :| 0 <= j < |es| && es[j] == b;
    assert i == j;
  }

  /**
   Whatever an operation does or fails to do, every entry of another name or directory is still
   listed, and every such file has the same contents.
   */
  lemma OthersKept(f: Fs, op: Op, d: nat, e: Entry)
    requires Inv(f) && ValidOp(f, op) && DirAt(d) in f.chains && e in Entries(f, d)
             && (d != op.dir || e.name != op.name)
    ensures Kept(f, Step(f, op).0, d, e)
  {
    hide Inv, Preserves, Create, Overwrite, Remove, Entries, Place, Kept;
    InvSound(f);
    StepKeeps(f, op);
    var g, found := Step(f, op).0, Lookup(Entries(f, op.dir), op.name);
    if found.Some? {
      if d == op.dir && e.at == found.value.at { PlaceTells(f, d, e, found.value); }
      PreservedIsKept(f, g, op.dir, found.value.at, d, e);
    } else if op.WriteFile? {
      CreateKeeps(f, op.dir, op.name, op.bytes, e.at + 1);
      NewIsElsewhere(f, g, Step(f, op).1, op, d, e);
    } else {
      PreservesRefl(f, op.dir, e.at + 1);
      PreservedIsKept(f, g, op.dir, e.at + 1, d, e);
    }
  }

  lemma NewIsElsewhere(f: Fs, g: Fs, ok: bool, op: Op, d: nat, e: Entry)
    requires Inv(f) && Inv(g) && op.WriteFile? && DirAt(op.dir) in f.chains && DirAt(op.dir) in g.chains
             && DirAt(d) in f.chains && e in Entries(f, d)
    requires Creation(f, g, ok, op.dir, op.name, op.bytes, e.at + 1)
    ensures Kept(f, g, d, e)
  {
    hide Inv, Preserves, Entries, Place, Kept, NewEntry, Inserted;
    InvSound(f);
    PreservedIsKept(f, g, op.dir, if ok then Place(f, op.dir, op.name) else e.at + 1, d, e);
  }

  // ------------------------------------------------------------ what is written

  /** Names that come back from the slots the driver writes for them. */
  predicate KeepsName(name: Name) {
    if ValidSfn(name) then !Mixed(Base(name)) && !Mixed(Ext(name)) && (HasDot(name) ==> Ext(name) != [])
    else LongAscii(name)
  }

  lemma {:induction false} LookupOnly(es: seq<Entry>, r: Entry)
    requires r in es && r.name != [DOT] && forall q :: q in es && q.name == r.name ==> q == r
    ensures Lookup(es, r.name) == Some(r)
  {
    assert es == [es[0]] + es[1..];
    if es[0].name != r.name { LookupOnly(es[1..], r); }
  }

  lemma {:induction false} LookupRewritten(es: seq<Entry>, name: Name, e: Entry, r: Entry)
    requires Lookup(es, name) == Some(e) && r.name == e.name && r.at == e.at
    requires forall a, b :: 0 <= a < b < |es| ==> es[a].at < es[b].at
    ensures Lookup(Replaced(es, e.at, r), name) == Some(r)
  {
    assert es == [es[0]] + es[1..];
    if es[0].name != name {
      LookupRewritten(es[1..], name, e, r);
      assert es[0].at != e.at by {
        var k :| 0 <= k < |es[1..]| && es[1..][k] == e;
        assert es[0].at < es[k + 1].at;
      }
      ReplacedBehind(es[0], es[1..], e.at, r);
    }
  }

  lemma CreatedIsFound(f: Fs, g: Fs, dir: nat, name: Name, bytes: seq<Byte>)
    requires Inv(f) && DirAt(dir) in f.chains && Lookup(Entries(f, dir), name).None? && KeepsName(name) && name != [DOT]
    requires Inv(g) && DirAt(dir) in g.chains && Adds(f, g, dir, name, bytes)
             && (g, true) == Create(f, dir, name, bytes)
    ensures var r := Lookup(Entries(g, dir), name); r.Some? && HoldsBytes(g, dir, r.value, bytes)
  {
    hide Inv, Entries, Create, Place, SizeOfSlot, HoldsBytes, Inserted, ValidSfn, LongAscii, Mixed, HasDot, Taken;
    InvSound(f);
    InvSound(g);
    var e: Entry :| e in Entries(g, dir) && e.at == Place(f, dir, name) && NewEntry(name, bytes, Entries(f, dir), e)
                    && Entries(g, dir) == Inserted(Entries(f, dir), e);
    forall q | q in Entries(g, dir) && q.name == name ensures q == e { InsertedMembers(Entries(f, dir), e, q); }
    LookupOnly(Entries(g, dir), e);
    CreateContents(f, g, dir, name, bytes, e);
  }

  lemma OverwrittenIsFound(f: Fs, g: Fs, dir: nat, e: Entry, name: Name, bytes: seq<Byte>)
    requires Inv(f) && DirAt(dir) in f.chains && Lookup(Entries(f, dir), name) == Some(e) && !IsDir(e.short)
    requires Inv(g) && DirAt(dir) in g.chains && Rewrites(f, g, dir, e, |bytes| % U32)
             && (g, true) == Overwrite(f, dir, e, bytes)
    ensures var r := Lookup(Entries(g, dir), name); r.Some? && HoldsBytes(g, dir, r.value, bytes)
  {
    hide Inv, Scan, Overwrite, SizeOfSlot, HoldsBytes, Replaced, Sound, SlotsOf;
    InvSound(f);
    InvSound(g);
    var r :| r in Entries(g, dir) && Entries(g, dir) == Replaced(Entries(f, dir), e.at, r)
             && r.at == e.at && r.name == e.name && !IsDir(r.short) && SizeOfSlot(r.short) == |bytes| % U32
             && r.short[..11] == e.short[..11];
    ScanOrder(SlotsOf(f, dir));
    LookupRewritten(Entries(f, dir), name, e, r);
    OverwriteContents(f, g, dir, e, bytes, r);
  }

  /**
   A successful write_file stores exactly the bytes it was given, cut at 2^32, and the file is
   found again under its name: always when it was there before, and for a new file whenever the
   name survives its slots.
   */
  lemma WriteIsFound(f: Fs, op: Op)
    requires Inv(f) && ValidOp(f, op) && op.WriteFile? && Step(f, op).1
    requires Lookup(Entries(f, op.dir), op.name).Some? || (KeepsName(op.name) && op.name != [DOT])
    ensures var g := Step(f, op).0;
            && Inv(g) && DirAt(op.dir) in g.chains
            && var r := Lookup(Entries(g, op.dir), op.name); r.Some? && HoldsBytes(g, op.dir, r.value, op.bytes)
  {
    hide Inv, Preserves, Create, Overwrite, Entries, HoldsBytes, KeepsName, Rewrites, Adds;
    InvSound(f);
    StepKeeps(f, op);
    var found, g := Lookup(Entries(f, op.dir), op.name), Step(f, op).0;
    if found.None? {
      CreateKeeps(f, op.dir, op.name, op.bytes, 0);
      CreatedIsFound(f, g, op.dir, op.name, op.bytes);
    } else {
      OverwriteKeeps(f, op.dir, found.value, op.bytes);
      OverwrittenIsFound(f, g, op.dir, found.value, op.name, op.bytes);
    }
  }

  /** A removed file is gone from the listing, its place included. */
  lemma RemoveIsGone(f: Fs, op: Op)
    requires Inv(f) && ValidOp(f, op) && op.RemoveFile? && Step(f, op).1
    ensures var g := Step(f, op).0;
            Inv(g) && DirAt(op.dir) in g.chains && forall q :: q in Entries(g, op.dir) ==> q.at != TouchedAt(f, op)
  {
    hide Inv, Preserves, Remove, Entries;
    InvSound(f);
    StepKeeps(f, op);
    RemoveKeeps(f, op.dir, Lookup(Entries(f, op.dir), op.name).value);
  }

  // -------------------------------------------------------------------- runs

  ghost predicate ValidRun(f: Fs, ops: seq<Op>)
    decreases |ops|
  {
    ops == [] || (Inv(f) && ValidOp(f, ops[0]) && ValidRun(Step(f, ops[0]).0, ops[1..]))
  }

  ghost function After(f: Fs, ops: seq<Op>): Fs
    requires ValidRun(f, ops)
    decreases |ops|
  {
    if ops == [] then f else After(Step(f, ops[0]).0, ops[1..])
  }

  /** Naming a directory of the volume is all a run needs. */
  lemma {:induction false} RunsAreValid(f: Fs, ops: seq<Op>)
    requires Inv(f) && forall i :: 0 <= i < |ops| ==> DirAt(ops[i].dir) in f.chains
    ensures ValidRun(f, ops)
    decreases |ops|
  {
    if ops != [] {
      hide Inv, Step;
      StepKeeps(f, ops[0]);
      var g := Step(f, ops[0]).0;
      forall i | 0 <= i < |ops| - 1 ensures DirAt(ops[1..][i].dir) in g.chains {
        assert ops[1..][i] == ops[i + 1];
        DirSurvives(f, g, ops[0], ops[i + 1].dir);
      }
      RunsAreValid(g, ops[1..]);
    }
  }

  lemma DirSurvives(f: Fs, g: Fs, op: Op, d: nat)
    requires Inv(f) && ValidOp(f, op) && Inv(g) && Preserves(f, g, op.dir, TouchedAt(f, op)) && DirAt(d) in f.chains
    ensures DirAt(d) in g.chains
  {
    hide Inv, Entries, TouchedAt;
    InvSound(f);
    InvSound(g);
  }

  /**
   In every run of write_file and remove_file all chains stay in range, acyclic, end-terminated
   and pairwise disjoint, every directory stays well-formed and lists files that fit their chains;
   and an entry that no operation names is still listed, a file with the same contents.
   */
  lemma {:induction false} RunKeepsFiles(f: Fs, ops: seq<Op>, d: nat, e: Entry)
    requires Inv(f) && ValidRun(f, ops)
    ensures Inv(After(f, ops))
    ensures && DirAt(d) in f.chains && e in Entries(f, d)
            && (forall op :: op in ops ==> op.dir != d || op.name != e.name) ==>
              Kept(f, After(f, ops), d, e)
    decreases |ops|
  {
    InvSound(f);
    if ops == [] {
      hide Entries, Contents, DirOk, OwnerOk;
    } else {
      hide Inv, Step, Entries, Kept;
      StepKeeps(f, ops[0]);
      var g := Step(f, ops[0]).0;
      RunKeepsFiles(g, ops[1..], d, e);
      if DirAt(d) in f.chains && e in Entries(f, d) && forall op :: op in ops ==> op.dir != d || op.name != e.name {
        OthersKept(f, ops[0], d, e);
        KeptTrans(f, g, ops[1..], d, e);
      }
    }
  }

  lemma KeptTrans(f: Fs, g: Fs, ops: seq<Op>, d: nat, e: Entry)
    requires Kept(f, g, d, e) && ValidRun(g, ops)
    requires DirAt(d) in g.chains && e in Entries(g, d) ==> Kept(g, After(g, ops), d, e)
    ensures Kept(f, After(g, ops), d, e)
  {
    hide Entries, Contents, After, DirOk, OwnerOk;
  }

  // ------------------------------------------------------------------ aliases

  /** No two entries of a directory have the same eleven name bytes. */
  ghost predicate AliasesDiffer(es: seq<Entry>) {
    forall a, b :: 0 <= a < b < |es| ==> es[a].short[..11] != es[b].short[..11]
  }

  lemma {:induction false} InsertedAliases(es: seq<Entry>, e: Entry)
    ensures AliasesDiffer(Inserted(es, e)) <==> AliasesDiffer(es) && !Taken(es, e.short[..11])
  {
    var r := Inserted(es, e);
    if es == [] || es[0].at > e.at {
      assert r == [e] + es;
      AliasesOfCons(e, es);
    } else {
      var rest := es[1..];
      assert es == [es[0]] + rest && r == [es[0]] + Inserted(rest, e);
      InsertedAliases(rest, e);
      InsertedTaken(rest, e, es[0].short[..11]);
      AliasesOfCons(es[0], rest);
      AliasesOfCons(es[0], Inserted(rest, e));
      TakenOfCons(es[0], rest, e.short[..11]);
    }
  }

  lemma AliasesOfCons(first: Entry, rest: seq<Entry>)
    ensures AliasesDiffer([first] + rest) <==> AliasesDiffer(rest) && !Taken(rest, first.short[..11])
  {
    var all := [first] + rest;
    assert forall i :: 0 <= i < |rest| ==> all[i + 1] == rest[i];
    if AliasesDiffer(all) {
      forall a, b | 0 <= a < b < |rest| ensures rest[a].short[..11] != rest[b].short[..11] {
        assert all[a + 1].short[..11] != all[b + 1].short[..11];
      }
      forall k | 0 <= k < |rest| ensures rest[k].short[..11] != first.short[..11] {
        assert all[0].short[..11] != all[k + 1].short[..11];
      }
    }
  }

  lemma TakenOfCons(first: Entry, rest: seq<Entry>, alias: Name)
    ensures Taken([first] + rest, alias) <==> first.short[..11] == alias || Taken(rest, alias)
  {
    var all := [first] + rest;
    assert forall i :: 0 <= i < |rest| ==> all[i + 1] == rest[i];
    if Taken(rest, alias) {
      var k :| 0 <= k < |rest| && rest[k].short[..11] == alias;
      assert all[k + 1].short[..11] == alias;
    }
    if first.short[..11] == alias { assert all[0].short[..11] == alias; }
  }

  lemma InsertedTaken(es: seq<Entry>, e: Entry, alias: Name)
    ensures Taken(Inserted(es, e), alias) <==> Taken(es, alias) || e.short[..11] == alias
  {
    hide Inserted;
    var r := Inserted(es, e);
    if Taken(r, alias) {
      var k :| 0 <= k < |r| && r[k].short[..11] == alias;
      InsertedMembers(es, e, r[k]);
      if r[k] in es { var j :| 0 <= j < |es| && es[j] == r[k]; }
    }
    if Taken(es, alias) {
      var k :| 0 <= k < |es| && es[k].short[..11] == alias;
      InsertedMembers(es, e, es[k]);
      var j :| 0 <= j < |r| && r[j] == es[k];
    }
    InsertedMembers(es, e, e);
    var j :| 0 <= j < |r| && r[j] == e;
  }

  /**
   A new entry keeps the aliases of a directory distinct: always for a long name, and for an 8.3
   name, whose bytes are not compared with the others, exactly when no entry has them yet.
   */
  lemma CreateKeepsAliases(f: Fs, op: Op)
    requires Inv(f) && ValidOp(f, op) && op.WriteFile? && Lookup(Entries(f, op.dir), op.name).None? && Step(f, op).1
    ensures var g := Step(f, op).0;
            && Inv(g) && DirAt(op.dir) in g.chains
            && (AliasesDiffer(Entries(g, op.dir)) <==>
                  && AliasesDiffer(Entries(f, op.dir))
                  && (ValidSfn(op.name) ==> !Taken(Entries(f, op.dir), EncodeSfn(op.name))))
  {
    hide Inv, Preserves, Create, Entries, Inserted, AliasesDiffer, Taken, Place, ValidSfn, LongAscii, EncodeSfn, Mixed,
         HasDot, SizeOfSlot;
    InvSound(f);
    StepKeeps(f, op);
    CreateKeeps(f, op.dir, op.name, op.bytes, 0);
    var g := Step(f, op).0;
    InvSound(g);
    var e: Entry :| e in Entries(g, op.dir) && NewEntry(op.name, op.bytes, Entries(f, op.dir), e)
                    && Entries(g, op.dir) == Inserted(Entries(f, op.dir), e);
    var es := Entries(f, op.dir);
    InsertedAliases(es, e);
    NewAlias(es, op.name, op.bytes, e);
  }

  lemma NewAlias(es: seq<Entry>, name: Name, bytes: seq<Byte>, e: Entry)
    requires NewEntry(name, bytes, es, e)
    ensures Taken(es, e.short[..11]) <==> ValidSfn(name) && Taken(es, EncodeSfn(name))
  {
  }

  lemma {:induction false} ReplacedAliases(es: seq<Entry>, at: nat, e: Entry, r: Entry)
    requires r.short[..11] == e.short[..11] && forall k :: 0 <= k < |es| && es[k].at == at ==> es[k] == e
    ensures AliasesDiffer(Replaced(es, at, r)) <==> AliasesDiffer(es)
    ensures forall alias :: Taken(Replaced(es, at, r), alias) <==> Taken(es, alias)
  {
    hide AliasesDiffer, Taken;
    if es != [] {
      var rest := es[1..];
      assert es == [es[0]] + rest;
      AliasesOfCons(es[0], rest);
      if es[0].at == at {
        AliasesOfCons(r, rest);
        forall alias ensures Taken(Replaced(es, at, r), alias) <==> Taken(es, alias) {
          TakenOfCons(es[0], rest, alias);
          TakenOfCons(r, rest, alias);
        }
      } else {
        ReplacedAliases(rest, at, e, r);
        AliasesOfCons(es[0], Replaced(rest, at, r));
        forall alias ensures Taken(Replaced(es, at, r), alias) <==> Taken(es, alias) {
          TakenOfCons(es[0], rest, alias);
          TakenOfCons(es[0], Replaced(rest, at, r), alias);
        }
      }
    }
  }

  /** Writing an existing file again changes no alias. */
  lemma OverwriteKeepsAliases(f: Fs, op: Op)
    requires Inv(f) && ValidOp(f, op) && op.WriteFile? && Lookup(Entries(f, op.dir), op.name).Some?
    ensures var g := Step(f, op).0;
            && Inv(g) && DirAt(op.dir) in g.chains
            && (AliasesDiffer(Entries(g, op.dir)) <==> AliasesDiffer(Entries(f, op.dir)))
  {
    hide Inv, Preserves, Overwrite, Scan, Replaced, AliasesDiffer, Taken, SizeOfSlot, SlotsOf, Sound;
    InvSound(f);
    StepKeeps(f, op);
    var e := Lookup(Entries(f, op.dir), op.name).value;
    if !IsDir(e.short) {
      OverwriteKeeps(f, op.dir, e, op.bytes);
      var g := Step(f, op).0;
      InvSound(g);
      var r :| r in Entries(g, op.dir) && Entries(g, op.dir) == Replaced(Entries(f, op.dir), e.at, r)
               && r.short[..11] == e.short[..11];
      forall k | 0 <= k < |Entries(f, op.dir)| && Entries(f, op.dir)[k].at == e.at ensures Entries(f, op.dir)[k] == e {
        PlaceTells(f, op.dir, Entries(f, op.dir)[k], e);
      }
      ReplacedAliases(Entries(f, op.dir), e.at, e, r);
    }
  }

  lemma DottedName(base: Name, ext: Name)
    requires 0 < |base| <= 8 && |ext| <= 3 && AllSfn(base) && AllSfn(ext)
    ensures ValidSfn(base + ([DOT] + ext))
    ensures EncodeSfn(base + ([DOT] + ext)) == Field(MapUpper(base), 8) + Field(MapUpper(ext), 3)
  {
    hide Base, Ext;
    SfnNotSpace(base);
    SfnNotSpace(ext);
    SplitAtDot(base, ext, true);
  }

  /** "foo.txt" and "FOO.TXT" are different 8.3 names with the same eleven bytes. */
  lemma ClashingNames()
    ensures var lower, upper := [102, 111, 111] + ([DOT] + [116, 120, 116]), [70, 79, 79] + ([DOT] + [84, 88, 84]);
            lower != upper && ValidSfn(lower) && ValidSfn(upper) && EncodeSfn(lower) == EncodeSfn(upper)
  {
    hide ValidSfn, EncodeSfn, Field;
    DottedName([102, 111, 111], [116, 120, 116]);
    DottedName([70, 79, 79], [84, 88, 84]);
    assert MapUpper([102, 111, 111]) == [70, 79, 79] == MapUpper([70, 79, 79]);
    assert MapUpper([116, 120, 116]) == [84, 88, 84] == MapUpper([84, 88, 84]);
    assert ([102, 111, 111] + ([DOT] + [116, 120, 116]))[0] == 102 != ([70, 79, 79] + ([DOT] + [84, 88, 84]))[0];
  }
}
