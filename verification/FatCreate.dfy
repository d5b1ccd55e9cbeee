/**
 What the driver puts into slots: unique aliases, the short slot of a new file, and the changes
 to the short slot of an existing one.
 */
module FatCreate {
  import opened Wrappers
  import opened Bytes
  import opened FatModel
  import opened FatNames
  import opened FatDirectory

  // ------------------------------------------------------------------ aliases

  predicate IsAliasChar(c: Byte) { IsUpper(c) || IsDigit(c) || c in {95, 36, 45, 126} }

  /** sanitize_component: upper case, spaces and dots dropped, anything else an underscore. */
  function Sanitize(s: Name, room: nat): (r: Name)
    ensures |r| <= room && forall i :: 0 <= i < |r| ==> IsAliasChar(r[i])
    decreases |s|
  {
    if s == [] || room == 0 then []
    else
      var c := Upper(s[0]);
      if IsAliasChar(c) then [c] + Sanitize(s[1..], room - 1)
      else if s[0] == SPACE || s[0] == DOT then Sanitize(s[1..], room)
      else [95] + Sanitize(s[1..], room - 1)
  }

  /** render_decimal for the numbers used in aliases. */
  function Digits(u: nat): (r: Name)
    requires 1 <= u < 1000
    ensures 1 <= |r| <= 3
  {
    if u < 10 then [48 + u]
    else if u < 100 then [48 + u / 10, 48 + u % 10]
    else [48 + u / 100, 48 + u / 10 % 10, 48 + u % 10]
  }

  /** The sanitized base name, never empty. */
  function AliasBase(name: Name): (r: Name)
    ensures |r| > 0 && forall i :: 0 <= i < |r| ==> IsAliasChar(r[i])
  {
    var base := Sanitize(Base(name), 64);
    if base == [] then [70, 73, 76, 69] else base
  }

  /** BASE~u.EXT, cut to eleven characters. */
  function Alias(name: Name, u: nat): (r: Name)
    requires 1 <= u < 1000
    ensures |r| == 11 && IsAliasChar(r[0])
  {
    var base, digits := AliasBase(name), Digits(u);
    var n := if 7 - |digits| > |base| then |base| else 7 - |digits|;
    Field(base[..n] + [126] + digits, 8) + Field(Sanitize(Ext(name), 16), 3)
  }

  predicate Taken(entries: seq<Entry>, alias: Name) {
    exists k :: 0 <= k < |entries| && entries[k].short[..11] == alias
  }

  /** The first free alias from number u on. */
  function FirstAlias(entries: seq<Entry>, name: Name, u: nat): (r: Option<Name>)
    requires 1 <= u <= 1000
    ensures r.Some? ==> |r.value| == 11 && !Taken(entries, r.value) && IsAliasChar(r.value[0])
    ensures r.None? ==> forall v :: u <= v < 1000 ==> Taken(entries, Alias(name, v))
    decreases 1000 - u
  {
    if u == 1000 then None
    else if !Taken(entries, Alias(name, u)) then Some(Alias(name, u))
    else FirstAlias(entries, name, u + 1)
  }

  // --------------------------------------------------------------- short slots

  function ByteOf(x: nat, k: nat): Byte
    requires k < 4
  {
    if k == 0 then x % 256 else if k == 1 then x / 256 % 256 else if k == 2 then x / 65536 % 256 else x / 16777216 % 256
  }

  function ShortByte(alias: Name, caseInfo: Byte, first: nat, size: nat, k: nat): Byte
    requires |alias| == 11 && k < 32
  {
    if k < 11 then alias[k]
    else if k == 11 then 32
    else if k == 12 then caseInfo
    else if k == 20 then ByteOf(first, 2)
    else if k == 21 then ByteOf(first, 3)
    else if k == 26 then ByteOf(first, 0)
    else if k == 27 then ByteOf(first, 1)
    else if k >= 28 then ByteOf(size, k - 28)
    else 0
  }

  /** The slot of a file: alias, archive attribute, case bits, first cluster in two halves, size. */
  function ShortSlot(alias: Name, caseInfo: Byte, first: nat, size: nat): Slot
    requires |alias| == 11
  {
    seq(32, k requires 0 <= k < 32 => ShortByte(alias, caseInfo, first, size, k))
  }

  function Half(s: Slot, at: nat): nat
    requires at < 31
  {
    var (lo: nat, hi: nat) := (s[at], s[at + 1]);
    lo + 256 * hi
  }

  function FirstOfSlot(s: Slot): nat { Half(s, 20) * 65536 + Half(s, 26) }
  function SizeOfSlot(s: Slot): nat { Half(s, 28) + Half(s, 30) * 65536 }

  lemma Assembled(x: nat)
    ensures var (a: nat, b: nat, c: nat, d: nat) := (ByteOf(x, 0), ByteOf(x, 1), ByteOf(x, 2), ByteOf(x, 3));
            (a + 256 * b) + (c + 256 * d) * 65536 == x % U32
  {
    var p := x / 256;
    var q := p / 256;
    var r := q / 256;
    assert x / 65536 == q && x / 16777216 == r;
    assert x == 256 * p + x % 256 && p == 256 * q + p % 256 && q == 256 * r + q % 256 && r == 256 * (r / 256) + r % 256;
    assert x / U32 == r / 256;
  }

  /** Name, start and size come back from the slot; the size modulo 2^32. */
  lemma ShortSlotFields(alias: Name, caseInfo: Byte, first: nat, size: nat)
    requires |alias| == 11 && first < U32
    ensures var s := ShortSlot(alias, caseInfo, first, size);
            && ShortSlotOf(s, alias, caseInfo) && FirstOfSlot(s) == first && SizeOfSlot(s) == size % U32
            && (alias[0] != 0 && alias[0] != 0xE5 ==> IsShort(s))
  {
    hide ByteOf;
    var s := ShortSlot(alias, caseInfo, first, size);
    assert s[..11] == alias;
    Assembled(first);
    Assembled(size);
  }

  // ------------------------------------------------------------ new entries

  /** The slots of a new entry: an 8.3 name alone, or an alias with the long name in front. */
  function EntryFor(name: Name, alias: Name, first: nat, size: nat): (r: seq<Slot>)
    requires |alias| == 11 && (ValidSfn(name) || 1 <= Pieces(name) <= MAX_PIECES)
    ensures |r| >= 1
  {
    if ValidSfn(name) then [ShortSlot(alias, CaseInfo(name), first, size)]
    else NewSlots(name, ShortSlot(alias, 0, first, size))
  }

  /** Leaf names are kept in a buffer of this size, with a closing zero. */
  const LEAF_CAPACITY: nat := 256

  /** build_file_entry on a leaf name that fits: the eleven name bytes, or none without a free alias. */
  function AliasFor(entries: seq<Entry>, name: Name): (r: Option<Name>)
    ensures r.Some? ==> |r.value| == 11 && (ValidSfn(name) || 1 <= Pieces(name) <= MAX_PIECES)
  {
    if ValidSfn(name) then Some(EncodeSfn(name))
    else if 1 <= |name| < LEAF_CAPACITY then FirstAlias(entries, name, 1)
    else None
  }

  /** How many slots that takes. */
  function SlotsFor(name: Name): (n: nat)
    ensures n >= 1
  {
    if ValidSfn(name) then 1 else Pieces(name) + 1
  }

  /** No lower-case letter and no dot among the eleven name bytes, as the specification asks. */
  predicate Standard(short: Name) { forall i :: 0 <= i < |short| ==> !IsLower(short[i]) && short[i] != DOT }

  lemma AliasChars(name: Name, u: nat)
    requires 1 <= u < 1000
    ensures Standard(Alias(name, u))
  {
    var base, digits := AliasBase(name), Digits(u);
    var n := if 7 - |digits| > |base| then |base| else 7 - |digits|;
    var first := base[..n] + [126] + digits;
    assert Standard(first) && Standard(Sanitize(Ext(name), 16));
  }

  lemma {:induction false} FirstAliasStandard(entries: seq<Entry>, name: Name, u: nat)
    requires 1 <= u <= 1000
    ensures FirstAlias(entries, name, u).Some? ==> Standard(FirstAlias(entries, name, u).value)
    decreases 1000 - u
  {
    if u < 1000 {
      AliasChars(name, u);
      FirstAliasStandard(entries, name, u + 1);
    }
  }

  lemma EncodedStandard(name: Name)
    requires ValidSfn(name)
    ensures Standard(EncodeSfn(name)) && EncodeSfn(name)[0] != 0 && EncodeSfn(name)[0] != 0xE5
  {
    SfnNotSpace(Base(name));
    SfnNotSpace(Ext(name));
    assert EncodeSfn(name)[0] == Upper(Base(name)[0]);
  }

  predicate IsDir(s: Slot) { s[11] / 16 % 2 == 1 }

  /** What the written slots are: one entry, a file, with that start and size. */
  lemma EntryForIs(entries: seq<Entry>, name: Name, first: nat, size: nat, p: nat)
    requires AliasFor(entries, name).Some? && first < U32
    ensures var news := EntryFor(name, AliasFor(entries, name).value, first, size);
            var e := EntryOf(news, p);
            && EntrySlots(news) && |news| == SlotsFor(name) && e.short == news[|news| - 1] && !IsDir(e.short)
            && Standard(e.short[..11]) && FirstOfSlot(e.short) == first && SizeOfSlot(e.short) == size % U32
            && (!ValidSfn(name) && LongAscii(name) ==> e.name == name)
            && (ValidSfn(name) ==>
                  (e.name == name <==> !Mixed(Base(name)) && !Mixed(Ext(name)) && (HasDot(name) ==> Ext(name) != [])))
            && (if ValidSfn(name) then e.short[..11] == EncodeSfn(name) else !Taken(entries, e.short[..11]))
  {
    hide ShortSlot, FirstOfSlot, SizeOfSlot, LfnSlots, DecodeShort, Mixed, HasDot, EncodeSfn, CaseInfo, FirstAlias,
         Taken, IsLfn, DecodeLfn, IsShort;
    var alias := AliasFor(entries, name).value;
    if ValidSfn(name) {
      ShortSlotFields(alias, CaseInfo(name), first, size);
      EncodedStandard(name);
      ShortRoundTrip(name);
    } else {
      FirstAliasStandard(entries, name, 1);
      ShortSlotFields(alias, 0, first, size);
      var short := ShortSlot(alias, 0, first, size);
      NewSlotsForm(name, short);
      if LongAscii(name) { NewSlotsDecode(name, short, p); }
    }
  }

  // -------------------------------------------------------- changing a slot

  /** Neither directory nor volume label, and the archive bit set. */
  function UpdatedAttr(a: Byte): Byte { a % 8 + 32 + a / 64 * 64 }

  function UpdatedByte(s: Slot, caseInfo: Byte, first: nat, size: nat, k: nat): Byte
    requires k < 32
  {
    if k == 11 then UpdatedAttr(s[11])
    else if k == 12 then caseInfo
    else if k == 13 then 0
    else if k == 20 then ByteOf(first, 2)
    else if k == 21 then ByteOf(first, 3)
    else if k == 26 then ByteOf(first, 0)
    else if k == 27 then ByteOf(first, 1)
    else if k >= 28 then ByteOf(size, k - 28)
    else s[k]
  }

  /** The slot of a file written again. */
  function UpdatedSlot(s: Slot, caseInfo: Byte, first: nat, size: nat): Slot {
    seq(32, k requires 0 <= k < 32 => UpdatedByte(s, caseInfo, first, size, k))
  }

  /** The slot of a file whose rewrite failed: no cluster, no bytes. */
  function EmptiedSlot(s: Slot): Slot {
    seq(32, k requires 0 <= k < 32 => if k == 20 || k == 21 || k >= 26 then 0 else s[k])
  }

  lemma UpdatedFields(s: Slot, caseInfo: Byte, first: nat, size: nat)
    requires first < U32
    ensures var r := UpdatedSlot(s, caseInfo, first, size);
            && r[..11] == s[..11] && r[12] == caseInfo && FirstOfSlot(r) == first && SizeOfSlot(r) == size % U32
            && !IsDir(r) && (IsShort(s) ==> IsShort(r))
  {
    hide ByteOf, UpdatedAttr;
    var r := UpdatedSlot(s, caseInfo, first, size);
    assert r[..11] == s[..11];
    assert r[0] == s[0] && r[11] == UpdatedAttr(s[11]);
    AttrBits(s[11]);
    Assembled(first);
    Assembled(size);
  }

  lemma AttrBits(a: Byte)
    ensures var r := UpdatedAttr(a); r / 16 % 2 == 0 && r / 8 % 2 == 0 && r >= 32
  {
    var low, high := a % 8, a / 64;
    assert UpdatedAttr(a) / 8 == 4 + 8 * high && UpdatedAttr(a) / 16 == 2 + 4 * high;
  }

  lemma EmptiedFields(s: Slot)
    ensures var r := EmptiedSlot(s);
            && r[..11] == s[..11] && r[12] == s[12] && r[11] == s[11] && FirstOfSlot(r) == 0 && SizeOfSlot(r) == 0
            && (IsShort(s) ==> IsShort(r))
  {
    var r := EmptiedSlot(s);
    assert r[..11] == s[..11];
    assert r[0] == s[0] && r[11] == s[11] && r[12] == s[12];
  }

  // ------------------------------------------------- names of rewritten slots

  /** The stored base and extension, without padding. */
  function StoredBase(short: Name): Name
    requires |short| == 11
  {
    UntilSpace(short[..8])
  }

  function StoredExt(short: Name): Name
    requires |short| == 11
  {
    UntilSpace(short[8..])
  }

  /** Changing the case bit of a component shows exactly when it has a capital letter. */
  lemma RecaseSame(s: Name, a: bool, b: bool)
    ensures Recase(s, a) == Recase(s, b) <==> a == b || !HasUpper(s)
  {
    if a != b && HasUpper(s) {
      var i :| 0 <= i < |s| && IsUpper(s[i]);
      assert MapLower(s)[i] != s[i];
    } else if a != b {
      assert MapLower(s) == s;
    }
  }

  /** decode_short_name with the two case bits given. */
  function Listed(short: Name, lowerBase: bool, lowerExt: bool): Name
    requires |short| == 11
  {
    Recase(StoredBase(short), lowerBase)
    + if short[8] == SPACE then [] else [DOT] + Recase(StoredExt(short), lowerExt)
  }

  predicate BaseBit(caseInfo: Byte) { caseInfo / 8 % 2 == 1 }
  predicate ExtBit(caseInfo: Byte) { caseInfo / 16 % 2 == 1 }

  lemma ListedIs(short: Name, caseInfo: Byte)
    requires |short| == 11
    ensures DecodeShort(short, caseInfo) == Listed(short, BaseBit(caseInfo), ExtBit(caseInfo))
  {
  }

  /** An 8.3 name listed with other case bits is the same exactly when no changed bit covers a capital letter. */
  lemma CaseChange(short: Name, a: bool, b: bool, c: bool, d: bool)
    requires |short| == 11
    ensures Listed(short, a, b) == Listed(short, c, d) <==>
              (a == c || !HasUpper(StoredBase(short))) && (b == d || !HasUpper(StoredExt(short)))
  {
    hide UntilSpace, HasUpper, Recase;
    var base, ext := StoredBase(short), StoredExt(short);
    RecaseLength(base, a, c);
    RecaseSame(base, a, c);
    RecaseSame(ext, b, d);
    var x, y := Recase(ext, b), Recase(ext, d);
    SplitEqual(Recase(base, a), Recase(base, c),
               if short[8] == SPACE then [] else [DOT] + x, if short[8] == SPACE then [] else [DOT] + y);
    SplitEqual([DOT], [DOT], x, y);
    if short[8] == SPACE { NoExt(short); }
  }

  lemma RecaseLength(s: Name, a: bool, b: bool)
    ensures |Recase(s, a)| == |Recase(s, b)| == |s|
  {
  }

  lemma NoExt(short: Name)
    requires |short| == 11 && short[8] == SPACE
    ensures !HasUpper(StoredExt(short))
  {
    assert short[8..][0] == SPACE;
  }

  /** Base and extension of a listed standard name are its recased components. */
  lemma ListedParts(short: Name, a: bool, b: bool)
    requires |short| == 11 && Standard(short)
    ensures Base(Listed(short, a, b)) == Recase(StoredBase(short), a)
    ensures Ext(Listed(short, a, b)) == if short[8] == SPACE then [] else Recase(StoredExt(short), b)
  {
    hide UntilSpace, Recase, Base, Ext;
    StandardParts(short);
    NoDots(StoredBase(short), a);
    NoDots(StoredExt(short), b);
    SplitAtDot(Recase(StoredBase(short), a), Recase(StoredExt(short), b), short[8] != SPACE);
  }

  predicate DotFree(s: Name) { forall i :: 0 <= i < |s| ==> s[i] != DOT }

  lemma NoDots(s: Name, a: bool)
    requires DotFree(s)
    ensures DotFree(Recase(s, a))
  {
  }

  lemma SplitAtDot(base: Name, ext: Name, dot: bool)
    requires DotFree(base) && DotFree(ext)
    ensures var name := base + (if dot then [DOT] + ext else []);
            Base(name) == base && Ext(name) == if dot then ext else []
  {
    hide LastDot;
    var name := base + (if dot then [DOT] + ext else []);
    if dot {
      assert name[|base|] == DOT;
      assert forall i :: |base| < i < |name| ==> name[i] == ext[i - |base| - 1];
      DotIsAt(name, |base|);
      assert name[..|base|] == base && name[|base| + 1..] == ext;
    } else {
      assert name == base;
      NoDotIn(name);
    }
  }

  lemma DotIsAt(name: Name, d: nat)
    requires d < |name| && name[d] == DOT && forall i :: d < i < |name| ==> name[i] != DOT
    ensures LastDot(name, |name|) == d
  {
  }

  lemma NoDotIn(name: Name)
    requires DotFree(name)
    ensures Base(name) == name && Ext(name) == []
  {
  }

  lemma StandardCase(s: Name, a: bool)
    requires forall i :: 0 <= i < |s| ==> !IsLower(s[i])
    ensures HasLower(Recase(s, a)) <==> a && HasUpper(s)
  {
    if a && HasUpper(s) {
      var i :| 0 <= i < |s| && IsUpper(s[i]);
      assert IsLower(MapLower(s)[i]);
    }
  }

  /** Writing a standard file again lists it under the same name. */
  lemma RewriteKeepsName(s: Slot, r: Slot, pending: seq<Slot>)
    requires Standard(s[..11]) && r[..11] == s[..11] && r[12] == CaseInfo(NameOf(s, pending))
    ensures NameOf(r, pending) == NameOf(s, pending)
  {
    hide UntilSpace, HasUpper, HasLower, Recase, DecodeShort, Checksum, DecodeLfn, CaseInfo, LastDot;
    var short := s[..11];
    if !(pending != [] && SumsMatch(pending, Checksum(short))) {
      var a, b := BaseBit(s[12]), ExtBit(s[12]);
      var name := NameOf(s, pending);
      ListedIs(short, s[12]);
      ListedIs(short, r[12]);
      ListedParts(short, a, b);
      CaseBits(name);
      StandardParts(short);
      StandardCase(StoredBase(short), a);
      StandardCase(StoredExt(short), b);
      if short[8] == SPACE { NoExt(short); }
      NoLower([]);
      CaseChange(short, a, b, BaseBit(r[12]), ExtBit(r[12]));
    }
  }

  lemma NoLower(s: Name)
    requires s == []
    ensures !HasLower(s)
  {
  }

  lemma StandardParts(short: Name)
    requires |short| == 11 && Standard(short)
    ensures forall i :: 0 <= i < |StoredBase(short)| ==> !IsLower(StoredBase(short)[i])
    ensures forall i :: 0 <= i < |StoredExt(short)| ==> !IsLower(StoredExt(short)[i])
    ensures DotFree(StoredBase(short)) && DotFree(StoredExt(short))
  {
    assert forall i :: 0 <= i < 3 ==> short[8..][i] == short[8 + i];
  }

  /** A stored "Foo", with its letters as they are, is listed as "foo" once it is written again. */
  lemma MixedStoredName()
    ensures var short := [70, 111, 111] + Spaces(8);
            var name := DecodeShort(short, 0);
            name == [70, 111, 111] && DecodeShort(short, CaseInfo(name)) == [102, 111, 111]
  {
    var short: Name := [70, 111, 111] + Spaces(8);
    FieldUntilSpace([70, 111, 111], 8);
    assert short[..8] == Field([70, 111, 111], 8);
    var name := DecodeShort(short, 0);
    assert name == [70, 111, 111];
    assert LastDot(name, 3) == 3;
    assert IsLower(Base(name)[1]);
    CaseBits(name);
    assert MapLower([70, 111, 111]) == [102, 111, 111];
  }
}
