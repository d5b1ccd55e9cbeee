/**
 File names in directory slots: 8.3 names with two case bits, and long names split into
 pieces of 13 UTF-16 units stored last piece first.
 */
module FatNames {
  import opened Bytes

  /** A 32-byte directory slot. */
  type Slot = s: seq<Byte> | |s| == 32 witness Zeros(32)

  type Name = seq<Byte>

  const SPACE: Byte := 32
  const DOT: Byte := 46

  predicate IsUpper(c: Byte) { 65 <= c <= 90 }
  predicate IsLower(c: Byte) { 97 <= c <= 122 }
  predicate IsDigit(c: Byte) { 48 <= c <= 57 }

  function Upper(c: Byte): Byte { if IsLower(c) then c - 32 else c }
  function Lower(c: Byte): Byte { if IsUpper(c) then c + 32 else c }

  // ---------------------------------------------------------------- 8.3 names

  /** Position of the last dot among the first n characters, or the name's length. */
  function LastDot(name: Name, n: nat): (r: nat)
    requires n <= |name|
    ensures r == |name| || (r < n && name[r] == DOT)
    ensures forall i :: 0 <= i < n && (r == |name| || r < i) ==> name[i] != DOT
  {
    if n == 0 then |name| else if name[n - 1] == DOT then n - 1 else LastDot(name, n - 1)
  }

  predicate HasDot(name: Name) { LastDot(name, |name|) < |name| }

  function Base(name: Name): Name { name[..LastDot(name, |name|)] }

  function Ext(name: Name): Name {
    var d := LastDot(name, |name|);
    if d < |name| then name[d + 1..] else []
  }

  /** $ % ' - _ @ ~ ! ( ) ^ # & and letters and digits. */
  predicate IsSfnChar(c: Byte) {
    IsUpper(Upper(c)) || IsDigit(c) || c in {36, 37, 39, 45, 95, 64, 126, 33, 40, 41, 94, 35, 38}
  }

  predicate AllSfn(s: Name) { forall i :: 0 <= i < |s| ==> IsSfnChar(s[i]) }

  /** is_valid_sfn_name: two dots, a space or a separator would be an invalid character. */
  predicate ValidSfn(name: Name) {
    0 < |Base(name)| <= 8 && |Ext(name)| <= 3 && AllSfn(Base(name)) && AllSfn(Ext(name))
  }

  function MapUpper(s: Name): (r: Name)
    ensures |r| == |s| && forall i :: 0 <= i < |s| ==> r[i] == Upper(s[i])
  {
    seq(|s|, i requires 0 <= i < |s| => Upper(s[i]))
  }

  function MapLower(s: Name): (r: Name)
    ensures |r| == |s| && forall i :: 0 <= i < |s| ==> r[i] == Lower(s[i])
  {
    seq(|s|, i requires 0 <= i < |s| => Lower(s[i]))
  }

  function Spaces(n: nat): (r: Name)
    ensures |r| == n && forall i :: 0 <= i < n ==> r[i] == SPACE
  {
    seq(n, _ => SPACE)
  }

  /** A field of n characters, cut or padded with spaces. */
  function Field(s: Name, n: nat): (r: Name)
    ensures |r| == n
  {
    if |s| >= n then s[..n] else s + Spaces(n - |s|)
  }

  /** encode_sfn: the eleven name bytes of a slot. */
  function EncodeSfn(name: Name): (r: Name)
    ensures |r| == 11
  {
    Field(MapUpper(Base(name)), 8) + Field(MapUpper(Ext(name)), 3)
  }

  predicate HasLower(s: Name) { exists i :: 0 <= i < |s| && IsLower(s[i]) }
  predicate HasUpper(s: Name) { exists i :: 0 <= i < |s| && IsUpper(s[i]) }

  /** encode_case_info: bit 3 for the base, bit 4 for the extension. */
  function CaseInfo(name: Name): Byte {
    (if HasLower(Base(name)) then 8 else 0) + (if HasLower(Ext(name)) then 16 else 0)
  }

  function UntilSpace(s: Name): (r: Name)
    ensures |r| <= |s| && r == s[..|r|] && (|r| < |s| ==> s[|r|] == SPACE)
    ensures forall i :: 0 <= i < |r| ==> r[i] != SPACE
  {
    if s == [] || s[0] == SPACE then [] else [s[0]] + UntilSpace(s[1..])
  }

  function Recase(s: Name, lower: bool): Name { if lower then MapLower(s) else s }

  /** decode_short_name. */
  function DecodeShort(short: Name, caseInfo: Byte): Name
    requires |short| == 11
  {
    var base := Recase(UntilSpace(short[..8]), caseInfo / 8 % 2 == 1);
    if short[8] == SPACE then base
    else base + [DOT] + Recase(UntilSpace(short[8..]), caseInfo / 16 % 2 == 1)
  }

  lemma {:induction false} FieldUntilSpace(s: Name, n: nat)
    requires |s| <= n && forall i :: 0 <= i < |s| ==> s[i] != SPACE
    ensures UntilSpace(Field(s, n)) == s
  {
    var f := Field(s, n);
    assert forall i :: 0 <= i < |s| ==> f[i] == s[i];
    assert |s| < n ==> f[|s|] == SPACE;
    assert |UntilSpace(f)| == |s|;
    assert f[..|s|] == s;
  }

  lemma SfnNotSpace(s: Name)
    requires AllSfn(s)
    ensures forall i :: 0 <= i < |s| ==> MapUpper(s)[i] != SPACE && s[i] != DOT
  {
  }

  predicate Mixed(s: Name) { HasLower(s) && HasUpper(s) }

  /** One component comes back unless it mixes upper and lower case. */
  lemma RecaseRoundTrip(s: Name)
    ensures Recase(MapUpper(s), HasLower(s)) == s <==> !Mixed(s)
  {
    var r := Recase(MapUpper(s), HasLower(s));
    if Mixed(s) {
      var i :| 0 <= i < |s| && IsUpper(s[i]);
      assert r[i] == s[i] + 32;
    } else {
      forall i | 0 <= i < |s| ensures r[i] == s[i] { }
    }
  }

  /** The two components, decoded from an encoded 8.3 name. */
  lemma DecodedParts(name: Name)
    requires ValidSfn(name)
    ensures DecodeShort(EncodeSfn(name), CaseInfo(name))
              == Recase(MapUpper(Base(name)), HasLower(Base(name)))
                 + (if Ext(name) == [] then [] else [DOT] + Recase(MapUpper(Ext(name)), HasLower(Ext(name))))
  {
    SfnNotSpace(Base(name));
    SfnNotSpace(Ext(name));
    CaseBits(name);
    hide UntilSpace, MapUpper, MapLower, HasLower, CaseInfo, ValidSfn;
    var base, ext := MapUpper(Base(name)), MapUpper(Ext(name));
    FieldUntilSpace(base, 8);
    FieldUntilSpace(ext, 3);
    DecodeFields(Field(base, 8), Field(ext, 3), CaseInfo(name));
    hide DecodeShort, Recase;
    assert Field(ext, 3)[0] == if ext == [] then SPACE else ext[0];
  }

  lemma DecodeFields(a: Name, b: Name, caseInfo: Byte)
    requires |a| == 8 && |b| == 3
    ensures DecodeShort(a + b, caseInfo)
              == Recase(UntilSpace(a), caseInfo / 8 % 2 == 1)
                 + (if b[0] == SPACE then [] else [DOT] + Recase(UntilSpace(b), caseInfo / 16 % 2 == 1))
  {
    assert (a + b)[..8] == a && (a + b)[8..] == b;
  }

  lemma CaseBits(name: Name)
    ensures CaseInfo(name) / 8 % 2 == 1 <==> HasLower(Base(name))
    ensures CaseInfo(name) / 16 % 2 == 1 <==> HasLower(Ext(name))
  {
  }

  lemma NameParts(name: Name)
    ensures name == Base(name) + (if HasDot(name) then [DOT] + Ext(name) else []) && (!HasDot(name) ==> Ext(name) == [])
  {
  }

  lemma SplitEqual(a: Name, b: Name, x: Name, y: Name)
    requires |a| == |b|
    ensures a + x == b + y <==> a == b && x == y
  {
    if a + x == b + y {
      assert a == (a + x)[..|a|] == (b + y)[..|b|] == b;
      assert x == (a + x)[|a|..] == (b + y)[|b|..] == y;
    }
  }

  /**
   An 8.3 name comes back from its slot exactly when neither component mixes cases and a dot
   is followed by an extension.
   */
  lemma ShortRoundTrip(name: Name)
    requires ValidSfn(name)
    ensures DecodeShort(EncodeSfn(name), CaseInfo(name)) == name <==>
              !Mixed(Base(name)) && !Mixed(Ext(name)) && (HasDot(name) ==> Ext(name) != [])
  {
    DecodedParts(name);
    NameParts(name);
    var base, ext := Base(name), Ext(name);
    RecaseRoundTrip(base);
    RecaseRoundTrip(ext);
    var e := Recase(MapUpper(ext), HasLower(ext));
    SplitEqual(Recase(MapUpper(base), HasLower(base)), base,
               if ext == [] then [] else [DOT] + e, if HasDot(name) then [DOT] + ext else []);
    SplitEqual([DOT], [DOT], e, ext);
  }

  /** "Foo" is listed as "foo", and "a." as "a". */
  lemma ShortNameWitness()
    ensures var name := [70, 111, 111];
            ValidSfn(name) && DecodeShort(EncodeSfn(name), CaseInfo(name)) == [102, 111, 111]
    ensures var name := [97, DOT];
            ValidSfn(name) && DecodeShort(EncodeSfn(name), CaseInfo(name)) == [97]
  {
    var mixed: Name, dotted: Name := [70, 111, 111], [97, DOT];
    assert LastDot(mixed, 3) == 3 && Base(mixed) == mixed && Ext(mixed) == [];
    assert LastDot(dotted, 2) == 1 && Base(dotted) == [97] && Ext(dotted) == [];
    DecodedParts(mixed);
    DecodedParts(dotted);
    assert IsLower(mixed[1]) && IsLower(Base(dotted)[0]);
    assert MapLower(MapUpper(mixed)) == [102, 111, 111] && MapLower(MapUpper([97])) == [97];
  }

  // --------------------------------------------------------------- long names

  const LAST_PIECE: nat := 64
  const MAX_PIECES: nat := 20

  type Unit = u: nat | u < 65536

  /** Where unit i of a piece lies in its slot. */
  function UnitOffset(i: nat): (r: nat)
    requires i < 13
    ensures r + 1 < 32
  {
    if i < 5 then 1 + 2 * i else if i < 11 then 14 + 2 * (i - 5) else 28 + 2 * (i - 11)
  }

  /** The unit stored at a byte, if any. */
  function UnitAt(k: nat): (r: int)
    ensures r < 13
  {
    if 1 <= k < 11 then (k - 1) / 2
    else if 14 <= k < 26 then (k - 14) / 2 + 5
    else if 28 <= k < 32 then (k - 28) / 2 + 11
    else -1
  }

  function LfnByte(order: Byte, units: seq<Unit>, checksum: Byte, k: nat): Byte
    requires |units| == 13 && k < 32
  {
    var u := UnitAt(k);
    if u >= 0 then (if k == UnitOffset(u) then units[u] % 256 else units[u] / 256)
    else if k == 0 then order
    else if k == 11 then 15
    else if k == 13 then checksum
    else 0
  }

  function LfnSlot(order: Byte, units: seq<Unit>, checksum: Byte): Slot
    requires |units| == 13
  {
    seq(32, k requires 0 <= k < 32 => LfnByte(order, units, checksum, k))
  }

  function UnitOf(s: Slot, i: nat): (u: Unit)
    requires i < 13
  {
    var (lo: nat, hi: nat) := (s[UnitOffset(i)], s[UnitOffset(i) + 1]);
    lo + 256 * hi
  }

  function Units(s: Slot): (r: seq<Unit>)
    ensures |r| == 13
  {
    seq(13, i requires 0 <= i < 13 => UnitOf(s, i))
  }

  lemma UnitsOfSlot(order: Byte, units: seq<Unit>, checksum: Byte)
    requires |units| == 13
    ensures Units(LfnSlot(order, units, checksum)) == units
  {
    hide LfnSlot, UnitOf;
    forall i | 0 <= i < 13 ensures UnitOf(LfnSlot(order, units, checksum), i) == units[i] {
      UnitOfSlot(order, units, checksum, i);
    }
  }

  lemma UnitOfSlot(order: Byte, units: seq<Unit>, checksum: Byte, i: nat)
    requires |units| == 13 && i < 13
    ensures UnitOf(LfnSlot(order, units, checksum), i) == units[i]
  {
    hide UnitAt, UnitOffset;
    var s, k := LfnSlot(order, units, checksum), UnitOffset(i);
    UnitPlaces(i);
    assert s[k] == units[i] % 256 && s[k + 1] == units[i] / 256;
  }

  lemma UnitPlaces(i: nat)
    requires i < 13
    ensures UnitAt(UnitOffset(i)) == i && UnitAt(UnitOffset(i) + 1) == i
  {
  }

  function Pieces(name: Name): nat { (|name| + 12) / 13 }

  /** Position i of the padded name: the character, then one zero, then 0xFFFF. */
  function Padded(name: Name, i: nat): Unit {
    if i < |name| then name[i] else if i == |name| then 0 else 0xFFFF
  }

  function Piece(name: Name, k: nat): (r: seq<Unit>)
    ensures |r| == 13
  {
    seq<Unit>(13, i requires 0 <= i < 13 => Padded(name, 13 * k + i))
  }

  function Order(name: Name, k: nat): Byte
    requires k < Pieces(name) <= MAX_PIECES
  {
    k + 1 + if k + 1 == Pieces(name) then LAST_PIECE else 0
  }

  function PieceSlot(name: Name, checksum: Byte, k: nat): Slot
    requires k < Pieces(name) <= MAX_PIECES
  {
    LfnSlot(Order(name, k), Piece(name, k), checksum)
  }

  /** create_lfn_entries in the order the slots are written: last piece first. */
  function LfnSlots(name: Name, checksum: Byte): (r: seq<Slot>)
    requires Pieces(name) <= MAX_PIECES
    ensures |r| == Pieces(name)
  {
    var n := Pieces(name);
    seq(n, i requires 0 <= i < n => PieceSlot(name, checksum, n - 1 - i))
  }

  /** The units of the pending slots, last one first. */
  function AllUnits(pending: seq<Slot>): (r: seq<Unit>)
    ensures |r| == 13 * |pending|
  {
    if pending == [] then [] else Units(pending[|pending| - 1]) + AllUnits(pending[..|pending| - 1])
  }

  function Printable(u: Unit): Byte { if u < 128 then u else 63 }

  /** append_lfn_character over all units: zero ends, 0xFFFF is skipped, 255 characters fit. */
  function Collect(units: seq<Unit>, out: Name): Name
    decreases |units|
  {
    if units == [] || units[0] == 0 then out
    else if units[0] == 0xFFFF then Collect(units[1..], out)
    else if |out| + 1 >= 256 then out
    else Collect(units[1..], out + [Printable(units[0])])
  }

  function DecodeLfn(pending: seq<Slot>): Name { Collect(AllUnits(pending), []) }

  lemma {:induction false} AllUnitsAt(pending: seq<Slot>, k: nat, j: nat)
    requires k < |pending| && j < 13
    ensures AllUnits(pending)[13 * k + j] == Units(pending[|pending| - 1 - k])[j]
    decreases |pending|
  {
    if k > 0 {
      var init := pending[..|pending| - 1];
      AllUnitsAt(init, k - 1, j);
      assert AllUnits(pending)[13 * k + j] == AllUnits(init)[13 * (k - 1) + j];
    }
  }

  /** Read back in order, the units are the padded name. */
  lemma LfnUnits(name: Name, checksum: Byte)
    requires Pieces(name) <= MAX_PIECES
    ensures |AllUnits(LfnSlots(name, checksum))| == 13 * Pieces(name)
    ensures forall i :: 0 <= i < 13 * Pieces(name) ==> AllUnits(LfnSlots(name, checksum))[i] == Padded(name, i)
  {
    hide AllUnits, LfnSlot, Units;
    var slots := LfnSlots(name, checksum);
    forall i | 0 <= i < 13 * Pieces(name) ensures AllUnits(slots)[i] == Padded(name, i) {
      var k, j := i / 13, i % 13;
      AllUnitsAt(slots, k, j);
      UnitsOfSlot(Order(name, k), Piece(name, k), checksum);
      assert slots[|slots| - 1 - k] == PieceSlot(name, checksum, k);
    }
  }

  function MapPrintable(s: Name): (r: Name)
    ensures |r| == |s| && forall i :: 0 <= i < |s| ==> r[i] == Printable(s[i])
  {
    seq(|s|, i requires 0 <= i < |s| => Printable(s[i]))
  }

  lemma {:induction false} CollectName(units: seq<Unit>, name: Name, k: nat)
    requires k <= |name| <= 255 && (forall i :: 0 <= i < |name| ==> name[i] != 0)
    requires |units| >= |name| - k && (forall i :: 0 <= i < |name| - k ==> units[i] == name[k + i])
    requires |units| > |name| - k ==> units[|name| - k] == 0
    ensures Collect(units, MapPrintable(name[..k])) == MapPrintable(name)
    decreases |name| - k
  {
    if k == |name| {
      assert name[..k] == name;
    } else {
      assert MapPrintable(name[..k + 1]) == MapPrintable(name[..k]) + [Printable(name[k])];
      forall i | 0 <= i < |name| - (k + 1) ensures units[1..][i] == name[k + 1 + i] {
        assert units[i + 1] == name[k + (i + 1)];
      }
      CollectName(units[1..], name, k + 1);
    }
  }

  /** A long name of 1 to 255 nonzero bytes comes back exactly when it is ASCII. */
  lemma LongRoundTrip(name: Name, checksum: Byte)
    requires 1 <= |name| <= 255 && forall i :: 0 <= i < |name| ==> name[i] != 0
    ensures Pieces(name) <= MAX_PIECES
    ensures DecodeLfn(LfnSlots(name, checksum)) == MapPrintable(name)
    ensures DecodeLfn(LfnSlots(name, checksum)) == name <==> forall i :: 0 <= i < |name| ==> name[i] < 128
  {
    LfnUnits(name, checksum);
    var units := AllUnits(LfnSlots(name, checksum));
    hide LfnSlots, AllUnits;
    forall i | 0 <= i < |name| ensures units[i] == name[0 + i] { }
    assert MapPrintable(name[..0]) == [];
    CollectName(units, name, 0);
    if forall i :: 0 <= i < |name| ==> name[i] < 128 { assert MapPrintable(name) == name; }
    if MapPrintable(name) == name {
      forall i | 0 <= i < |name| ensures name[i] < 128 { assert MapPrintable(name)[i] == name[i]; }
    }
  }

  /** A byte of 128 or more comes back as a question mark. */
  lemma LongNameWitness(checksum: Byte)
    ensures Pieces([233]) <= MAX_PIECES && DecodeLfn(LfnSlots([233], checksum)) == [63]
  {
    LongRoundTrip([233], checksum);
    assert MapPrintable([233]) == [63];
  }
}
