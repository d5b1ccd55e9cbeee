/**
 The directory format as other systems write it: which slots are entries, the checksum that ties
 long-name slots to their short slot, and the bytes of a whole entry.
 */
module FatFormat {
  import opened Bytes
  import opened FatNames
  import opened FatDirectory
  import opened FatCreate

  // ----------------------------------------------------------------- checksum

  /** Bit k of a byte. */
  function Bit(c: nat, k: nat): bool { if k == 0 then c % 2 == 1 else Bit(c / 2, k - 1) }

  /** A byte rotated right by one bit. */
  function Rotate(c: Byte): Byte { c / 2 + 128 * (c % 2) }

  function Pow2(b: nat): nat { if b == 0 then 1 else 2 * Pow2(b - 1) }

  /** A number under 2^b has no bit b, and adding 2^b sets exactly that one. */
  lemma {:induction false} TopBit(h: nat, b: nat, k: nat)
    requires h < Pow2(b) && k <= b
    ensures !Bit(h, b) && Bit(h + Pow2(b), k) == (k == b || Bit(h, k))
    decreases b
  {
    if b > 0 {
      assert (h + Pow2(b)) / 2 == h / 2 + Pow2(b - 1) && (h + Pow2(b)) % 2 == h % 2;
      TopBit(h / 2, b - 1, if k == 0 then 0 else k - 1);
    }
  }

  /** Bit k of the rotated byte is bit k + 1 of the byte, and the highest is the lowest. */
  lemma RotateBits(c: Byte, k: nat)
    requires k < 8
    ensures Bit(Rotate(c), k) == Bit(c, if k == 7 then 0 else k + 1)
  {
    assert Pow2(3) == 8 && Pow2(4) == 16 && Pow2(5) == 32 && Pow2(6) == 64 && Pow2(7) == 128;
    TopBit(c / 2, 7, k);
  }

  /** The sum of the long-name specification: rotate the sum right, then add the byte, modulo 256. */
  function RotateSum(sum: Byte, bytes: seq<Byte>): Byte
    decreases |bytes|
  {
    if bytes == [] then sum else RotateSum((Rotate(sum) + bytes[0]) % 256, bytes[1..])
  }

  lemma {:induction false} RotateSumLast(sum: Byte, bytes: seq<Byte>)
    requires bytes != []
    ensures var n := |bytes| - 1; RotateSum(sum, bytes) == (Rotate(RotateSum(sum, bytes[..n])) + bytes[n]) % 256
    decreases |bytes|
  {
    hide Rotate;
    var n := |bytes| - 1;
    if n > 0 {
      assert bytes[1..][..n - 1] == bytes[..n][1..];
      RotateSumLast((Rotate(sum) + bytes[0]) % 256, bytes[1..]);
    }
  }

  /** lfn_checksum is that sum. */
  lemma {:induction false} ChecksumIsRotateSum(bytes: seq<Byte>)
    ensures Checksum(bytes) == RotateSum(0, bytes)
    decreases |bytes|
  {
    hide RotateSum;
    if bytes != [] {
      var n := |bytes| - 1;
      ChecksumIsRotateSum(bytes[..n]);
      RotateSumLast(0, bytes);
      HighBit(Checksum(bytes[..n]));
    } else {
      assert RotateSum(0, bytes) == 0 by { NoBytes(bytes); }
    }
  }

  lemma NoBytes(bytes: seq<Byte>)
    requires bytes == []
    ensures RotateSum(0, bytes) == 0
  {
  }

  lemma HighBit(c: Byte)
    ensures c * 128 % 256 + c / 2 == Rotate(c)
  {
  }

  // ------------------------------------------------------------- what is listed

  /** No end marker in front of slot i. */
  predicate Reachable(slots: seq<Slot>, i: nat) { forall j :: 0 <= j < i && j < |slots| ==> slots[j][0] != 0 }

  /** In use, no long-name slot, and not a volume label: that is the label bit without the directory bit. */
  predicate HoldsEntry(s: Slot) {
    s[0] != 0 && s[0] != 0xE5 && s[11] != 0x0F && !(Bit(s[11], 3) && !Bit(s[11], 4))
  }

  lemma LabelBits(a: Byte)
    ensures Bit(a, 3) == (a / 8 % 2 == 1) && Bit(a, 4) == (a / 16 % 2 == 1)
  {
    assert a / 2 / 2 / 2 == a / 8 && a / 8 / 2 == a / 16;
    assert Bit(a, 3) == Bit(a / 2, 2) == Bit(a / 2 / 2, 1) == Bit(a / 2 / 2 / 2, 0);
    assert Bit(a, 4) == Bit(a / 2, 3) == Bit(a / 2 / 2, 2) == Bit(a / 2 / 2 / 2, 1) == Bit(a / 2 / 2 / 2 / 2, 0);
  }

  /** The case byte has bit 3 for small letters in the base, bit 4 for the extension, and no other bit. */
  lemma CaseByte(name: Name)
    ensures CaseInfo(name) % 8 == 0 && CaseInfo(name) < 32
    ensures Bit(CaseInfo(name), 3) <==> exists i :: 0 <= i < |Base(name)| && 'a' <= Base(name)[i] as char <= 'z'
    ensures Bit(CaseInfo(name), 4) <==> exists i :: 0 <= i < |Ext(name)| && 'a' <= Ext(name)[i] as char <= 'z'
  {
    hide LastDot, Base, Ext;
    LabelBits(CaseInfo(name));
    SmallLetters(Base(name));
    SmallLetters(Ext(name));
  }

  lemma SmallLetters(s: Name)
    ensures HasLower(s) <==> exists i :: 0 <= i < |s| && 'a' <= s[i] as char <= 'z'
  {
    if HasLower(s) { var i :| 0 <= i < |s| && IsLower(s[i]); assert 'a' <= s[i] as char <= 'z'; }
    if exists i :: 0 <= i < |s| && 'a' <= s[i] as char <= 'z' {
      var i :| 0 <= i < |s| && 'a' <= s[i] as char <= 'z';
      assert IsLower(s[i]);
    }
  }

  lemma HoldsIsShort(s: Slot)
    ensures HoldsEntry(s) <==> IsShort(s)
  {
    LabelBits(s[11]);
  }

  /** Slot i, from slot k on, is listed exactly when it holds an entry and no end marker comes before. */
  lemma {:induction false} ListedFrom(slots: seq<Slot>, k: nat, pending: seq<nat>, i: nat)
    requires k <= i < |slots| && forall x :: 0 <= x < |pending| ==> pending[x] < k
    ensures (exists e :: e in Scan(slots, k, pending) && e.at == i) <==>
              (forall j :: k <= j < i ==> slots[j][0] != 0) && HoldsEntry(slots[i])
    decreases |slots| - k
  {
    hide NameOf, Select;
    HoldsIsShort(slots[k]);
    if !IsEnd(slots[k]) {
      if k < i { ListedFrom(slots, k + 1, if IsLfn(slots[k]) then Push(pending, k) else [], i); }
      if IsShort(slots[k]) {
        ScanShort(slots, k, pending);
        var first, rest := Scan(slots, k, pending)[0], Scan(slots, k + 1, []);
        assert Scan(slots, k, pending) == [first] + rest;
        if k == i { assert first in Scan(slots, k, pending) && first.at == i; }
        if k < i {
          if exists e :: e in rest && e.at == i {
            var e :| e in rest && e.at == i;
            assert e in Scan(slots, k, pending);
          }
        }
      }
    }
  }

  /** Every directory: slot i is listed exactly when it holds an entry and no end marker comes before. */
  lemma ListedExactly(slots: seq<Slot>, i: nat)
    requires i < |slots|
    ensures (exists e :: e in Scan(slots, 0, []) && e.at == i) <==> Reachable(slots, i) && HoldsEntry(slots[i])
  {
    ListedFrom(slots, 0, [], i);
  }

  // --------------------------------------------------------------- long names

  /** The characters of units up to the first zero: 0xFFFF is filler, and beyond ASCII it is a question mark. */
  function Spelled(units: seq<Unit>): Name {
    if units == [] || units[0] == 0 then []
    else if units[0] == 0xFFFF then Spelled(units[1..])
    else [if units[0] < 0x80 then units[0] else '?' as nat] + Spelled(units[1..])
  }

  function Cut255(name: Name): Name { if |name| > 255 then name[..255] else name }

  lemma {:induction false} CollectSpells(units: seq<Unit>, out: Name)
    requires |out| <= 255
    ensures Collect(units, out) == Cut255(out + Spelled(units))
    decreases |units|
  {
    hide Cut255;
    if units == [] || units[0] == 0 {
      assert out + Spelled(units) == out;
      ShortStays(out);
    } else if units[0] == 0xFFFF {
      CollectSpells(units[1..], out);
    } else if |out| < 255 {
      CollectSpells(units[1..], out + [Printable(units[0])]);
      assert out + Spelled(units) == (out + [Printable(units[0])]) + Spelled(units[1..]);
    } else {
      FullIsCut(out, Spelled(units));
    }
  }

  lemma ShortStays(out: Name)
    requires |out| <= 255
    ensures Cut255(out) == out
  {
  }

  lemma FullIsCut(out: Name, rest: Name)
    requires |out| == 255
    ensures Cut255(out + rest) == out
  {
    assert rest == [] ==> out + rest == out;
  }

  /** The name of any group of long-name slots: what their units spell, cut at 255 characters. */
  lemma LongNameSpells(pending: seq<Slot>)
    ensures DecodeLfn(pending) == Cut255(Spelled(AllUnits(pending)))
  {
    hide AllUnits;
    CollectSpells(AllUnits(pending), []);
    assert [] + Spelled(AllUnits(pending)) == Spelled(AllUnits(pending));
  }

  /** Without an end marker in front, and nothing pending, what is found from slot i on is listed. */
  lemma {:induction false} ScanReaches(slots: seq<Slot>, k: nat, pending: seq<nat>, i: nat, e: Entry)
    requires k <= i <= |slots| && (forall x :: 0 <= x < |pending| ==> pending[x] < k)
    requires (forall j :: k <= j < i ==> slots[j][0] != 0) && (i == k ==> pending == [])
    requires i > k ==> !IsLfn(slots[i - 1])
    requires e in Scan(slots, i, [])
    ensures e in Scan(slots, k, pending)
    decreases i - k
  {
    hide NameOf, Select;
    if k < i {
      ScanReaches(slots, k + 1, if IsLfn(slots[k]) then Push(pending, k) else [], i, e);
    }
  }

  /** The group of slots a long name with this checksum byte occupies, then its short slot. */
  ghost predicate LongGroup(slots: seq<Slot>, i: nat, n: nat, sum: Byte) {
    && 1 <= n <= 20 && i + n < |slots| && HoldsEntry(slots[i + n]) && (i > 0 ==> slots[i - 1][11] != 0x0F)
    && forall k :: i <= k < i + n ==>
         slots[k][0] != 0 && slots[k][0] != 0xE5 && slots[k][11] == 0x0F && slots[k][13] == sum
  }

  /**
   Every directory, whoever wrote it: a group of long-name slots that carry the specified sum of
   the short name's bytes is listed under the long name they spell.
   */
  lemma ListedUnderLongName(slots: seq<Slot>, i: nat, n: nat)
    requires Reachable(slots, i)
    requires i + n < |slots| && LongGroup(slots, i, n, RotateSum(0, slots[i + n][..11]))
    ensures Entry(DecodeLfn(slots[i..i + n]), slots[i + n], i + n, Upto(i, n)) in Scan(slots, 0, [])
  {
    hide DecodeLfn, RotateSum, LongGroup, Scan, IsLfn, IsShort;
    var short := slots[i + n];
    SumsAre(slots, i, n, RotateSum(0, short[..11]));
    GroupListed(slots, i, n);
    ScanReaches(slots, 0, [], i, Entry(DecodeLfn(slots[i..i + n]), short, i + n, Upto(i, n)));
  }

  lemma GroupListed(slots: seq<Slot>, i: nat, n: nat)
    requires i + n < |slots| && LongGroup(slots, i, n, RotateSum(0, slots[i + n][..11]))
    ensures Entry(DecodeLfn(slots[i..i + n]), slots[i + n], i + n, Upto(i, n)) in Scan(slots, i, [])
  {
    hide DecodeLfn, DecodeShort, Checksum, RotateSum, LongGroup, Scan, IsLfn, IsShort;
    var short := slots[i + n];
    GroupShort(slots, i, n, RotateSum(0, short[..11]));
    ChecksumIsRotateSum(short[..11]);
    SumsAre(slots, i, n, RotateSum(0, short[..11]));
    assert Upto(i, 0) == [];
    ScanLfns(slots, i, 0, n);
    ScanShort(slots, i + n, Upto(i, n));
    assert Select(slots, Upto(i, n)) == slots[i..i + n];
    assert Entry(DecodeLfn(slots[i..i + n]), short, i + n, Upto(i, n)) == Scan(slots, i, [])[0];
  }

  lemma GroupShort(slots: seq<Slot>, i: nat, n: nat, sum: Byte)
    requires LongGroup(slots, i, n, sum)
    ensures 1 <= n <= MAX_PIECES && i + n < |slots| && IsShort(slots[i + n])
  {
    HoldsIsShort(slots[i + n]);
  }

  lemma SumsAre(slots: seq<Slot>, i: nat, n: nat, sum: Byte)
    requires LongGroup(slots, i, n, sum)
    ensures i + n < |slots| && SumsMatch(slots[i..i + n], sum) && slots[i..i + n] != []
    ensures forall k :: i <= k < i + n ==> IsLfn(slots[k])
    ensures i > 0 ==> !IsLfn(slots[i - 1])
  {
  }

  /** With a byte that is not the sum, the entry is listed under its short name. */
  lemma ListedUnderShortName(short: Slot, pending: seq<Slot>, k: nat)
    requires k < |pending| && pending[k][13] != RotateSum(0, short[..11])
    ensures NameOf(short, pending) == DecodeShort(short[..11], short[12])
  {
    hide DecodeLfn, DecodeShort, Checksum, RotateSum;
    ChecksumIsRotateSum(short[..11]);
  }

  // --------------------------------------------------------- an entry in bytes

  /** "longfilename.txt" and its first alias. */
  const NAME: Name := [108, 111, 110, 103, 102, 105, 108, 101, 110, 97, 109, 101, 46, 116, 120, 116]
  const ALIAS: Name := [76, 79, 78, 71, 70, 73, 126, 49, 84, 88, 84]

  /** The slot of its second piece, "txt", which comes first. */
  predicate IsSecondPiece(s: Slot) {
    && s[0] == 0x42 && s[1] == 0x74 && s[2] == 0x00 && s[3] == 0x78 && s[4] == 0x00 && s[5] == 0x74
    && s[6] == 0x00 && s[7] == 0x00 && s[8] == 0x00 && s[9] == 0xFF && s[10] == 0xFF && s[11] == 0x0F
    && s[12] == 0x00 && s[13] == 0xD4 && s[14] == 0xFF && s[15] == 0xFF && s[16] == 0xFF && s[17] == 0xFF
    && s[18] == 0xFF && s[19] == 0xFF && s[20] == 0xFF && s[21] == 0xFF && s[22] == 0xFF && s[23] == 0xFF
    && s[24] == 0xFF && s[25] == 0xFF && s[26] == 0x00 && s[27] == 0x00 && s[28] == 0xFF && s[29] == 0xFF
    && s[30] == 0xFF && s[31] == 0xFF
  }

  /** The slot of its first piece, "longfilename.". */
  predicate IsFirstPiece(s: Slot) {
    && s[0] == 0x01 && s[1] == 0x6C && s[2] == 0x00 && s[3] == 0x6F && s[4] == 0x00 && s[5] == 0x6E
    && s[6] == 0x00 && s[7] == 0x67 && s[8] == 0x00 && s[9] == 0x66 && s[10] == 0x00 && s[11] == 0x0F
    && s[12] == 0x00 && s[13] == 0xD4 && s[14] == 0x69 && s[15] == 0x00 && s[16] == 0x6C && s[17] == 0x00
    && s[18] == 0x65 && s[19] == 0x00 && s[20] == 0x6E && s[21] == 0x00 && s[22] == 0x61 && s[23] == 0x00
    && s[24] == 0x6D && s[25] == 0x00 && s[26] == 0x00 && s[27] == 0x00 && s[28] == 0x65 && s[29] == 0x00
    && s[30] == 0x2E && s[31] == 0x00
  }

  /** Its short slot, for a file of 0x789ABCDE bytes that starts at cluster 0x123456. */
  predicate IsShortSlot(s: Slot) {
    && s[0] == 0x4C && s[1] == 0x4F && s[2] == 0x4E && s[3] == 0x47 && s[4] == 0x46 && s[5] == 0x49
    && s[6] == 0x7E && s[7] == 0x31 && s[8] == 0x54 && s[9] == 0x58 && s[10] == 0x54 && s[11] == 0x20
    && s[12] == 0x00 && s[13] == 0x00 && s[14] == 0x00 && s[15] == 0x00 && s[16] == 0x00 && s[17] == 0x00
    && s[18] == 0x00 && s[19] == 0x00 && s[20] == 0x12 && s[21] == 0x00 && s[22] == 0x00 && s[23] == 0x00
    && s[24] == 0x00 && s[25] == 0x00 && s[26] == 0x56 && s[27] == 0x34 && s[28] == 0xDE && s[29] == 0xBC
    && s[30] == 0x9A && s[31] == 0x78
  }

  lemma SumCons(sum: Byte, b: Byte, rest: Name)
    ensures RotateSum(sum, [b] + rest) == RotateSum((Rotate(sum) + b) % 256, rest)
  {
    var bytes := [b] + rest;
    assert bytes != [] && bytes[0] == b && bytes[1..] == rest;
  }

  lemma SumHead(rest: Name)
    ensures RotateSum(0, [76, 79, 78, 71] + rest) == RotateSum(75, rest)
  {
    hide RotateSum;
    var r3 := [71] + rest;
    var r2 := [78] + r3;
    var r1 := [79] + r2;
    var r0 := [76] + r1;
    SumCons(0, 76, r1);
    SumCons(76, 79, r2);
    SumCons(117, 78, r3);
    SumCons(8, 71, rest);
    assert [76, 79, 78, 71] + rest == r0;
  }

  lemma SumMiddle(rest: Name)
    ensures RotateSum(75, [70, 73, 126, 49] + rest) == RotateSum(255, rest)
  {
    hide RotateSum;
    var r7 := [49] + rest;
    var r6 := [126] + r7;
    var r5 := [73] + r6;
    var r4 := [70] + r5;
    SumCons(75, 70, r5);
    SumCons(235, 73, r6);
    SumCons(62, 126, r7);
    SumCons(157, 49, rest);
    assert [70, 73, 126, 49] + rest == r4;
  }

  lemma SumTail(rest: Name)
    ensures RotateSum(255, [84, 88, 84] + rest) == RotateSum(212, rest)
  {
    hide RotateSum;
    var r10 := [84] + rest;
    var r9 := [88] + r10;
    var r8 := [84] + r9;
    SumCons(255, 84, r9);
    SumCons(83, 88, r10);
    SumCons(1, 84, rest);
    assert [84, 88, 84] + rest == r8;
  }

  /** The published sum of that alias. */
  lemma SumVector()
    ensures RotateSum(0, ALIAS) == 0xD4
  {
    hide RotateSum;
    var tail: Name := [84, 88, 84] + [];
    var middle: Name := [70, 73, 126, 49] + tail;
    SumHead(middle);
    SumMiddle(tail);
    SumTail([]);
    NoBytesLeft(0xD4, []);
    assert ALIAS == [76, 79, 78, 71] + middle;
  }

  lemma NoBytesLeft(sum: Byte, rest: Name)
    requires rest == []
    ensures RotateSum(sum, rest) == sum
  {
  }

  lemma NameVector()
    ensures LastDot(NAME, 16) == 12 && Base(NAME) == [108, 111, 110, 103, 102, 105, 108, 101, 110, 97, 109, 101]
            && Ext(NAME) == [116, 120, 116]
  {
    hide LastDot;
    var d := LastDot(NAME, 16);
    assert NAME[12] == DOT && NAME[13] != DOT && NAME[14] != DOT && NAME[15] != DOT;
    assert d == 12;
  }

  lemma {:induction false} SanitizeUpper(s: Name, room: nat)
    requires |s| <= room && forall i :: 0 <= i < |s| ==> IsAliasChar(Upper(s[i]))
    ensures Sanitize(s, room) == MapUpper(s)
  {
    hide IsAliasChar;
    if s != [] {
      SanitizeUpper(s[1..], room - 1);
      assert MapUpper(s) == [Upper(s[0])] + MapUpper(s[1..]);
    }
  }

  lemma LettersAreAlias(s: Name)
    requires forall i :: 0 <= i < |s| ==> IsLower(s[i])
    ensures forall i :: 0 <= i < |s| ==> IsAliasChar(Upper(s[i]))
  {
  }

  /** The number a row of digits stands for. */
  function Decimal(digits: Name): int {
    if digits == [] then 0
    else 10 * Decimal(digits[..|digits| - 1]) + (digits[|digits| - 1] as int - '0' as int)
  }

  /** The digits of an alias number: decimal, without a zero in front. */
  lemma DigitsSpell(u: nat)
    requires 1 <= u < 1000
    ensures var d := Digits(u);
            Decimal(d) == u && d[0] != '0' as nat && forall i :: 0 <= i < |d| ==> '0' <= d[i] as char <= '9'
  {
    var d := Digits(u);
    assert d[..0] == [];
    if u < 10 {
      assert Decimal(d[..1]) == u && d[..1] == d;
    } else if u < 100 {
      assert d[..2] == d && d[..2][..1] == d[..1];
      assert Decimal(d[..1]) == u / 10;
    } else {
      assert d[..3] == d && d[..3][..2] == d[..2] && d[..2][..1] == d[..1];
      assert u / 100 == u / 10 / 10;
      ThreeDigits(u / 10 / 10, u / 10 % 10, u % 10);
    }
  }

  lemma ThreeDigits(a: nat, b: nat, c: nat)
    requires a < 10 && b < 10 && c < 10
    ensures Decimal([48 + a, 48 + b, 48 + c]) == 100 * a + 10 * b + c
  {
    var d: Name := [48 + a, 48 + b, 48 + c];
    assert d[..2] == [48 + a, 48 + b] && d[..2][..1] == [48 + a] && d[..1][..0] == [];
    assert Decimal([48 + a]) == a;
    assert Decimal([48 + a, 48 + b]) == 10 * a + b;
  }

  /** The first alias of that name, which is no 8.3 name. */
  lemma AliasVector()
    ensures Alias(NAME, 1) == ALIAS && !ValidSfn(NAME)
  {
    hide LastDot, Sanitize, Base, Ext;
    NameVector();
    var base: Name, ext: Name := [108, 111, 110, 103, 102, 105, 108, 101, 110, 97, 109, 101], [116, 120, 116];
    LettersAreAlias(base);
    LettersAreAlias(ext);
    SanitizeUpper(base, 64);
    SanitizeUpper(ext, 16);
    CutAlias(base, ext);
  }

  lemma CutAlias(base: Name, ext: Name)
    requires base == [108, 111, 110, 103, 102, 105, 108, 101, 110, 97, 109, 101] && ext == [116, 120, 116]
    ensures Field(MapUpper(base)[..6] + [126] + [49], 8) + Field(MapUpper(ext), 3) == ALIAS && |MapUpper(base)| == 12
  {
    assert MapUpper(base)[..6] == [76, 79, 78, 71, 70, 73];
    assert MapUpper(ext) == [84, 88, 84];
  }

  lemma SlotByte(order: Byte, units: seq<Unit>, sum: Byte, k: nat)
    requires |units| == 13 && k < 32
    ensures LfnSlot(order, units, sum)[k] == LfnByte(order, units, sum, k)
  {
  }

  lemma SecondPieceBytes(units: seq<Unit>)
    requires units == [116, 120, 116, 0, 65535, 65535, 65535, 65535, 65535, 65535, 65535, 65535, 65535]
    ensures LfnByte(66, units, 0xD4, 0) == 0x42 && LfnByte(66, units, 0xD4, 1) == 0x74
    ensures LfnByte(66, units, 0xD4, 2) == 0x00 && LfnByte(66, units, 0xD4, 3) == 0x78
    ensures LfnByte(66, units, 0xD4, 4) == 0x00 && LfnByte(66, units, 0xD4, 5) == 0x74
    ensures LfnByte(66, units, 0xD4, 6) == 0x00 && LfnByte(66, units, 0xD4, 7) == 0x00
    ensures LfnByte(66, units, 0xD4, 8) == 0x00 && LfnByte(66, units, 0xD4, 9) == 0xFF
    ensures LfnByte(66, units, 0xD4, 10) == 0xFF && LfnByte(66, units, 0xD4, 11) == 0x0F
    ensures LfnByte(66, units, 0xD4, 12) == 0x00 && LfnByte(66, units, 0xD4, 13) == 0xD4
    ensures LfnByte(66, units, 0xD4, 14) == 0xFF && LfnByte(66, units, 0xD4, 15) == 0xFF
    ensures LfnByte(66, units, 0xD4, 16) == 0xFF && LfnByte(66, units, 0xD4, 17) == 0xFF
    ensures LfnByte(66, units, 0xD4, 18) == 0xFF && LfnByte(66, units, 0xD4, 19) == 0xFF
    ensures LfnByte(66, units, 0xD4, 20) == 0xFF && LfnByte(66, units, 0xD4, 21) == 0xFF
    ensures LfnByte(66, units, 0xD4, 22) == 0xFF && LfnByte(66, units, 0xD4, 23) == 0xFF
    ensures LfnByte(66, units, 0xD4, 24) == 0xFF && LfnByte(66, units, 0xD4, 25) == 0xFF
    ensures LfnByte(66, units, 0xD4, 26) == 0x00 && LfnByte(66, units, 0xD4, 27) == 0x00
    ensures LfnByte(66, units, 0xD4, 28) == 0xFF && LfnByte(66, units, 0xD4, 29) == 0xFF
    ensures LfnByte(66, units, 0xD4, 30) == 0xFF && LfnByte(66, units, 0xD4, 31) == 0xFF
  {
  }

  lemma SecondPiece(units: seq<Unit>)
    requires units == [116, 120, 116, 0, 65535, 65535, 65535, 65535, 65535, 65535, 65535, 65535, 65535]
    ensures IsSecondPiece(LfnSlot(66, units, 0xD4))
  {
    hide LfnSlot, LfnByte;
    SecondPieceBytes(units);
    SlotByte(66, units, 0xD4, 0); SlotByte(66, units, 0xD4, 1); SlotByte(66, units, 0xD4, 2);
      SlotByte(66, units, 0xD4, 3);
    SlotByte(66, units, 0xD4, 4); SlotByte(66, units, 0xD4, 5); SlotByte(66, units, 0xD4, 6);
      SlotByte(66, units, 0xD4, 7);
    SlotByte(66, units, 0xD4, 8); SlotByte(66, units, 0xD4, 9); SlotByte(66, units, 0xD4, 10);
      SlotByte(66, units, 0xD4, 11);
    SlotByte(66, units, 0xD4, 12); SlotByte(66, units, 0xD4, 13); SlotByte(66, units, 0xD4, 14);
      SlotByte(66, units, 0xD4, 15);
    SlotByte(66, units, 0xD4, 16); SlotByte(66, units, 0xD4, 17); SlotByte(66, units, 0xD4, 18);
      SlotByte(66, units, 0xD4, 19);
    SlotByte(66, units, 0xD4, 20); SlotByte(66, units, 0xD4, 21); SlotByte(66, units, 0xD4, 22);
      SlotByte(66, units, 0xD4, 23);
    SlotByte(66, units, 0xD4, 24); SlotByte(66, units, 0xD4, 25); SlotByte(66, units, 0xD4, 26);
      SlotByte(66, units, 0xD4, 27);
    SlotByte(66, units, 0xD4, 28); SlotByte(66, units, 0xD4, 29); SlotByte(66, units, 0xD4, 30);
      SlotByte(66, units, 0xD4, 31);
  }

  lemma FirstPieceBytes(units: seq<Unit>)
    requires units == [108, 111, 110, 103, 102, 105, 108, 101, 110, 97, 109, 101, 46]
    ensures LfnByte(1, units, 0xD4, 0) == 0x01 && LfnByte(1, units, 0xD4, 1) == 0x6C
    ensures LfnByte(1, units, 0xD4, 2) == 0x00 && LfnByte(1, units, 0xD4, 3) == 0x6F
    ensures LfnByte(1, units, 0xD4, 4) == 0x00 && LfnByte(1, units, 0xD4, 5) == 0x6E
    ensures LfnByte(1, units, 0xD4, 6) == 0x00 && LfnByte(1, units, 0xD4, 7) == 0x67
    ensures LfnByte(1, units, 0xD4, 8) == 0x00 && LfnByte(1, units, 0xD4, 9) == 0x66
    ensures LfnByte(1, units, 0xD4, 10) == 0x00 && LfnByte(1, units, 0xD4, 11) == 0x0F
    ensures LfnByte(1, units, 0xD4, 12) == 0x00 && LfnByte(1, units, 0xD4, 13) == 0xD4
    ensures LfnByte(1, units, 0xD4, 14) == 0x69 && LfnByte(1, units, 0xD4, 15) == 0x00
    ensures LfnByte(1, units, 0xD4, 16) == 0x6C && LfnByte(1, units, 0xD4, 17) == 0x00
    ensures LfnByte(1, units, 0xD4, 18) == 0x65 && LfnByte(1, units, 0xD4, 19) == 0x00
    ensures LfnByte(1, units, 0xD4, 20) == 0x6E && LfnByte(1, units, 0xD4, 21) == 0x00
    ensures LfnByte(1, units, 0xD4, 22) == 0x61 && LfnByte(1, units, 0xD4, 23) == 0x00
    ensures LfnByte(1, units, 0xD4, 24) == 0x6D && LfnByte(1, units, 0xD4, 25) == 0x00
    ensures LfnByte(1, units, 0xD4, 26) == 0x00 && LfnByte(1, units, 0xD4, 27) == 0x00
    ensures LfnByte(1, units, 0xD4, 28) == 0x65 && LfnByte(1, units, 0xD4, 29) == 0x00
    ensures LfnByte(1, units, 0xD4, 30) == 0x2E && LfnByte(1, units, 0xD4, 31) == 0x00
  {
  }

  lemma FirstPiece(units: seq<Unit>)
    requires units == [108, 111, 110, 103, 102, 105, 108, 101, 110, 97, 109, 101, 46]
    ensures IsFirstPiece(LfnSlot(1, units, 0xD4))
  {
    hide LfnSlot, LfnByte;
    FirstPieceBytes(units);
    SlotByte(1, units, 0xD4, 0); SlotByte(1, units, 0xD4, 1); SlotByte(1, units, 0xD4, 2); SlotByte(1, units, 0xD4, 3);
    SlotByte(1, units, 0xD4, 4); SlotByte(1, units, 0xD4, 5); SlotByte(1, units, 0xD4, 6); SlotByte(1, units, 0xD4, 7);
    SlotByte(1, units, 0xD4, 8); SlotByte(1, units, 0xD4, 9); SlotByte(1, units, 0xD4, 10);
      SlotByte(1, units, 0xD4, 11);
    SlotByte(1, units, 0xD4, 12); SlotByte(1, units, 0xD4, 13); SlotByte(1, units, 0xD4, 14);
      SlotByte(1, units, 0xD4, 15);
    SlotByte(1, units, 0xD4, 16); SlotByte(1, units, 0xD4, 17); SlotByte(1, units, 0xD4, 18);
      SlotByte(1, units, 0xD4, 19);
    SlotByte(1, units, 0xD4, 20); SlotByte(1, units, 0xD4, 21); SlotByte(1, units, 0xD4, 22);
      SlotByte(1, units, 0xD4, 23);
    SlotByte(1, units, 0xD4, 24); SlotByte(1, units, 0xD4, 25); SlotByte(1, units, 0xD4, 26);
      SlotByte(1, units, 0xD4, 27);
    SlotByte(1, units, 0xD4, 28); SlotByte(1, units, 0xD4, 29); SlotByte(1, units, 0xD4, 30);
      SlotByte(1, units, 0xD4, 31);
  }

  lemma SameUnits(a: seq<Unit>, b: seq<Unit>)
    requires |a| == |b| == 13
    requires a[0] == b[0] && a[1] == b[1] && a[2] == b[2] && a[3] == b[3] && a[4] == b[4] && a[5] == b[5]
    requires a[6] == b[6] && a[7] == b[7] && a[8] == b[8] && a[9] == b[9] && a[10] == b[10] && a[11] == b[11]
             && a[12] == b[12]
    ensures a == b
  {
  }

  lemma UnitAtPlace(k: nat, i: nat)
    requires i < 13
    ensures Piece(NAME, k)[i] == Padded(NAME, 13 * k + i)
  {
  }

  lemma FirstUnits(units: seq<Unit>)
    requires units == [108, 111, 110, 103, 102, 105, 108, 101, 110, 97, 109, 101, 46]
    ensures Piece(NAME, 0) == units
  {
    hide Piece;
    UnitAtPlace(0, 0); UnitAtPlace(0, 1); UnitAtPlace(0, 2); UnitAtPlace(0, 3); UnitAtPlace(0, 4);
    UnitAtPlace(0, 5); UnitAtPlace(0, 6); UnitAtPlace(0, 7); UnitAtPlace(0, 8); UnitAtPlace(0, 9);
    UnitAtPlace(0, 10); UnitAtPlace(0, 11); UnitAtPlace(0, 12);
    SameUnits(Piece(NAME, 0), units);
  }

  lemma SecondUnits(units: seq<Unit>)
    requires units == [116, 120, 116, 0, 65535, 65535, 65535, 65535, 65535, 65535, 65535, 65535, 65535]
    ensures Piece(NAME, 1) == units
  {
    hide Piece;
    UnitAtPlace(1, 0); UnitAtPlace(1, 1); UnitAtPlace(1, 2); UnitAtPlace(1, 3); UnitAtPlace(1, 4);
    UnitAtPlace(1, 5); UnitAtPlace(1, 6); UnitAtPlace(1, 7); UnitAtPlace(1, 8); UnitAtPlace(1, 9);
    UnitAtPlace(1, 10); UnitAtPlace(1, 11); UnitAtPlace(1, 12);
    SameUnits(Piece(NAME, 1), units);
  }

  lemma PieceVectors()
    ensures Pieces(NAME) == 2 && |LfnSlots(NAME, 0xD4)| == 2
    ensures IsSecondPiece(LfnSlots(NAME, 0xD4)[0]) && IsFirstPiece(LfnSlots(NAME, 0xD4)[1])
  {
    hide Piece, LfnSlot, IsFirstPiece, IsSecondPiece;
    var first: seq<Unit> := [108, 111, 110, 103, 102, 105, 108, 101, 110, 97, 109, 101, 46];
    var second: seq<Unit> := [116, 120, 116, 0, 65535, 65535, 65535, 65535, 65535, 65535, 65535, 65535, 65535];
    FirstUnits(first);
    SecondUnits(second);
    FirstPiece(first);
    SecondPiece(second);
    assert Order(NAME, 0) == 1 && Order(NAME, 1) == 0x42;
    var slots := LfnSlots(NAME, 0xD4);
    assert slots[0] == PieceSlot(NAME, 0xD4, 1) == LfnSlot(0x42, second, 0xD4);
    assert slots[1] == PieceSlot(NAME, 0xD4, 0) == LfnSlot(1, first, 0xD4);
  }

  lemma ShortAt(k: nat)
    requires k < 32
    ensures ShortSlot(ALIAS, 0, 0x123456, 0x789ABCDE)[k] == ShortByte(ALIAS, 0, 0x123456, 0x789ABCDE, k)
  {
  }

  lemma ShortVector()
    ensures IsShortSlot(ShortSlot(ALIAS, 0, 0x123456, 0x789ABCDE))
  {
    hide ShortSlot;
    ShortAt(0); ShortAt(1); ShortAt(2); ShortAt(3); ShortAt(4); ShortAt(5); ShortAt(6); ShortAt(7);
    ShortAt(8); ShortAt(9); ShortAt(10); ShortAt(11); ShortAt(12); ShortAt(13); ShortAt(14); ShortAt(15);
    ShortAt(16); ShortAt(17); ShortAt(18); ShortAt(19); ShortAt(20); ShortAt(21); ShortAt(22); ShortAt(23);
    ShortAt(24); ShortAt(25); ShortAt(26); ShortAt(27); ShortAt(28); ShortAt(29); ShortAt(30); ShortAt(31);
  }

  /** What the driver writes for that file, byte by byte. */
  lemma WrittenVector()
    ensures var news := EntryFor(NAME, ALIAS, 0x123456, 0x789ABCDE);
            |news| == 3 && IsSecondPiece(news[0]) && IsFirstPiece(news[1]) && IsShortSlot(news[2])
  {
    hide LfnSlots, Checksum, ShortSlot, ValidSfn, RotateSum, Alias, IsFirstPiece, IsSecondPiece, IsShortSlot;
    AliasVector();
    SumVector();
    ShortVector();
    PieceVectors();
    ChecksumIsRotateSum(ALIAS);
    AliasStays(ShortSlot(ALIAS, 0, 0x123456, 0x789ABCDE));
  }

  lemma AliasStays(s: Slot)
    requires IsShortSlot(s)
    ensures s[..11] == ALIAS
  {
  }

  lemma SameSecond(a: Slot, b: Slot)
    requires IsSecondPiece(a) && IsSecondPiece(b)
    ensures a == b
  {
  }

  lemma SameFirst(a: Slot, b: Slot)
    requires IsFirstPiece(a) && IsFirstPiece(b)
    ensures a == b
  {
  }

  lemma SameShort(a: Slot, b: Slot)
    requires IsShortSlot(a) && IsShortSlot(b)
    ensures a == b
  {
  }

  /** And what the scan reads from those bytes, whoever wrote them. */
  lemma ReadVector(slots: seq<Slot>)
    requires |slots| == 3 && IsSecondPiece(slots[0]) && IsFirstPiece(slots[1]) && IsShortSlot(slots[2])
    ensures Scan(slots, 0, []) == [Entry(NAME, slots[2], 2, [0, 1])]
    ensures FirstOfSlot(slots[2]) == 0x123456 && SizeOfSlot(slots[2]) == 0x789ABCDE && !IsDir(slots[2])
  {
    hide Scan, EntryFor, ShortSlot, IsFirstPiece, IsSecondPiece, IsShortSlot, FirstOfSlot, SizeOfSlot;
    WrittenVector();
    var news := EntryFor(NAME, ALIAS, 0x123456, 0x789ABCDE);
    SameSecond(slots[0], news[0]);
    SameFirst(slots[1], news[1]);
    SameShort(slots[2], news[2]);
    assert slots == news;
    WrittenIsRead();
  }

  lemma WrittenIsRead()
    ensures var news := EntryFor(NAME, ALIAS, 0x123456, 0x789ABCDE);
            && |news| == 3 && Scan(news, 0, []) == [Entry(NAME, news[2], 2, [0, 1])]
            && FirstOfSlot(news[2]) == 0x123456 && SizeOfSlot(news[2]) == 0x789ABCDE && !IsDir(news[2])
  {
    hide Scan, NameOf, ShortSlot, LfnSlots, EntrySlots, IsShort, LongAscii, ValidSfn, Checksum, FirstOfSlot, SizeOfSlot,
         IsShortSlot, IsFirstPiece, IsSecondPiece, Alias;
    AliasVector();
    WrittenVector();
    ShortSlotFields(ALIAS, 0, 0x123456, 0x789ABCDE);
    NameIsAscii();
    var short := ShortSlot(ALIAS, 0, 0x123456, 0x789ABCDE);
    var news := NewSlots(NAME, short);
    NewSlotsDecode(NAME, short, 0);
    assert news[0..|news|] == news;
    ScanNew(news, 0, news);
    EndOfScan(news);
    assert Upto(0, 2) == [0, 1];
  }

  lemma EndOfScan(slots: seq<Slot>)
    ensures Scan(slots, |slots|, []) == []
  {
  }

  lemma NameIsAscii()
    ensures LongAscii(NAME)
  {
  }
}
