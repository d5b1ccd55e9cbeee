/** Where things are on the device, byte by byte, and which cluster comes next. */
module FatLayout {
  import opened Bytes
  import opened FatModel
  import opened FatDisk
  import opened FatNames
  import opened FatCreate

  // -------------------------------------------------------------------- words

  /** A table entry is the low 28 bits of four bytes, lowest first. */
  lemma EntryBytes(s: Sector, i: nat)
    requires i < 128
    ensures var (a: nat, b: nat, c: nat, d: nat) := (s[4 * i], s[4 * i + 1], s[4 * i + 2], s[4 * i + 3]);
            EntryIn(s, i) == a + 0x100 * b + 0x1_0000 * c + 0x100_0000 * (d % 16)
  {
    var (a: nat, b: nat, c: nat, d: nat) := (s[4 * i], s[4 * i + 1], s[4 * i + 2], s[4 * i + 3]);
    var low := a + 0x100 * b + 0x1_0000 * c;
    assert Word(s, 4 * i) == low + 0x100_0000 * d;
    TopNibble(low, d);
  }

  lemma TopNibble(low: nat, d: nat)
    requires low < 0x100_0000
    ensures (low + 0x100_0000 * d) % 0x1000_0000 == low + 0x100_0000 * (d % 16)
  {
    var q := d / 16;
    assert d == 16 * q + d % 16;
    assert low + 0x100_0000 * d == 0x1000_0000 * q + (low + 0x100_0000 * (d % 16));
  }

  /** The four bytes of a table entry as written: 28 bits, lowest byte first, the top nibble as it was. */
  lemma PutEntryBytes(s: Sector, i: nat, value: nat)
    requires i < 128 && value < LOW28
    ensures var r := PutEntry(s, i, value);
            && r[4 * i] == value % 0x100 && r[4 * i + 1] == value / 0x100 % 0x100
            && r[4 * i + 2] == value / 0x1_0000 % 0x100
            && r[4 * i + 3] == s[4 * i + 3] / 16 * 16 + value / 0x100_0000
            && forall k :: 0 <= k < 512 && !(4 * i <= k < 4 * i + 4) ==> r[k] == s[k]
  {
    var w := Word(s, 4 * i) / LOW28 * LOW28 + value;
    WordTop(s, i);
    var d: nat := s[4 * i + 3];
    assert w == d / 16 * LOW28 + value;
    Quarters(d / 16, value);
  }

  lemma WordTop(s: Sector, i: nat)
    requires i < 128
    ensures Word(s, 4 * i) / 0x1000_0000 == s[4 * i + 3] / 16
  {
    var (a: nat, b: nat, c: nat, d: nat) := (s[4 * i], s[4 * i + 1], s[4 * i + 2], s[4 * i + 3]);
    assert Word(s, 4 * i) == a + 0x100 * b + 0x1_0000 * c + 0x100_0000 * (d % 16) + 0x1000_0000 * (d / 16);
  }

  lemma Quarters(top: nat, value: nat)
    requires top < 16 && value < 0x1000_0000
    ensures var w := top * 0x1000_0000 + value;
            && w % 256 == value % 0x100 && w / 256 % 256 == value / 0x100 % 0x100
            && w / 256 / 256 % 256 == value / 0x1_0000 % 0x100
            && w / 256 / 256 / 256 == top * 16 + value / 0x100_0000
  {
    var a := value / 256;
    var b := a / 256;
    assert value / 0x1_0000 == b && value / 0x100_0000 == b / 256;
    var w := top * 0x1000_0000 + value;
    assert w / 256 == top * 0x10_0000 + a;
    assert w / 256 / 256 == top * 0x1000 + b;
  }

  // ------------------------------------------------------------------- places

  /** The entry of cluster c in a copy is at four times c behind the start of that copy. */
  lemma FatPlace(g: Geometry, copy: nat, c: nat)
    ensures FatLba(g, copy, c / 128) * 512 + 4 * (c % 128) == (g.start + g.reserved + copy * g.spf) * 512 + 4 * c
  {
  }

  /** Cluster 2 is the first of the data region, and each cluster follows the one before. */
  lemma ClusterPlace(g: Geometry, c: nat)
    requires c >= 2
    ensures ClusterLba(g, 2) == g.start + g.firstData && ClusterLba(g, c + 1) == ClusterLba(g, c) + g.spc
  {
    assert (c + 1 - 2) * g.spc == (c - 2) * g.spc + g.spc;
  }

  /** The FSInfo sector: signatures RRaA, rrAa and 55 AA, then count and hint, lowest byte first. */
  lemma InfoBytes(freeCount: nat, hint: nat)
    requires freeCount < U32 && hint < U32
    ensures var s := FsInfoSector(freeCount, hint);
            && s[0] == 0x52 && s[1] == 0x52 && s[2] == 0x61 && s[3] == 0x41
            && s[484] == 0x72 && s[485] == 0x72 && s[486] == 0x41 && s[487] == 0x61
            && s[508] == 0 && s[509] == 0 && s[510] == 0x55 && s[511] == 0xAA
            && s[488] == freeCount % 256 && s[491] == freeCount / 0x100_0000
            && s[492] == hint % 256 && s[495] == hint / 0x100_0000
            && forall k :: 4 <= k < 484 || 496 <= k < 508 ==> s[k] == 0
  {
    TopByte(freeCount);
    TopByte(hint);
  }

  lemma TopByte(w: nat)
    ensures w / 256 / 256 / 256 == w / 0x100_0000
  {
  }

  // ---------------------------------------------------------------- allocation

  /** Links from 2 on lead to clusters, and every value from 0x0FFFFFF8 on ends a chain. */
  lemma EndMarks(c: nat)
    ensures IsDataCluster(c) <==> 2 <= c <= 0x0FFF_FFF7
  {
  }

  /**
   The next cluster is the first free one from the hint on, or else the first free one at all; the
   hint moves behind it, and back to the start after the last cluster.
   */
  lemma FirstFromHint(v: Vol, c: nat)
    requires Shape(v) && 2 <= v.hint <= v.max && Allocate(v).1 == c && c != 0
    ensures 2 <= c <= v.max && v.fat[c] == 0
    ensures c >= v.hint ==> forall i :: v.hint <= i < c ==> v.fat[i] != 0
    ensures c < v.hint ==>
              (forall i :: v.hint <= i <= v.max ==> v.fat[i] != 0) && (forall i :: 2 <= i < c ==> v.fat[i] != 0)
    ensures Allocate(v).0.hint == if c == v.max then 2 else c + 1
    ensures Allocate(v).0.fat == v.fat[c := 0x0FFF_FFF8] && Allocate(v).0.data == v.data
  {
  }

  /** A hint outside the clusters means the start; and freeing moves the hint down to the chain, never up. */
  lemma HintMoves(v: Vol, first: nat)
    requires Shape(v)
    ensures v.hint < 2 || v.hint > v.max ==> Allocate(v).1 == Allocate(v.(hint := 2)).1
    ensures IsDataCluster(first) && FreeChain(v, first).1 ==>
              FreeChain(v, first).0.hint == if v.hint == 0xFFFF_FFFF || first < v.hint then first else v.hint
  {
    hide FreeWalk;
  }

  // ---------------------------------------------------------------- characters

  /** The characters of an 8.3 name. */
  lemma SfnCharacters(c: Byte)
    ensures var ch := c as char;
            IsSfnChar(c) <==>
              'A' <= ch <= 'Z' || 'a' <= ch <= 'z' || '0' <= ch <= '9' || ch in "$%'-_@~!()^#&"
  {
  }

  /** The characters an alias keeps. */
  lemma AliasCharacters(c: Byte)
    ensures var ch := c as char;
            IsAliasChar(c) <==> 'A' <= ch <= 'Z' || '0' <= ch <= '9' || ch in "_$-~"
  {
  }

  /** Each place of an alias: what fits of the base, the tilde, the number, spaces, and three places of extension. */
  lemma AliasPlaces(name: Name, u: nat, k: nat)
    requires 1 <= u < 1000 && k < 11
    ensures var base, ext, digits := AliasBase(name), Sanitize(Ext(name), 16), Digits(u);
            var fits := 7 - |digits|;
            var n := if |base| < fits then |base| else fits;
            Alias(name, u)[k] as char ==
            if k < n then base[k] as char
            else if k == n then '~'
            else if k <= n + |digits| then digits[k - n - 1] as char
            else if 8 <= k < 8 + |ext| then ext[k - 8] as char
            else ' '
  {
    hide Sanitize, Base, Ext, Digits, AliasBase;
    var base, ext, digits := AliasBase(name), Sanitize(Ext(name), 16), Digits(u);
    var n := if |base| < 7 - |digits| then |base| else 7 - |digits|;
    var front := base[..n] + [126] + digits;
    assert Alias(name, u) == Field(front, 8) + Field(ext, 3);
    assert |front| == n + 1 + |digits| <= 8;
  }

  /** A base name without any character to keep gives aliases of FILE. */
  lemma NamelessAlias(name: Name)
    requires forall i :: 0 <= i < |Base(name)| ==> Base(name)[i] as char in " ."
    ensures AliasBase(name) == ['F' as nat, 'I' as nat, 'L' as nat, 'E' as nat]
  {
    hide Base;
    AllSkipped(Base(name), 64);
  }

  lemma {:induction false} AllSkipped(s: Name, room: nat)
    requires forall i :: 0 <= i < |s| ==> s[i] as char in " ."
    ensures Sanitize(s, room) == []
  {
    if s != [] {
      assert s[0] == SPACE || s[0] == DOT;
      AllSkipped(s[1..], room);
    }
  }

  // ---------------------------------------------------------------------- slots

  /** Rewriting a file: the bytes of its slot that change, and the value of each. */
  lemma UpdatedBytes(s: Slot, caseInfo: Byte, first: nat, size: nat, k: nat)
    requires first < 0x1_0000_0000 && k < 32
    ensures var r := UpdatedSlot(s, caseInfo, first, size);
            && (k !in {11, 12, 13, 20, 21, 26, 27, 28, 29, 30, 31} ==> r[k] == s[k])
            && r[12] == caseInfo && r[13] == 0
            && r[26] as int + 0x100 * r[27] as int + 0x1_0000 * r[20] as int + 0x100_0000 * r[21] as int == first
            && r[28] as int + 0x100 * r[29] as int + 0x1_0000 * r[30] as int + 0x100_0000 * r[31] as int
            == size % 0x1_0000_0000
  {
    hide ByteOf, UpdatedAttr;
    FourBytes(first);
    FourBytes(size);
  }

  lemma FourBytes(x: nat)
    ensures ByteOf(x, 0) as int + 0x100 * ByteOf(x, 1) as int + 0x1_0000 * ByteOf(x, 2) as int
            + 0x100_0000 * ByteOf(x, 3) as int == x % 0x1_0000_0000
  {
    Assembled(x);
  }

  /** The attributes of a rewritten file, bit by bit: archive set, directory and label cleared, the others kept. */
  lemma UpdatedAttributes(b7: nat, b6: nat, archive: nat, directory: nat, volume: nat, b2: nat, b1: nat, b0: nat)
    requires b7 < 2 && b6 < 2 && archive < 2 && directory < 2 && volume < 2 && b2 < 2 && b1 < 2 && b0 < 2
    ensures UpdatedAttr(128 * b7 + 64 * b6 + 32 * archive + 16 * directory + 8 * volume + 4 * b2 + 2 * b1 + b0)
         == 128 * b7 + 64 * b6 + 32 + 4 * b2 + 2 * b1 + b0
  {
    Parted(2 * b7 + b6, 4 * archive + 2 * directory + volume, 4 * b2 + 2 * b1 + b0);
  }

  lemma Parted(high: nat, mid: nat, low: nat)
    requires high < 4 && mid < 8 && low < 8
    ensures UpdatedAttr(64 * high + 8 * mid + low) == 64 * high + 32 + low
  {
    assert (64 * high + 8 * mid + low) / 64 == high;
  }

  /** A failed rewrite clears start and size and nothing else. */
  lemma EmptiedBytes(s: Slot, k: nat)
    requires k < 32
    ensures EmptiedSlot(s)[k] == if k in {20, 21, 26, 27, 28, 29, 30, 31} then 0 else s[k]
  {
  }
}
