/**
 * The root-directory scan of main.cpp: each 32-byte slot is decoded into a
 * file entry (name, extension, attribute flags, creation time and date,
 * size, first cluster and, for archive files, the content read from the
 * data area), skipping free (0x00) and deleted (0xE5) slots.
 */
module FatDirectory {
  import opened Wrappers
  import opened FatRead
  import opened FatGeometry

  /** The five attribute flags main.cpp tests, one bit each of the byte at 0x0B. */
  datatype Attributes = Attributes(readOnly: bool, hidden: bool, system: bool,
                                   subdirectory: bool, archive: bool)

  /** The masks 0x01, 0x02, 0x04, 0x10, 0x20 applied to the attribute byte. */
  function DecodeAttributes(a: byte): (r: Attributes)
    ensures a == 0 ==> r == Attributes(false, false, false, false, false)
  {
    Attributes(a & 0x01 != 0, a & 0x02 != 0, a & 0x04 != 0, a & 0x10 != 0, a & 0x20 != 0)
  }

  /** The bit of weight `weight` (a power of two) in a byte, computed arithmetically rather than by masking. */
  function BitOfWeight(a: byte, weight: nat): bool
    requires weight > 0
  {
    (a as int / weight) % 2 == 1
  }

  /** Each flag is the arithmetic bit of its position: bits 0, 1, 2, 4 and 5. */
  lemma AttributesAreBits(a: byte)
    ensures DecodeAttributes(a) == Attributes(BitOfWeight(a, 1), BitOfWeight(a, 2),
      BitOfWeight(a, 4), BitOfWeight(a, 16), BitOfWeight(a, 32))
  {
    MaskBit0(a);
    MaskBit1(a);
    MaskBit2(a);
    MaskBit4(a);
    MaskBit5(a);
  }

  lemma MaskBit0(a: byte) ensures (a & 0x01 != 0) == BitOfWeight(a, 1) {}
  lemma MaskBit1(a: byte) ensures (a & 0x02 != 0) == BitOfWeight(a, 2) {}
  lemma MaskBit2(a: byte) ensures (a & 0x04 != 0) == BitOfWeight(a, 4) {}
  lemma MaskBit4(a: byte) ensures (a & 0x10 != 0) == BitOfWeight(a, 16) {}
  lemma MaskBit5(a: byte) ensures (a & 0x20 != 0) == BitOfWeight(a, 32) {}

  /** Attribute byte 0x21 is a read-only archive. */
  lemma ReadOnlyArchiveExample()
    ensures DecodeAttributes(0x21) == Attributes(true, false, false, false, true)
  {
  }

  /** A creation time as main.cpp prints it. */
  datatype Time = Time(hours: nat, minutes: nat, seconds: nat, milliseconds: nat)

  /** A creation date as main.cpp prints it. */
  datatype Date = Date(day: nat, month: nat, year: nat)

  /**
   * One carry of the sub-second count into the seconds: 1000 ms or more
   * become one more second and 1000 ms less, once.
   */
  function CarryMillis(seconds: nat, milliseconds: nat): (r: (nat, nat))
    ensures r.0 * 1000 + r.1 == seconds * 1000 + milliseconds
    ensures r.1 < 1000 <==> milliseconds < 2000
    ensures r.0 <= seconds + 1
  {
    if milliseconds >= 1000 then (seconds + 1, milliseconds - 1000) else (seconds, milliseconds)
  }

  /** Bits 11-15 of a time word. */
  function HoursField(word: bv16): (n: nat)
    ensures n < 32
  {
    (word >> 11) as nat
  }

  /** Bits 5-10 of a time word. */
  function MinutesField(word: bv16): (n: nat)
    ensures n < 64
  {
    ((word >> 5) & 0x3F) as nat
  }

  /** Bits 0-4 of a time word, in units of two seconds. */
  function HalfSecondsField(word: bv16): (n: nat)
    ensures n < 32
  {
    (word & 0x1F) as nat
  }

  /**
   * The creation time of main.cpp: hours in bits 11-15, minutes in bits
   * 5-10, two-second units in bits 0-4, and 10 ms units in a separate byte.
   */
  function DecodeTime(word: bv16, subsecond: byte): (t: Time)
    ensures t.hours < 32 && t.minutes < 64 && t.seconds <= 63
    ensures t.seconds * 1000 + t.milliseconds == HalfSecondsField(word) * 2000 + subsecond as nat * 10
    ensures t.milliseconds < 1000 <==> subsecond < 200
  {
    var carried := CarryMillis(HalfSecondsField(word) * 2, subsecond as nat * 10);
    Time(HoursField(word), MinutesField(word), carried.0, carried.1)
  }

  /** The creation date of main.cpp: day in bits 0-4, month in bits 5-8, years since 1980 in bits 9-15. */
  function DecodeDate(word: bv16): (d: Date)
    ensures d.day < 32 && d.month < 16 && 1980 <= d.year <= 1980 + 127
  {
    Date((word & 0x1F) as nat, ((word >> 5) & 0x0F) as nat, ((word >> 9) & 0x7F) as nat + 1980)
  }

  /** The word a FAT writer stores for a time of day (seconds in two-second units). */
  function PackTime(hours: bv16, minutes: bv16, halfSeconds: bv16): bv16
  {
    (hours << 11) | (minutes << 5) | halfSeconds
  }

  /** The word a FAT writer stores for a date (years counted from 1980). */
  function PackDate(day: bv16, month: bv16, yearsSince1980: bv16): bv16
  {
    (yearsSince1980 << 9) | (month << 5) | day
  }

  lemma UnpackTimeFields(h: bv16, m: bv16, s2: bv16)
    requires h < 32 && m < 64 && s2 < 32
    ensures PackTime(h, m, s2) >> 11 == h
    ensures (PackTime(h, m, s2) >> 5) & 0x3F == m
    ensures PackTime(h, m, s2) & 0x1F == s2
  {
  }

  lemma RepackTimeFields(w: bv16)
    ensures PackTime(w >> 11, (w >> 5) & 0x3F, w & 0x1F) == w
  {
  }

  lemma UnpackDateFields(d: bv16, m: bv16, y: bv16)
    requires d < 32 && m < 16 && y < 128
    ensures PackDate(d, m, y) & 0x1F == d
    ensures (PackDate(d, m, y) >> 5) & 0x0F == m
    ensures (PackDate(d, m, y) >> 9) & 0x7F == y
  {
  }

  lemma RepackDateFields(w: bv16)
    ensures PackDate(w & 0x1F, (w >> 5) & 0x0F, (w >> 9) & 0x7F) == w
  {
  }

  /** Decoding a packed time gives back the hours, minutes and (even) seconds that were packed. */
  lemma TimeRoundTrip(h: bv16, m: bv16, s2: bv16)
    requires h < 32 && m < 64 && s2 < 32
    ensures DecodeTime(PackTime(h, m, s2), 0) == Time(h as nat, m as nat, 2 * s2 as nat, 0)
  {
    UnpackTimeFields(h, m, s2);
  }

  /** Decoding a packed date gives back the day, the month and the year counted from 1980. */
  lemma DateRoundTrip(d: bv16, m: bv16, y: bv16)
    requires d < 32 && m < 16 && y < 128
    ensures DecodeDate(PackDate(d, m, y)) == Date(d as nat, m as nat, y as nat + 1980)
  {
    UnpackDateFields(d, m, y);
  }

  /** Every bit of the time word is used: different words decode to different times. */
  lemma DecodeTimeInjective(w1: bv16, w2: bv16, subsecond: byte)
    requires DecodeTime(w1, subsecond) == DecodeTime(w2, subsecond)
    ensures w1 == w2
  {
    var t1, t2 := DecodeTime(w1, subsecond), DecodeTime(w2, subsecond);
    assert HalfSecondsField(w1) == HalfSecondsField(w2);
    WordFromNat(w1 >> 11, w2 >> 11);
    WordFromNat((w1 >> 5) & 0x3F, (w2 >> 5) & 0x3F);
    WordFromNat(w1 & 0x1F, w2 & 0x1F);
    RepackTimeFields(w1);
    RepackTimeFields(w2);
  }

  /** Two small words with the same numeric value are the same word (passing through bytes). */
  lemma WordFromNat(x: bv16, y: bv16)
    requires x < 256 && y < 256 && x as nat == y as nat
    ensures x == y
  {
    NarrowWord(x);
    NarrowWord(y);
    ByteWidening(x as byte);
    ByteWidening(y as byte);
    ByteFromNat(x as byte, y as byte);
  }

  lemma NarrowWord(x: bv16)
    requires x < 256
    ensures (x as byte) as bv16 == x
  {
  }

  lemma ByteFromNat(x: byte, y: byte)
    requires x as nat == y as nat
    ensures x == y
  {
  }

  /** Every bit of the date word is used: different words decode to different dates. */
  lemma DecodeDateInjective(w1: bv16, w2: bv16)
    requires DecodeDate(w1) == DecodeDate(w2)
    ensures w1 == w2
  {
    WordFromNat(w1 & 0x1F, w2 & 0x1F);
    WordFromNat((w1 >> 5) & 0x0F, (w2 >> 5) & 0x0F);
    WordFromNat((w1 >> 9) & 0x7F, (w2 >> 9) & 0x7F);
    RepackDateFields(w1);
    RepackDateFields(w2);
  }

  /** 0x6B4F is 13:26:30; a sub-second byte of 150 adds 1500 ms, carried as one second and 500 ms. */
  lemma TimeExample()
    ensures DecodeTime(0x6B4F, 0) == Time(13, 26, 30, 0)
    ensures DecodeTime(0x6B4F, 150) == Time(13, 26, 31, 500)
  {
  }

  /** A sub-second byte of 250 is carried once only: 2500 ms become one second and 1500 ms. */
  lemma CarryAppliedOnce()
    ensures DecodeTime(0, 250) == Time(0, 0, 1, 1500)
  {
  }

  /** 0x3CCF is 15 June 2010. */
  lemma DateExample()
    ensures DecodeDate(0x3CCF) == Date(15, 6, 2010)
  {
  }

  /**
   * Where main.cpp reads an archive file's content:
   * dataStart + (firstCluster - 2) * bytesPerCluster in `unsigned long`
   * arithmetic, so clusters 0 and 1 wrap around 2^64.
   */
  function ContentOffset(g: Geometry, firstCluster: nat): (pos: nat)
    ensures pos < UnsignedLongModulus
  {
    (g.dataStart + ((firstCluster - 2) % UnsignedLongModulus) * g.bytesPerCluster) % UnsignedLongModulus
  }

  /** From cluster 2 on, the offset is the start of that cluster in the data area, when it is addressable. */
  lemma ContentOffsetInDataArea(g: Geometry, firstCluster: nat)
    requires firstCluster >= 2
    requires g.dataStart + (firstCluster - 2) * g.bytesPerCluster < UnsignedLongModulus
    ensures ContentOffset(g, firstCluster) == g.dataStart + (firstCluster - 2) * g.bytesPerCluster
    ensures ContentOffset(g, firstCluster) >= g.dataStart
  {
    var k := firstCluster - 2;
    var product := k * g.bytesPerCluster;
    if g.bytesPerCluster > 0 {
      MulAtLeast(k, g.bytesPerCluster);
      SmallModulus(k, UnsignedLongModulus);
    } else {
      assert (k % UnsignedLongModulus) * g.bytesPerCluster == 0 == product;
    }
    SmallModulus(g.dataStart + product, UnsignedLongModulus);
  }

  lemma SmallModulus(x: int, m: nat)
    requires 0 <= x < m
    ensures x % m == x
  {
  }

  /**
   * Clusters 0 and 1 do not exist: the wrapped offset lands (2 - firstCluster)
   * clusters before the data area when there is room for that, and otherwise
   * wraps to within 2 clusters of 2^64; never at a real cluster.
   */
  lemma ContentOffsetBelowClusterTwo(g: Geometry, firstCluster: nat)
    requires firstCluster < 2 && 0 < g.bytesPerCluster
    requires g.dataStart < UnsignedLongModulus && 2 * g.bytesPerCluster < UnsignedLongModulus
    ensures (2 - firstCluster) * g.bytesPerCluster <= g.dataStart ==>
      ContentOffset(g, firstCluster) == g.dataStart - (2 - firstCluster) * g.bytesPerCluster
    ensures (2 - firstCluster) * g.bytesPerCluster > g.dataStart ==>
      ContentOffset(g, firstCluster) == UnsignedLongModulus + g.dataStart - (2 - firstCluster) * g.bytesPerCluster
    ensures var pos := ContentOffset(g, firstCluster);
      pos < g.dataStart || pos >= UnsignedLongModulus - 2 * g.bytesPerCluster
  {
    var M := UnsignedLongModulus;
    var back := (2 - firstCluster) * g.bytesPerCluster;
    assert (firstCluster - 2) % M == M - (2 - firstCluster);
    assert back <= 2 * g.bytesPerCluster;
    var sum := g.dataStart + (M - (2 - firstCluster)) * g.bytesPerCluster;
    assert sum == (g.dataStart - back) + M * g.bytesPerCluster;
    ModuloShift(g.dataStart - back, g.bytesPerCluster, M);
    if g.dataStart - back >= 0 {
      assert (g.dataStart - back) % M == g.dataStart - back;
    } else {
      assert (g.dataStart - back) % M == g.dataStart - back + M;
    }
  }

  /** On the floppy, first cluster 0 reads 1024 bytes before the data area, inside the root directory. */
  lemma ClusterZeroOnFloppy()
    ensures var g := DeriveGeometry(FloppyBootSector()).value;
      ContentOffset(g, 0) == 15872 && g.rootDirStart <= ContentOffset(g, 0) < g.dataStart
  {
    FloppyGeometry();
    var g := DeriveGeometry(FloppyBootSector()).value;
    ContentOffsetBelowClusterTwo(g, 0);
  }

  lemma ModuloShift(x: int, k: nat, m: nat)
    requires m > 0
    ensures (x + m * k) % m == x % m
  {
    var q, r := x / m, x % m;
    assert x + m * k == m * (q + k) + r;
    DivisionUnique(x + m * k, m, q + k, r);
  }

  lemma DivisionUnique(x: int, m: nat, q: int, r: int)
    requires m > 0 && x == m * q + r && 0 <= r < m
    ensures x % m == r
  {
    var q0, r0 := x / m, x % m;
    assert m * (q - q0) == r0 - r;
    if q > q0 {
      MulAtLeast(m, q - q0);
    } else if q < q0 {
      MulAtLeast(m, q0 - q);
    }
  }

  lemma MulAtLeast(m: nat, d: int)
    requires d >= 1
    ensures m * d >= m
  {
  }

  /** The bytes `fread` delivers for a request of `count` bytes at `pos`. */
  function BytesAt(disk: seq<byte>, pos: nat, count: nat): (bs: seq<byte>)
    ensures |bs| == Available(disk, pos, count)
    ensures forall i :: 0 <= i < |bs| ==> bs[i] == disk[pos + i]
  {
    var n := Available(disk, pos, count);
    if n == 0 then [] else disk[pos..pos + n]
  }

  /** An archive file's content: where main.cpp reads it and the bytes it gets there. */
  datatype Content = Content(offset: nat, bytes: seq<byte>)

  /** A directory entry as main.cpp decodes and prints it. */
  datatype DirEntry = DirEntry(
    name: seq<byte>,         // 8 raw bytes at 0x00, not trimmed
    extension: seq<byte>,    // 3 raw bytes at 0x08, not trimmed
    attributes: Attributes,  // byte at 0x0B
    created: Time,           // word at 0x0E, sub-second byte at 0x0D
    createdOn: Date,         // word at 0x10
    size: nat,               // 4 bytes at 0x1C
    firstCluster: nat,       // 2 bytes at 0x1A
    content: Option<Content> // archive files only
  )

  /** The size of a directory slot. */
  const SlotSize: nat := 32

  /** The offset of slot `f` of the root directory: rootDirStart + f * 32. */
  function SlotStart(g: Geometry, f: nat): nat
  {
    g.rootDirStart + f * SlotSize
  }

  /** Decodes the 32 bytes of the used slot starting at `start`. */
  function DecodeEntry(disk: seq<byte>, g: Geometry, start: nat): (e: DirEntry)
    requires InImage(disk, start, SlotSize)
    ensures e.name == disk[start..start + 8] && e.extension == disk[start + 8..start + 11]
    ensures e.attributes == DecodeAttributes(disk[start + 0x0B])
    ensures e.created == DecodeTime(Word(disk[start + 0x0E], disk[start + 0x0F]), disk[start + 0x0D])
    ensures e.createdOn == DecodeDate(Word(disk[start + 0x10], disk[start + 0x11]))
    ensures Some(e.size) == NumberAt(disk, start + 0x1C, 4) && e.size < 0x1_0000_0000
    ensures Some(e.firstCluster) == NumberAt(disk, start + 0x1A, 2) && e.firstCluster < 0x1_0000
    ensures e.content.Some? <==> e.attributes.archive
    ensures e.content.Some? ==> e.content.value.offset == ContentOffset(g, e.firstCluster)
    ensures e.content.Some? ==> |e.content.value.bytes| <= e.size
  {
    var attributes := DecodeAttributes(disk[start + 0x0B]);
    var created := DecodeTime(Word(disk[start + 0x0E], disk[start + 0x0F]), disk[start + 0x0D]);
    var createdOn := DecodeDate(Word(disk[start + 0x10], disk[start + 0x11]));
    var size := NumberAt(disk, start + 0x1C, 4).value;
    var cluster := NumberAt(disk, start + 0x1A, 2).value;
    var content :=
      if attributes.archive then
        var pos := ContentOffset(g, cluster);
        Some(Content(pos, BytesAt(disk, pos, size)))
      else None;
    DirEntry(disk[start..start + 8], disk[start + 8..start + 11], attributes, created,
             createdOn, size, cluster, content)
  }

  /** The time and date words are those read_number(…, 2) yields at 0x0E and 0x10. */
  lemma EntryWordsAsRead(disk: seq<byte>, start: nat)
    requires InImage(disk, start, SlotSize)
    ensures Some(Word(disk[start + 0x0E], disk[start + 0x0F]) as nat) == NumberAt(disk, start + 0x0E, 2)
    ensures Some(Word(disk[start + 0x10], disk[start + 0x11]) as nat) == NumberAt(disk, start + 0x10, 2)
    ensures Some(disk[start + 0x0D] as nat) == NumberAt(disk, start + 0x0D, 1)
  {
    WordValue(disk[start + 0x0E], disk[start + 0x0F]);
    WordValue(disk[start + 0x10], disk[start + 0x11]);
    WordReadersAgree(disk, start + 0x0E);
    WordReadersAgree(disk, start + 0x10);
    ByteField(disk, start + 0x0D);
  }

  /** What a root-directory slot holds, as main.cpp sees it. */
  datatype Slot =
    | Unreadable        // the image ends inside the slot
    | Free              // first name byte 0x00
    | Deleted           // first name byte 0xE5
    | Used(entry: DirEntry)

  /**
   * Classifies slot `f`: the name is read first and a first byte of 0x00 or
   * 0xE5 skips the slot; otherwise the remaining fields are decoded. A slot
   * the image does not fully hold has no entry.
   */
  function ClassifySlot(disk: seq<byte>, g: Geometry, f: nat): (s: Slot)
    ensures s == Free || s == Deleted ==> InImage(disk, SlotStart(g, f), 8)
    ensures s == Free <==> InImage(disk, SlotStart(g, f), 8) && disk[SlotStart(g, f)] == 0x00
    ensures s == Deleted <==> InImage(disk, SlotStart(g, f), 8) && disk[SlotStart(g, f)] == 0xE5
    ensures s.Used? ==> InImage(disk, SlotStart(g, f), SlotSize)
    ensures s.Used? ==> s.entry == DecodeEntry(disk, g, SlotStart(g, f))
    ensures s.Used? ==> s.entry.name[0] != 0x00 && s.entry.name[0] != 0xE5
  {
    var start := SlotStart(g, f);
    if !InImage(disk, start, 8) then Unreadable
    else if disk[start] == 0x00 then Free
    else if disk[start] == 0xE5 then Deleted
    else if !InImage(disk, start, SlotSize) then Unreadable
    else Used(DecodeEntry(disk, g, start))
  }

  /** The root-directory slots in order: element f is what slot f holds. */
  function Slots(disk: seq<byte>, g: Geometry): (ss: seq<Slot>)
    ensures |ss| == g.rootEntries
    ensures forall f :: 0 <= f < |ss| ==> ss[f] == ClassifySlot(disk, g, f)
  {
    seq(g.rootEntries, f requires 0 <= f => ClassifySlot(disk, g, f))
  }

  /** The entries one slot contributes: its entry when used, nothing otherwise. */
  function SlotEntries(slot: Slot): (es: seq<DirEntry>)
    ensures |es| <= 1 && (es != [] <==> slot.Used?)
  {
    if slot.Used? then [slot.entry] else []
  }

  /** The entries a run of slots lists when free and deleted slots are skipped, in slot order. */
  function Listed(ss: seq<Slot>): (es: seq<DirEntry>)
    ensures |es| <= |ss|
  {
    if ss == [] then [] else SlotEntries(ss[0]) + Listed(ss[1..])
  }

  /** The entries main.cpp lists: every slot index is visited, free and deleted slots contribute nothing. */
  function RootDirectory(disk: seq<byte>, g: Geometry): (es: seq<DirEntry>)
    ensures |es| <= g.rootEntries
  {
    Listed(Slots(disk, g))
  }

  /** What the slots from `f` on list is what slot f lists followed by what the slots after it list. */
  lemma ListedStep(ss: seq<Slot>, f: nat)
    requires f < |ss|
    ensures Listed(ss[f..]) == SlotEntries(ss[f]) + Listed(ss[f + 1..])
  {
    assert ss[f..][1..] == ss[f + 1..];
  }

  /** Listing a slot's entries, then the rest, is appending the slot's entry (if any) to what is listed so far. */
  lemma ListSlot(entries: seq<DirEntry>, slot: Slot, rest: seq<DirEntry>)
    ensures entries + (SlotEntries(slot) + rest) == (if slot.Used? then entries + [slot.entry] else entries) + rest
  {
  }

  /** The scan loop of main.cpp (lines 88-202), `continue` on free and deleted slots. */
  method ScanRootDirectory(disk: seq<byte>, g: Geometry) returns (entries: seq<DirEntry>)
    ensures entries == RootDirectory(disk, g)
  {
    ghost var slots := Slots(disk, g);
    entries := [];
    for f := 0 to g.rootEntries
      invariant entries + Listed(slots[f..]) == RootDirectory(disk, g)
    {
      var slot := ClassifySlot(disk, g, f);
      ListedStep(slots, f);
      ListSlot(entries, slot, Listed(slots[f + 1..]));
      if !slot.Used? {
        continue;
      }
      entries := entries + [slot.entry];
    }
    assert slots[g.rootEntries..] == [];
  }

  /** An entry is listed exactly when some slot holds it. */
  lemma ListedMembership(ss: seq<Slot>, e: DirEntry)
    ensures e in Listed(ss) <==> exists k :: 0 <= k < |ss| && ss[k] == Used(e)
  {
    if e in Listed(ss) {
      ListedEntryHasSlot(ss, e);
    }
    if exists k :: 0 <= k < |ss| && ss[k] == Used(e) {
      var k :| 0 <= k < |ss| && ss[k] == Used(e);
      UsedSlotIsListed(ss, k, e);
    }
  }

  /** Every listed entry comes from a used slot. */
  lemma {:induction false} ListedEntryHasSlot(ss: seq<Slot>, e: DirEntry)
    requires e in Listed(ss)
    ensures exists k :: 0 <= k < |ss| && ss[k] == Used(e)
  {
    if ss[0] != Used(e) {
      ListedEntryHasSlot(ss[1..], e);
      var k :| 0 <= k < |ss[1..]| && ss[1..][k] == Used(e);
      assert ss[k + 1] == Used(e);
    }
  }

  /** The entry of a used slot is listed. */
  lemma {:induction false} UsedSlotIsListed(ss: seq<Slot>, k: nat, e: DirEntry)
    requires k < |ss| && ss[k] == Used(e)
    ensures e in Listed(ss)
  {
    if k > 0 {
      UsedSlotIsListed(ss[1..], k - 1, e);
    }
  }

  /** main.cpp lists an entry exactly when one of the root-directory slots is a used slot holding it. */
  lemma RootDirectoryMembership(disk: seq<byte>, g: Geometry, e: DirEntry)
    ensures e in RootDirectory(disk, g) <==>
      exists f :: 0 <= f < g.rootEntries && ClassifySlot(disk, g, f) == Used(e)
  {
    var ss := Slots(disk, g);
    ListedMembership(ss, e);
    if exists f :: 0 <= f < g.rootEntries && ClassifySlot(disk, g, f) == Used(e) {
      var f :| 0 <= f < g.rootEntries && ClassifySlot(disk, g, f) == Used(e);
      assert ss[f] == Used(e);
    }
  }

  /**
   * The FAT convention the program does not follow: a 0x00 name byte ends
   * the directory, and so does a slot the image cannot hold.
   */
  function Stopped(ss: seq<Slot>): (es: seq<DirEntry>)
    ensures |es| <= |ss|
  {
    if ss == [] then []
    else
      match ss[0]
      case Unreadable => []
      case Free => []
      case Deleted => Stopped(ss[1..])
      case Used(e) => [e] + Stopped(ss[1..])
  }

  /** The root directory as the FAT convention reads it. */
  function DirectoryByConvention(disk: seq<byte>, g: Geometry): (es: seq<DirEntry>)
    ensures |es| <= g.rootEntries
  {
    Stopped(Slots(disk, g))
  }

  /** Whether every slot after a free one is free or unreadable, as in a formatted directory. */
  predicate FreeSlotsTrail(ss: seq<Slot>)
  {
    forall i, j :: 0 <= i < j < |ss| && ss[i] == Free ==> !ss[j].Used?
  }

  /** Whether every slot after an unreadable one is unreadable too. */
  predicate UnreadableTrails(ss: seq<Slot>)
  {
    forall i, j :: 0 <= i <= j < |ss| && ss[i] == Unreadable ==> ss[j] == Unreadable
  }

  /** Past the end of the image no slot is readable. */
  lemma UnreadableIsFinal(disk: seq<byte>, g: Geometry, i: nat, j: nat)
    requires i <= j && ClassifySlot(disk, g, i) == Unreadable
    ensures ClassifySlot(disk, g, j) == Unreadable
  {
    assert SlotStart(g, j) >= SlotStart(g, i) + (j - i) * SlotSize;
  }

  /** The slots of a root directory never become readable again once one is not. */
  lemma DirectoryUnreadableTrails(disk: seq<byte>, g: Geometry)
    ensures UnreadableTrails(Slots(disk, g))
  {
    var ss := Slots(disk, g);
    forall i, j | 0 <= i <= j < |ss| && ss[i] == Unreadable
      ensures ss[j] == Unreadable
    {
      UnreadableIsFinal(disk, g, i, j);
    }
  }

  /** Slots none of which is used list nothing. */
  lemma {:induction false} NothingListed(ss: seq<Slot>)
    requires forall k :: 0 <= k < |ss| ==> !ss[k].Used?
    ensures Listed(ss) == []
  {
    if ss != [] {
      assert forall k :: 0 <= k < |ss[1..]| ==> ss[1..][k] == ss[k + 1];
      NothingListed(ss[1..]);
    }
  }

  /**
   * When free slots only trail, skipping free slots (the program) and
   * stopping at the first one (the FAT convention) list the same entries.
   */
  lemma {:induction false} SkipAgreesWithStop(ss: seq<Slot>)
    requires FreeSlotsTrail(ss) && UnreadableTrails(ss)
    ensures Listed(ss) == Stopped(ss)
  {
    if ss != [] {
      var rest := ss[1..];
      assert forall k :: 0 <= k < |rest| ==> rest[k] == ss[k + 1];
      match ss[0]
      case Unreadable =>
        NothingListed(ss);
      case Free =>
        NothingListed(rest);
      case Deleted =>
        SkipAgreesWithStop(rest);
      case Used(e) =>
        SkipAgreesWithStop(rest);
    }
  }

  /** On a directory whose free slots trail, main.cpp lists what the FAT convention lists. */
  lemma ProgramAgreesWithConvention(disk: seq<byte>, g: Geometry)
    requires FreeSlotsTrail(Slots(disk, g))
    ensures RootDirectory(disk, g) == DirectoryByConvention(disk, g)
  {
    DirectoryUnreadableTrails(disk, g);
    SkipAgreesWithStop(Slots(disk, g));
  }

  /** A used, a deleted, a used and a free slot: both entries are listed, and the deleted slot is not. */
  lemma MixedDirectoryExample(a: DirEntry, b: DirEntry)
    ensures Listed([Used(a), Deleted, Used(b), Free]) == [a, b]
    ensures Stopped([Used(a), Deleted, Used(b), Free]) == [a, b]
  {
    var tail: seq<Slot> := [Free];
    assert tail[1..] == [];
    assert Listed(tail) == [] && Stopped(tail) == [];
    var rest := [Used(b)] + tail;
    assert rest[1..] == tail;
    assert Listed(rest) == [b] && Stopped(rest) == [b];
    var afterFirst := [Deleted] + rest;
    assert afterFirst[1..] == rest;
    assert Listed(afterFirst) == [b] && Stopped(afterFirst) == [b];
    var ss := [Used(a)] + afterFirst;
    assert ss[1..] == afterFirst;
    assert ss == [Used(a), Deleted, Used(b), Free];
  }

  /**
   * The program and the FAT convention differ: a used slot after a free
   * one is listed by main.cpp and would not be under the convention.
   */
  lemma EntryAfterFreeSlotIsListed(e: DirEntry)
    ensures Listed([Free, Used(e)]) == [e]
    ensures Stopped([Free, Used(e)]) == []
  {
    var rest: seq<Slot> := [Used(e)];
    assert rest[1..] == [];
    assert Listed(rest) == [e];
    var ss := [Free] + rest;
    assert ss[1..] == rest;
    assert ss == [Free, Used(e)];
  }
}
