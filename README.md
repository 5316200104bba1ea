# C exercises of a systems-programming course, modelled in Dafny

This project models three small C programs from a systems-programming course
and proves properties about them.

- **The FAT12/16 reader.** `Teoria/Leggere_da_Fat/main.cpp` decodes the boot
  sector of a disk image. It derives the start of the FAT area, the root
  directory and the data area. It then walks the root directory slot by slot
  and decodes each used slot: name, extension, attribute flags, creation
  time and date, size, first cluster, and the content of archive files.
  `Teoria/Leggere_da_Fat/main.c` dumps the boot-sector fields with its own
  byte and word readers.
  - The image is a `seq<byte>` and a position is an index into it.
  - `fread` past the end delivers fewer bytes. That is modelled by
    `Available`.
  - `unsigned long` is taken to be 64 bits wide, as on LP64 targets
    (`FatGeometry.UnsignedLongModulus` is 2^64). On a 32-bit or LLP64 target,
    where it is 32 bits, values such as `dimensione_disco` (main.cpp line 72)
    could wrap at 2^32, and the no-wrap results would not hold.
- **The sorted list of strings.** `node.h` and `sorted_list.h` define a
  singly linked list of `strdup`-ed strings, kept in `strcmp` order.
  `serializer-deserializer.c` writes such a list one value per line and reads
  it back. The reader goes through `fgets`, trims trailing whitespace, skips
  blank lines and inserts each line.
  - Nodes and the list header are Dafny classes.
  - A `SortedList` carries a ghost `nodes` sequence and its `Contents`. The
    methods are proved against the value-level functions `InsertSorted`,
    `RemoveAt` and `InsertAll`.
  - The files `node_commented.h` and `sorted_list_commented.h` hold the same
    code with more comments, so the same members model them. Their line
    ranges are given in the table.
  - A NULL `char*` is `None`. A file's text is a `string` parameter.
  - A Dafny `char` stands for one C `char`, that is, one byte. Lengths, the
    `fgets` room and the `strcmp` order are therefore counted in bytes.
- **The resort manager.** `Resort.c` manages guests, rooms and a resort read
  from a text file with `fscanf`.
  - `Guest`, `Room` and `Resort` are classes. Each has a ghost record view
    (`GuestInfo`, `RoomInfo`, `ResortInfo`).
  - The file is the sequence of its whitespace-separated tokens.
    `ParseResort` is the value-level reading of `createResortFromFile`, and
    the heap method is proved against it.

In three places `main.cpp` differs from the usual description of the FAT
directory format, and the model follows the code:

- A slot whose first byte is 0x00 is skipped, not treated as the end of the
  directory. `ProgramAgreesWithConvention` shows the two readings agree on
  directories whose free slots trail. `EntryAfterFreeSlotIsListed` shows an
  input where they differ.
- Names and extensions are not trimmed of their padding spaces.
- The 10 ms creation-time byte is carried into the seconds once only.
  `CarryAppliedOnce` shows 2500 ms becoming one second and 1500 ms.

## Model

| member | source | states |
|---|---|---|
| FatRead.LittleEndianBound | Teoria/Leggere_da_Fat/main.cpp:18-34 | a k-byte little-endian field is below 256^k |
| FatRead.NumberAt | Teoria/Leggere_da_Fat/main.cpp:18-34 | a read of `count` bytes succeeds exactly when the bytes lie inside the image, and its value fits in `count` bytes |
| FatRead.Available | Teoria/Leggere_da_Fat/main.cpp:4-8 | `fread` delivers at most the request, only bytes inside the image, and falls short only at the end of the image |
| FatRead.ReadBuffer | Teoria/Leggere_da_Fat/main.cpp:4-8 | read_buffer copies exactly the available bytes to the front of the buffer and leaves the rest of the buffer unchanged |
| FatRead.ReadString | Teoria/Leggere_da_Fat/main.cpp:11-15 | read_string copies the available bytes and puts a NUL at `dest[count]`; nothing else changes |
| FatRead.ReadNumber | Teoria/Leggere_da_Fat/main.cpp:18-34 | read_number yields the little-endian value of the `count` bytes at `pos`, or nothing on a short read |
| FatRead.FoldLittleEndian | Teoria/Leggere_da_Fat/main.cpp:28-32 | the backwards shift-and-add loop computes the little-endian value of the whole buffer (loop invariant: the value of the suffix already folded) |
| FatRead.ShiftInByte | Teoria/Leggere_da_Fat/main.cpp:30-31 | one step of the loop extends the folded suffix by one byte |
| FatRead.WordValue | Teoria/Leggere_da_Fat/main.c:38 | `b0 \| (b1 << 8)` is the number b0 + 256·b1 |
| FatRead.LittleEndianPair | Teoria/Leggere_da_Fat/main.cpp:18-34 | a two-byte field is its first byte plus 256 times its second |
| FatRead.ReadWordLittleEndian | Teoria/Leggere_da_Fat/main.c:24-40 | the word is below 2^16, equals read_number's two-byte value inside the image, and is 0 when the seek or the read fails |
| FatRead.ReadByte | Teoria/Leggere_da_Fat/main.c:42-55 | the byte equals read_number's one-byte value inside the image, and is 0 when the seek or the read fails |
| FatRead.ReadStringSimple | Teoria/Leggere_da_Fat/main.c:7-22 | a failed seek changes nothing; otherwise the available bytes are copied and a NUL goes at `dest[count]` when count > 0; nothing else changes |
| FatRead.WordReadersAgree | Teoria/Leggere_da_Fat/main.c:24-40 | main.c's word reader and main.cpp's two-byte read_number agree on every position inside the image |
| FatGeometry.DeriveGeometry | Teoria/Leggere_da_Fat/main.cpp:62-72 | the geometry exists exactly when the image covers the boot sector; the FAT area comes before the root directory, which comes before the data area, and the root directory is 32 bytes per entry |
| FatGeometry.Layout | Teoria/Leggere_da_Fat/main.cpp:64-71 | the offsets keep the raw fields, are ordered, and the data area follows the root directory's 32-byte entries |
| FatGeometry.GeometryFitsUnsignedLong | Teoria/Leggere_da_Fat/main.cpp:40-72 | no derived value reaches 2^64, so the `unsigned long` arithmetic never wraps |
| FatGeometry.ByteField | Teoria/Leggere_da_Fat/main.cpp:64 | a one-byte field reads as that byte |
| FatGeometry.GeometryFromBytes | Teoria/Leggere_da_Fat/main.cpp:62-72 | the geometry is the layout of the boot-sector bytes at offsets 0x03, 0x0B, 0x0D, 0x0E, 0x10, 0x11, 0x16 and 0x20 |
| FatGeometry.FloppyGeometry | Teoria/Leggere_da_Fat/main.cpp:62-72 | on a 1.44 MB floppy boot sector the FAT area starts at 512, the root directory at 9728 and the data area at 16896 |
| FatGeometry.FloppyFields | Teoria/Leggere_da_Fat/main.cpp:63-72 | the floppy boot sector holds 512 bytes per sector, 1 sector per cluster, 1 reserved sector, 2 FATs, 224 root entries and 9 sectors per FAT |
| FatGeometry.LittleEndianOfZeros | Teoria/Leggere_da_Fat/main.cpp:18-34 | a field of zero bytes reads as 0 |
| FatGeometry.FloppyLayout | Teoria/Leggere_da_Fat/main.cpp:66-71 | the floppy's field values give offsets 512, 9728 and 16896 |
| FatGeometry.ReadBpb | Teoria/Leggere_da_Fat/main.c:58-115 | the fields main.c prints: an OEM name of at most 8 bytes and words below 2^16 |
| FatGeometry.BpbAgreesWithGeometry | Teoria/Leggere_da_Fat/main.c:72-102 | on a complete boot sector, main.c's dump and main.cpp's geometry read the same values at the same offsets |
| FatGeometry.EmptyImageReadsZero | Teoria/Leggere_da_Fat/main.c:24-55 | on an empty image every field of main.c's dump is 0 and the OEM name is empty |
| FatDirectory.DecodeAttributes | Teoria/Leggere_da_Fat/main.cpp:129-136 | a zero attribute byte sets no flag |
| FatDirectory.AttributesAreBits | Teoria/Leggere_da_Fat/main.cpp:132-136 | the five masks test bits 0, 1, 2, 4 and 5 of the attribute byte, as arithmetic bits |
| FatDirectory.ReadOnlyArchiveExample | Teoria/Leggere_da_Fat/main.cpp:132-136 | attribute byte 0x21 is a read-only archive and nothing else |
| FatDirectory.CarryMillis | Teoria/Leggere_da_Fat/main.cpp:167-171 | the carry keeps the total time in ms; it leaves fewer than 1000 ms exactly when there were fewer than 2000, and adds at most one second |
| FatDirectory.HoursField | Teoria/Leggere_da_Fat/main.cpp:161 | the hours field is below 32 |
| FatDirectory.MinutesField | Teoria/Leggere_da_Fat/main.cpp:162 | the minutes field is below 64 |
| FatDirectory.HalfSecondsField | Teoria/Leggere_da_Fat/main.cpp:163 | the two-second field is below 32 |
| FatDirectory.DecodeTime | Teoria/Leggere_da_Fat/main.cpp:160-171 | the decoded time keeps the total of the two-second field and the 10 ms byte in ms; the ms are below 1000 exactly when the byte is below 200 |
| FatDirectory.DecodeDate | Teoria/Leggere_da_Fat/main.cpp:177-180 | the day is below 32, the month below 16, and the year lies between 1980 and 2107 |
| FatDirectory.UnpackTimeFields | Teoria/Leggere_da_Fat/main.cpp:161-163 | the shifts and masks recover each field of a packed time word |
| FatDirectory.RepackTimeFields | Teoria/Leggere_da_Fat/main.cpp:161-163 | packing the extracted fields gives back the time word |
| FatDirectory.UnpackDateFields | Teoria/Leggere_da_Fat/main.cpp:178-180 | the shifts and masks recover each field of a packed date word |
| FatDirectory.RepackDateFields | Teoria/Leggere_da_Fat/main.cpp:178-180 | packing the extracted fields gives back the date word |
| FatDirectory.TimeRoundTrip | Teoria/Leggere_da_Fat/main.cpp:160-171 | decoding a packed time gives back the hours, the minutes and twice the two-second count |
| FatDirectory.DateRoundTrip | Teoria/Leggere_da_Fat/main.cpp:177-180 | decoding a packed date gives back the day, the month and 1980 plus the year field |
| FatDirectory.DecodeTimeInjective | Teoria/Leggere_da_Fat/main.cpp:160-163 | different time words decode to different times |
| FatDirectory.DecodeDateInjective | Teoria/Leggere_da_Fat/main.cpp:177-180 | different date words decode to different dates |
| FatDirectory.TimeExample | Teoria/Leggere_da_Fat/main.cpp:160-171 | 0x6B4F is 13:26:30, and a sub-second byte of 150 turns it into 13:26:31 and 500 ms |
| FatDirectory.CarryAppliedOnce | Teoria/Leggere_da_Fat/main.cpp:167-171 | a sub-second byte of 250 gives one second and 1500 ms, because the carry happens once |
| FatDirectory.DateExample | Teoria/Leggere_da_Fat/main.cpp:177-180 | 0x3CCF is 15 June 2010 |
| FatDirectory.ContentOffset | Teoria/Leggere_da_Fat/main.cpp:198 | the content offset is an `unsigned long`, below 2^64 |
| FatDirectory.ContentOffsetInDataArea | Teoria/Leggere_da_Fat/main.cpp:198 | from cluster 2 on, when no wrap occurs, the content starts at that cluster's offset inside the data area |
| FatDirectory.ContentOffsetBelowClusterTwo | Teoria/Leggere_da_Fat/main.cpp:186-198 | for first cluster c of 0 or 1, the `unsigned long` offset is (2 - c) clusters before the data start when the data start is at least that far in; otherwise it wraps to within two clusters of 2^64. Either way it is never a real cluster's offset |
| FatDirectory.ClusterZeroOnFloppy | Teoria/Leggere_da_Fat/main.cpp:186-198 | on the 1.44 MB floppy, first cluster 0 reads at offset 15872, inside the root directory and before the data area |
| FatDirectory.BytesAt | Teoria/Leggere_da_Fat/main.cpp:4-8 | the bytes delivered are the available ones, in image order |
| FatDirectory.DecodeEntry | Teoria/Leggere_da_Fat/main.cpp:119-201 | a used slot's entry: name and extension are the raw bytes; the attributes decode byte 0x0B; the creation time is DecodeTime of the word at 0x0E with the 10 ms byte at 0x0D, and the creation date DecodeDate of the word at 0x10 (EntryWordsAsRead ties both words to read_number); size and first cluster are read_number's values; there is content exactly for archives, at ContentOffset and at most `size` bytes long |
| FatDirectory.EntryWordsAsRead | Teoria/Leggere_da_Fat/main.cpp:160-177 | the time and date words and the sub-second byte are read_number's values at 0x0E, 0x10 and 0x0D |
| FatDirectory.ClassifySlot | Teoria/Leggere_da_Fat/main.cpp:119-123 | a slot is free exactly when its first byte is 0x00, and deleted exactly when it is 0xE5; a used slot lies wholly inside the image and holds its decoded entry |
| FatDirectory.Slots | Teoria/Leggere_da_Fat/main.cpp:88-90 | one slot per root entry, slot f at rootDirStart + 32·f |
| FatDirectory.SlotEntries | Teoria/Leggere_da_Fat/main.cpp:122-123 | a slot contributes one entry exactly when it is used |
| FatDirectory.Listed | Teoria/Leggere_da_Fat/main.cpp:88-202 | no more entries are listed than there are slots |
| FatDirectory.RootDirectory | Teoria/Leggere_da_Fat/main.cpp:88-202 | no more entries are listed than the root directory has slots |
| FatDirectory.ListedStep | Teoria/Leggere_da_Fat/main.cpp:88-202 | listing from slot f is slot f's entry followed by the listing of the slots after it |
| FatDirectory.ScanRootDirectory | Teoria/Leggere_da_Fat/main.cpp:88-202 | the loop that continues past free and deleted slots lists exactly RootDirectory, in slot order |
| FatDirectory.ListedMembership | Teoria/Leggere_da_Fat/main.cpp:88-202 | an entry is listed if and only if some slot is a used slot holding it |
| FatDirectory.ListedEntryHasSlot | Teoria/Leggere_da_Fat/main.cpp:88-202 | every listed entry comes from a used slot |
| FatDirectory.UsedSlotIsListed | Teoria/Leggere_da_Fat/main.cpp:88-202 | the entry of every used slot is listed |
| FatDirectory.RootDirectoryMembership | Teoria/Leggere_da_Fat/main.cpp:88-202 | main.cpp lists an entry if and only if some root-directory slot is a used slot holding it |
| FatDirectory.Stopped | Teoria/Leggere_da_Fat/main.cpp:122-123 | the reference reading of the FAT convention, which stops at the first free slot, lists no more entries than there are slots |
| FatDirectory.DirectoryByConvention | Teoria/Leggere_da_Fat/main.cpp:88-202 | the directory as the convention reads it has at most one entry per slot |
| FatDirectory.UnreadableIsFinal | Teoria/Leggere_da_Fat/main.cpp:88-123 | once a slot lies past the end of the image, every later slot does too |
| FatDirectory.DirectoryUnreadableTrails | Teoria/Leggere_da_Fat/main.cpp:88-123 | in a root directory, the unreadable slots form a suffix |
| FatDirectory.NothingListed | Teoria/Leggere_da_Fat/main.cpp:122-123 | slots none of which is used list nothing |
| FatDirectory.SkipAgreesWithStop | Teoria/Leggere_da_Fat/main.cpp:122-123 | skipping free slots and stopping at the first free slot list the same entries when free and unreadable slots trail |
| FatDirectory.ProgramAgreesWithConvention | Teoria/Leggere_da_Fat/main.cpp:88-202 | on a directory whose free slots trail, main.cpp lists exactly what the FAT convention lists |
| FatDirectory.MixedDirectoryExample | Teoria/Leggere_da_Fat/main.cpp:122-123 | with slots used, deleted, used and free, both entries are listed under both readings and the deleted slot is not |
| FatDirectory.EntryAfterFreeSlotIsListed | Teoria/Leggere_da_Fat/main.cpp:122-123 | a used slot after a free slot is listed by main.cpp, while the convention lists nothing |
| CStrings.Strlen | Pratica/C/lab-simulazione-verifica-02-02-2026-PitStop13-main/node.h:14-30 | the length is the position of the first NUL, or the whole string when there is none |
| CStrings.CString | Pratica/C/lab-simulazione-verifica-02-02-2026-PitStop13-main/node.h:14-30 | the string a `char*` denotes is a NUL-free prefix of its buffer |
| CStrings.CStringOfNulFree | Pratica/C/lab-simulazione-verifica-02-02-2026-PitStop13-main/node.h:14-30 | a NUL-free string denotes itself, and its length is its size |
| CStrings.Strdup | Pratica/C/lab-simulazione-verifica-02-02-2026-PitStop13-main/node.h:14-30 | strdupp (also `node_commented.h:31-53` and safe_strdup at `Resort.c:80-87`): NULL for NULL, otherwise a NUL-free prefix of the source, equal to it when the source is NUL-free |
| CStrings.Compare | Pratica/C/lab-simulazione-verifica-02-02-2026-PitStop13-main/sorted_list.h:151-232 | the sign of `strcmp` is -1, 0 or 1 |
| CStrings.CompareZeroIffEqual | Pratica/C/lab-simulazione-verifica-02-02-2026-PitStop13-main/sorted_list.h:151-232 | `strcmp` is 0 if and only if the strings are equal |
| CStrings.CompareAntisymmetric | Pratica/C/lab-simulazione-verifica-02-02-2026-PitStop13-main/sorted_list.h:151-232 | swapping the arguments negates the comparison |
| CStrings.CompareTransitive | Pratica/C/lab-simulazione-verifica-02-02-2026-PitStop13-main/sorted_list.h:151-232 | the order is transitive |
| CStrings.CompareStrictTransitive | Pratica/C/lab-simulazione-verifica-02-02-2026-PitStop13-main/sorted_list.h:151-232 | the strict order is transitive |
| CStrings.PrefixSortsFirst | Pratica/C/lab-simulazione-verifica-02-02-2026-PitStop13-main/sorted_list.h:151-232 | a proper prefix sorts before the longer string |
| SortedSeqs.Advance | Pratica/C/lab-simulazione-verifica-02-02-2026-PitStop13-main/sorted_list.h:222-225 | the insertion walk moves past at least one more node and stays within the list |
| SortedSeqs.InsertionPoint | Pratica/C/lab-simulazione-verifica-02-02-2026-PitStop13-main/sorted_list.h:206-225 | the insertion position lies within the list |
| SortedSeqs.InsertSorted | Pratica/C/lab-simulazione-verifica-02-02-2026-PitStop13-main/sorted_list.h:191-232 | inserting adds one element, and the new value sits at the insertion point |
| SortedSeqs.RemoveAt | Pratica/C/lab-simulazione-verifica-02-02-2026-PitStop13-main/sorted_list.h:242-288 | removing drops exactly one element |
| SortedSeqs.AdvanceSplits | Pratica/C/lab-simulazione-verifica-02-02-2026-PitStop13-main/sorted_list.h:222-225 | every value the walk passes sorts at or before the new value, and the value it stops at sorts at or after it |
| SortedSeqs.InsertionPointSplits | Pratica/C/lab-simulazione-verifica-02-02-2026-PitStop13-main/sorted_list.h:206-225 | values before the insertion point sort at or before the new value, and values from it on sort at or after it |
| SortedSeqs.InsertSortedKeepsOrder | Pratica/C/lab-simulazione-verifica-02-02-2026-PitStop13-main/sorted_list.h:191-232 | inserting into a sorted list keeps it sorted |
| SortedSeqs.InsertSortedAddsValue | Pratica/C/lab-simulazione-verifica-02-02-2026-PitStop13-main/sorted_list.h:191-232 | inserting adds exactly the new value: the result's multiset is the old one plus that value |
| SortedSeqs.RemoveUndoesInsert | Pratica/C/lab-simulazione-verifica-02-02-2026-PitStop13-main/sorted_list.h:242-288 | removing at the insertion point undoes the insertion |
| SortedSeqs.RemoveKeepsOrder | Pratica/C/lab-simulazione-verifica-02-02-2026-PitStop13-main/sorted_list.h:242-288 | removing from a sorted list keeps it sorted |
| SortedSeqs.RemoveDropsValue | Pratica/C/lab-simulazione-verifica-02-02-2026-PitStop13-main/sorted_list.h:242-288 | removing drops exactly the element at the index, as a multiset |
| SortedSeqs.NotBeyondGreater | Pratica/C/lab-simulazione-verifica-02-02-2026-PitStop13-main/sorted_list.h:171-174 | in a sorted list, once a value greater than the sought one is reached, it does not occur further on, which justifies the early exit |
| SortedSeqs.HeadIsLeast | Pratica/C/lab-simulazione-verifica-02-02-2026-PitStop13-main/sorted_list.h:191-232 | the first element of a sorted list sorts at or before every element |
| SortedSeqs.SortedUnique | Pratica/C/lab-simulazione-verifica-02-02-2026-PitStop13-main/sorted_list.h:191-232 | two sorted lists with the same multiset of values are equal |
| SortedSeqs.InsertAll | Pratica/C/lab-simulazione-verifica-02-02-2026-PitStop13-main/serializer-deserializer.c:246-290 | inserting the values one by one gives a list of the same length |
| SortedSeqs.InsertAllSortsValues | Pratica/C/lab-simulazione-verifica-02-02-2026-PitStop13-main/serializer-deserializer.c:246-290 | inserting values one by one yields them sorted, as a permutation |
| SortedSeqs.InsertAllOfSorted | Pratica/C/lab-simulazione-verifica-02-02-2026-PitStop13-main/serializer-deserializer.c:246-290 | inserting an already sorted sequence one by one rebuilds it unchanged |
| SortedSeqs.Lines | Pratica/C/lab-simulazione-verifica-02-02-2026-PitStop13-main/serializer-deserializer.c:124-135 | the text is each value followed by a newline, so it has at least one character per value |
| SortedLists.Node.constructor | Pratica/C/lab-simulazione-verifica-02-02-2026-PitStop13-main/node.h:39-63 | a new node holds the value and has no successor |
| SortedLists.SortedList.constructor | Pratica/C/lab-simulazione-verifica-02-02-2026-PitStop13-main/sorted_list.h:20-30 | createEmptySortedList (also `sorted_list_commented.h:34-49`) makes a valid empty list |
| SortedLists.NextOf | Pratica/C/lab-simulazione-verifica-02-02-2026-PitStop13-main/sorted_list.h:119-139 | in a linked list each node's `next` is the following node, and the last node's is NULL |
| SortedLists.CreateNode | Pratica/C/lab-simulazione-verifica-02-02-2026-PitStop13-main/node.h:39-63 | createNode (also `node_commented.h:68-101`) gives NULL exactly for a NULL value; otherwise a fresh node holding the strdupp copy, with no successor |
| SortedLists.CloneNode | Pratica/C/lab-simulazione-verifica-02-02-2026-PitStop13-main/node.h:72-79 | cloneNode (also `node_commented.h:117-127`) gives NULL for NULL; otherwise a fresh, unlinked node with the same value |
| SortedLists.DestroyNode | Pratica/C/lab-simulazione-verifica-02-02-2026-PitStop13-main/node.h:88-98 | destroyNode (also `node_commented.h:146-163`) returns -1 for NULL and 0 otherwise |
| SortedLists.GetSortedListSize | Pratica/C/lab-simulazione-verifica-02-02-2026-PitStop13-main/sorted_list.h:119-139 | getSortedListSize (also `sorted_list_commented.h:181-209`) returns -1 for NULL, otherwise the number of values |
| SortedLists.SortedListContains | Pratica/C/lab-simulazione-verifica-02-02-2026-PitStop13-main/sorted_list.h:151-179 | sortedListContains (also `sorted_list_commented.h:229-275`) is true if and only if the list and the value are non-NULL and the value is in the list; the early exit loses nothing |
| SortedLists.PrintSortedList | Pratica/C/lab-simulazione-verifica-02-02-2026-PitStop13-main/sorted_list.h:295-314 | printSortedList (also `sorted_list_commented.h:471-497`) prints nothing for NULL, otherwise every value in order, one per line |
| SortedLists.LinkAtHead | Pratica/C/lab-simulazione-verifica-02-02-2026-PitStop13-main/sorted_list.h:206-218 | linking before the first node puts its value first and keeps the rest |
| SortedLists.LinkAfter | Pratica/C/lab-simulazione-verifica-02-02-2026-PitStop13-main/sorted_list.h:222-229 | linking after node k puts the new value at position k + 1 and keeps the rest |
| SortedLists.InsertNodeInSortedList | Pratica/C/lab-simulazione-verifica-02-02-2026-PitStop13-main/sorted_list.h:191-232 | insertNodeInSortedList (also `sorted_list_commented.h:300-356`) returns -1 exactly for a NULL list or value; otherwise the contents become InsertSorted of the old contents and the value's copy, and the list stays valid (sorted, NUL-free) |
| SortedLists.UnlinkHead | Pratica/C/lab-simulazione-verifica-02-02-2026-PitStop13-main/sorted_list.h:258-264 | unlinking the first node drops the first value, keeps the rest, and detaches the node |
| SortedLists.UnlinkAfter | Pratica/C/lab-simulazione-verifica-02-02-2026-PitStop13-main/sorted_list.h:266-288 | unlinking after node k drops value k + 1, keeps the rest, and detaches the node |
| SortedLists.RemoveNodeFromSortedList | Pratica/C/lab-simulazione-verifica-02-02-2026-PitStop13-main/sorted_list.h:242-288 | removeNodeFromSortedList (also `sorted_list_commented.h:382-450`) returns NULL exactly for a NULL list or an index out of range, leaving the contents alone; otherwise the contents become RemoveAt(old, index) and the returned node is the very node that was at position index, now detached and holding the removed value |
| SortedLists.CloneSortedList | Pratica/C/lab-simulazione-verifica-02-02-2026-PitStop13-main/sorted_list.h:40-77 | cloneSortedList (also `sorted_list_commented.h:67-112`) gives NULL for NULL; otherwise a fresh, valid list, disjoint from the original, with the same values in the same order |
| SortedLists.StartClone | Pratica/C/lab-simulazione-verifica-02-02-2026-PitStop13-main/sorted_list.h:59-66 | the clone starts as one fresh node copying the first value |
| SortedLists.AppendClone | Pratica/C/lab-simulazione-verifica-02-02-2026-PitStop13-main/sorted_list.h:68-74 | each loop step appends a fresh copy of the next value to the clone |
| SortedLists.DestroySortedList | Pratica/C/lab-simulazione-verifica-02-02-2026-PitStop13-main/sorted_list.h:86-110 | destroySortedList (also `sorted_list_commented.h:129-166`) returns -1 for NULL and 0 otherwise, releasing every node of the list |
| Serializer.FgetsChunk | Pratica/C/lab-simulazione-verifica-02-02-2026-PitStop13-main/serializer-deserializer.c:246 | one fgets call reads a non-empty prefix that fits the buffer, with no newline before its end, and stops early only after a newline |
| Serializer.Chunks | Pratica/C/lab-simulazione-verifica-02-02-2026-PitStop13-main/serializer-deserializer.c:246-290 | every piece the fgets loop reads is non-empty and fits in 1023 characters |
| Serializer.ChunksCoverText | Pratica/C/lab-simulazione-verifica-02-02-2026-PitStop13-main/serializer-deserializer.c:246-290 | the pieces laid end to end are the whole text: the loop reads everything, in order |
| Serializer.TrimEnd | Pratica/C/lab-simulazione-verifica-02-02-2026-PitStop13-main/serializer-deserializer.c:253-264 | trimming keeps a prefix that does not end in whitespace, and removes only newlines, carriage returns, spaces and tabs |
| Serializer.KeptLines | Pratica/C/lab-simulazione-verifica-02-02-2026-PitStop13-main/serializer-deserializer.c:253-276 | the lines that are inserted are non-empty and NUL-free, at most one per piece |
| Serializer.DeserializedSortsLines | Pratica/C/lab-simulazione-verifica-02-02-2026-PitStop13-main/serializer-deserializer.c:189-307 | the list read from a file is sorted and holds exactly the file's non-blank trimmed lines, as a permutation |
| Serializer.ChunkOfLine | Pratica/C/lab-simulazione-verifica-02-02-2026-PitStop13-main/serializer-deserializer.c:246 | a line shorter than the buffer is read by a single fgets call, newline included |
| Serializer.TrimOfLine | Pratica/C/lab-simulazione-verifica-02-02-2026-PitStop13-main/serializer-deserializer.c:253-264 | trimming a written line gives back a serializable value |
| Serializer.KeptLinesOfLines | Pratica/C/lab-simulazione-verifica-02-02-2026-PitStop13-main/serializer-deserializer.c:124-135 | reading back the text of serializable values keeps exactly those values, in order |
| Serializer.RoundTrip | Pratica/C/lab-simulazione-verifica-02-02-2026-PitStop13-main/serializer-deserializer.c:65-307 | deserializing what serializeSortedList wrote rebuilds the same sorted list, when every value is non-empty, NUL-free, free of newlines, does not end in whitespace and is shorter than 1023 characters |
| Serializer.SerializeSortedList | Pratica/C/lab-simulazione-verifica-02-02-2026-PitStop13-main/serializer-deserializer.c:65-151 | returns -1 for a NULL list, a NULL filename or a file that cannot be opened, writing nothing; otherwise returns 0 and writes each value followed by a newline, in list order |
| Serializer.Fgets | Pratica/C/lab-simulazione-verifica-02-02-2026-PitStop13-main/serializer-deserializer.c:246 | fgets fills the buffer with the next piece of the text and NUL-terminates it |
| Serializer.TrimLine | Pratica/C/lab-simulazione-verifica-02-02-2026-PitStop13-main/serializer-deserializer.c:253-264 | the trim loop overwrites trailing whitespace with NULs and leaves the buffer holding the trimmed line |
| Serializer.ReadLine | Pratica/C/lab-simulazione-verifica-02-02-2026-PitStop13-main/serializer-deserializer.c:246-264 | after fgets and the trim loop, the buffer holds the trimmed piece and `len` is its length |
| Serializer.KeptLinesStep | Pratica/C/lab-simulazione-verifica-02-02-2026-PitStop13-main/serializer-deserializer.c:268-276 | a blank line adds nothing to the values kept so far, and any other line is appended |
| Serializer.LoadLine | Pratica/C/lab-simulazione-verifica-02-02-2026-PitStop13-main/serializer-deserializer.c:246-290 | one loop iteration reads the next piece and inserts its trimmed line unless it is blank; the list stays valid |
| Serializer.InsertLine | Pratica/C/lab-simulazione-verifica-02-02-2026-PitStop13-main/serializer-deserializer.c:276 | the line in the buffer joins the values inserted so far |
| Serializer.DeserializeSortedList | Pratica/C/lab-simulazione-verifica-02-02-2026-PitStop13-main/serializer-deserializer.c:189-307 | returns NULL exactly for a NULL filename or a file that cannot be opened; otherwise a fresh, valid list holding what the file's text deserializes to |
| ResortData.VipCount | Resort.c:217-229 | the VIP count is at most the number of guests |
| ResortData.VipCountStep | Resort.c:223-227 | one more guest adds one to the count exactly when that guest is a VIP |
| ResortData.LuxuryCount | Resort.c:311-325 | the luxury count is at most the number of rooms |
| ResortData.LuxuryCountStep | Resort.c:317-323 | one more room adds one exactly when it has at least LUXURY_THRESHOLD (3) VIP guests |
| ResortData.NoVipIffZero | Resort.c:217-229 | the VIP count is 0 if and only if no guest is a VIP |
| ResortData.AllVipIffFull | Resort.c:217-229 | the VIP count equals the number of guests if and only if every guest is a VIP |
| ResortData.NoLuxuryIffZero | Resort.c:311-325 | the luxury count is 0 if and only if no room is a luxury room |
| ResortData.Promoted | Resort.c:131-135 | makeVip's guest keeps its names and is a VIP |
| ResortData.PromoteCounts | Resort.c:131-135 | making a guest VIP adds one to the count if it was not one, and nothing otherwise |
| ResortData.NewGuest | Resort.c:104-123 | createGuest fails exactly for a NULL or empty name; otherwise both names are safe_strdup copies, non-empty, and the guest is not a VIP |
| ResortData.CopiedAll | Resort.c:183-196 | the deep copy has one copy per guest, each made by safe_strdup of both names with the VIP flag kept |
| ResortData.CopyKeepsVipCount | Resort.c:183-196 | the deep copy keeps the VIP count |
| ResortData.CopyOfCreatedGuest | Resort.c:104-123 | copying a guest made by createGuest changes nothing |
| ResortData.ParseInt | Resort.c:378 | `%d` only accepts a non-empty token |
| ResortData.DigitAt | Resort.c:378 | every position of a digit string holds a decimal digit |
| ResortData.Decimal | Resort.c:452-461 | the decimal writing of a number is a non-empty string of digits |
| ResortData.DecimalRoundTrip | Resort.c:378 | `%d` reads back the number that printing in decimal writes |
| ResortData.ParseGuest | Resort.c:407-416 | a guest line uses exactly two tokens |
| ResortData.ParseGuests | Resort.c:407-419 | k guest lines give k guests and use exactly 2k tokens |
| ResortData.GuestsFailureStays | Resort.c:407-419 | once a guest line fails, reading more guest lines fails too |
| ResortData.GuestsStep | Resort.c:407-419 | reading k + 1 guest lines is reading k and then one more |
| ResortData.ParseRoomHeader | Resort.c:395-396 | a room line is accepted only with number > 0 and floor >= 0, and uses three tokens |
| ResortData.ParseRoom | Resort.c:391-419 | a room uses its three-token line and then its guest lines |
| ResortData.ParseRooms | Resort.c:391-420 | k rooms give k room records and stay within the input |
| ResortData.RoomsStep | Resort.c:391-420 | reading k + 1 rooms is reading k and then one more |
| ResortData.RoomsFailureStays | Resort.c:391-420 | once a room fails, reading more rooms fails too |
| ResortData.ParseHeader | Resort.c:378-381 | the header is accepted if and only if there are two tokens and the second is a positive `%d`, which becomes the room count |
| ResortData.ParsedGuestsAreNew | Resort.c:407-419 | every guest read from a file has non-empty names and is not a VIP |
| ResortData.ParsedRoomIsNew | Resort.c:395-419 | a room read from a file passes the room checks and has no VIP guest |
| ResortData.ParsedRoomsAreNew | Resort.c:391-420 | every room read from a file passes the room checks and has no VIP guest |
| ResortData.ParsedResortHasNoLuxury | Resort.c:368-433 | a resort read from a file has as many rooms as its header announces, each passing the room checks, and no luxury room |
| ResortData.EmptyRoomAccepted | Resort.c:395-396 | the file reader accepts a room announcing no guests, which createRoom's check (line 168) refuses |
| ResortData.NamedGuest | Resort.c:407-416 | a line of two non-empty NUL-free names reads as that guest, not a VIP |
| ResortData.NamedGuests | Resort.c:407-419 | k lines of non-empty NUL-free names read as those k guests, none a VIP |
| ResortData.GuestsAnywhere | Resort.c:407-419 | guest lines read the same wherever their tokens sit in the input |
| ResortData.RoomAnywhere | Resort.c:391-419 | a room reads the same wherever its tokens sit in the input |
| ResortData.NamedRoom | Resort.c:391-419 | a valid room line followed by one line of names per guest reads as that room |
| ResortData.SampleFirstRoom | Resort.c:453-456 | room 101 on floor 1 reads with its three guests |
| ResortData.SampleSecondRoom | Resort.c:457-461 | room 202 on floor 2 reads with its four guests |
| ResortData.TwoRooms | Resort.c:368-420 | a header announcing two rooms, followed by two well-formed rooms, reads as those two rooms |
| ResortData.SampleHeaderLine | Resort.c:452 | "ParadiseBay 2" is a valid header for two rooms |
| ResortData.SampleFile | Resort.c:452-471 | the main program's file reads as ParadiseBay with rooms 101 and 202 of three and four guests, none a VIP |
| ResortData.PromoteFirst | Resort.c:481-484 | promoting the first n guests keeps the number of guests |
| ResortData.PromoteNext | Resort.c:482-484 | one makeVip on guest n turns the first n promoted into the first n + 1 promoted |
| ResortData.PromoteFirstCount | Resort.c:481-484 | when no guest is a VIP, promoting the first n guests gives n VIPs, or all of them when there are fewer |
| ResortData.MainPromotion | Resort.c:479-485 | step 3 of the main program keeps the number of rooms |
| ResortData.LuxuryCountUpdate | Resort.c:311-325 | replacing one room changes the luxury count by that room's change of luxury status, and no more |
| ResortData.MainPromotionLuxury | Resort.c:479-505 | when no guest is a VIP, after step 3 exactly the second room is a luxury room if it has at least three guests, and no room is one otherwise |
| ResortData.SamplePromotion | Resort.c:479-505 | after step 3 on the main program's file, room 101 has no VIP, room 202 has three, and exactly one room is a luxury room |
| ResortData.SampleOutcome | Resort.c:443-505 | the main program's file reads, and after step 3 exactly one of its rooms is a luxury room |
| Resorts.Guest.constructor | Resort.c:34-38 | a guest holds the given names and flag |
| Resorts.Room.constructor | Resort.c:48-53 | a room holds the given number, floor, count and guest array |
| Resorts.Resort.constructor | Resort.c:62-66 | a resort holds the given name, count and room array |
| Resorts.CreateGuest | Resort.c:104-123 | createGuest returns NULL exactly when the value-level check fails; otherwise a fresh guest equal to NewGuest |
| Resorts.MakeVip | Resort.c:131-135 | makeVip returns -1 for NULL; otherwise it returns 0 and the guest becomes a VIP with its names unchanged |
| Resorts.Room.MakeGuestVip | Resort.c:131-135 | makeVip on a guest of a room returns 0; that guest's record becomes Promoted, the other guests and the room's fields are unchanged, and the room stays well formed |
| Resorts.MakeRoomGuestVip | Resort.c:131-135 | makeVip on a guest of a room of a resort returns 0; that guest's record becomes Promoted in the room and the resort, nothing else changes, and the resort stays well formed |
| Resorts.PromoteLuxuryRoom | Resort.c:479-485 | step 3 of the main program leaves the resort well formed and equal to MainPromotion of its rooms |
| Resorts.SampleSession | Resort.c:443-505 | reading the main program's file, promoting three guests of room 202 and counting gives exactly one luxury room |
| Resorts.CreateRoom | Resort.c:166-209 | createRoom returns NULL for a NULL array, number <= 0, floor < 0 or count <= 0; otherwise a fresh room with the given fields holding a deep copy of the guests |
| Resorts.CopyGuests | Resort.c:183-196 | the copy loop fills a fresh array with fresh guests, each a copy of the source guest |
| Resorts.GetVipGuestsCount | Resort.c:217-229 | getVipGuestsCount returns -1 for a NULL room, a NULL guest array or a negative count; otherwise the number of VIP guests, between 0 and the room's count |
| Resorts.GetLuxuryRoomsCount | Resort.c:311-325 | getLuxuryRoomsCount returns -1 for a NULL resort, NULL rooms, a count <= 0 or any unreadable room; otherwise the number of rooms with at least three VIPs |
| Resorts.CountLuxuryRooms | Resort.c:316-324 | the counting loop returns -1 as soon as a room cannot be read, and otherwise the luxury count |
| Resorts.CreateResortFromFile | Resort.c:368-433 | createResortFromFile returns NULL for a NULL file or when ParseResort fails; otherwise a fresh resort equal to ParseResort's reading |
| Resorts.ReadRooms | Resort.c:391-420 | the room loop succeeds exactly when ParseRooms does, and then fills the array with fresh rooms equal to its records |
| Resorts.ReadRoom | Resort.c:391-419 | one room succeeds exactly when ParseRoom does, and is then a fresh room equal to its record |
| Resorts.ReadGuests | Resort.c:407-419 | the guest loop succeeds exactly when ParseGuests does, and then fills the array with fresh guests equal to its records |
| Resorts.ReadGuest | Resort.c:407-416 | one guest line succeeds exactly when ParseGuest does, and is then a fresh guest equal to its record |

## Left out

- Files, `fopen`, `fseek`, `fread`, `fgets`, `fscanf`, `fprintf` and `printf` are not modelled as I/O. A disk image is a byte sequence, a file's text is a string, the resort file is its token sequence, and printed output is a returned string or is left out.
- Allocation never fails in the model, so every `malloc` failure branch is left out, along with the order of the `free` calls on the way out.
- Serializer.SerializeSortedList: whether `fopen` succeeds is a parameter, and errors from `fprintf` and `fclose` are not modelled.
- Serializer.Serializable and Serializer.RoundTrip: a `char` stands for one C byte, so the 1023-character bound is a bound in bytes. Text in a multi-byte encoding such as UTF-8 appears here as its bytes. A Dafny string holding code points above 255 corresponds to no C input. RoundTrip still holds for it in the model, but that says nothing about the C program: the UTF-8 bytes of 600 copies of 'é' would be split by `fgets` into two lines.
- Serializer.DeserializeSortedList: the branch where insertNodeInSortedList fails (lines 279-287) cannot happen, because the list and the buffer are never NULL there, or when allocation fails in createNode (sorted_list.h lines 199-203), which the model excludes as stated above; `fgets` read errors are treated as end of file.
- FatRead.ReadNumber: a short read returns None, where the C code folds uninitialised buffer bytes. `count` is limited to 1..8, the sizes an `unsigned long` accumulator can hold.
- FatDirectory.DecodeEntry: a slot that does not lie wholly inside the image yields no entry, where main.cpp would print uninitialised buffer contents.
- FatDirectory.DecodeEntry: main.cpp passes positions to read_buffer as `int`, so offsets from 2^31 on would be truncated. The model reads at the full `unsigned long` offset.
- FatDirectory.DecodeEntry: the content buffer is a variable-length array of `1 + size` bytes, and stack exhaustion for a large size is not modelled.
- CStrings.Strdup: strings are sequences of `char` that may contain NUL. Everything `strdup`-ed is cut at its first NUL, and the list values are NUL-free.
- ResortData.ParseInt: `%d` is modelled on whole tokens only. A token such as `12abc`, which `%d` reads partly, fails here, and `int` overflow is not modelled.
- ResortData.ParseGuest: the `%99s` truncation of names longer than 99 characters is not modelled.
- ResortData.ParseHeader: the same `%99s` truncation of the resort name (line 378) is not modelled; a name longer than 99 characters is kept whole.
- Resorts.CreateResortFromFile: on failure the C code calls destroyRoom on rooms that were never initialised (lines 424-428). The model only states that NULL is returned.
- The arrays of `Guest` and `Room` structs are modelled as arrays of references to objects. Copying a struct by value (`room->guests[g] = *guest`) is a reference to a fresh guest.
- Resorts.MakeVip: on its own it changes only the guest object, so a room or resort holding that guest no longer matches its records. A guest inside a room is promoted through Resorts.MakeRoomGuestVip, which updates both.
- Resorts.CreateRoom: guest names are `string`s, never NULL, so the branch where `safe_strdup` returns NULL for a NULL name (lines 81 and 188-191) is not modelled. Nor is `cleanup_room` then freeing the guest slots not yet filled (lines 203-206).
- SortedLists.SortedList: its `Repr` contains the list's nodes but is not stated to be exactly those nodes.
- createResort (`Resort.c:265-303`), destroyGuest, destroyRoom, destroyResort and the main programs are not part of this model, except steps 2, 3 and the final count of `Resort.c`'s main (Resorts.SampleSession); its printing is left out. Nor are `Menu.c`, `C/Alloca-Distruggi/Prove.c`, the tests and the demo drivers. They are outside the modelled core.
