/**
 * Primitive readers of the FAT exercise: little-endian integers and raw byte
 * fields read at absolute positions of a disk image.
 *
 * The C programs read through a `FILE*` with `fseek`/`fread`; here the image
 * is a sequence of bytes and a position is an index into it.
 */
module FatRead {
  import opened Wrappers

  type byte = bv8

  /** 256^k, the number of values a k-byte field can hold. */
  function Pow256(k: nat): (r: nat)
    ensures r >= 1
  {
    if k == 0 then 1 else 256 * Pow256(k - 1)
  }

  /** The value of a little-endian byte string: the sum of bs[i] * 256^i. */
  function LittleEndian(bs: seq<byte>): nat
  {
    if bs == [] then 0 else bs[0] as nat + 256 * LittleEndian(bs[1..])
  }

  /** A k-byte field holds fewer than 256^k values. */
  lemma {:induction false} LittleEndianBound(bs: seq<byte>)
    ensures LittleEndian(bs) < Pow256(|bs|)
  {
    if bs != [] {
      LittleEndianBound(bs[1..]);
    }
  }

  /** Whether `count` bytes starting at `pos` lie inside the image. */
  predicate InImage(disk: seq<byte>, pos: int, count: nat)
  {
    0 <= pos && pos + count <= |disk|
  }

  /** The value `read_number` of main.cpp yields when all requested bytes are present. */
  function NumberAt(disk: seq<byte>, pos: int, count: nat): (r: Option<nat>)
    ensures r.Some? <==> InImage(disk, pos, count)
    ensures r.Some? ==> r.value < Pow256(count)
  {
    if InImage(disk, pos, count) then
      LittleEndianBound(disk[pos..pos + count]);
      Some(LittleEndian(disk[pos..pos + count]))
    else None
  }

  /** The number of bytes `fread` delivers for a request of `count` bytes at `pos`. */
  function Available(disk: seq<byte>, pos: nat, count: nat): (n: nat)
    ensures n <= count
    ensures n > 0 ==> pos + n <= |disk|
    ensures n < count ==> pos + n >= |disk|
  {
    if pos >= |disk| then 0 else if pos + count <= |disk| then count else |disk| - pos
  }

  /**
   * read_buffer (main.cpp): seek to `pos` and copy as many of the `count`
   * requested bytes as the image holds into the caller's buffer; the rest of
   * the buffer keeps its old contents. Returns how many bytes were copied
   * (the count `fread` returns and read_buffer ignores).
   */
  method ReadBuffer(disk: seq<byte>, pos: nat, count: nat, dest: array<byte>) returns (got: nat)
    requires count <= dest.Length
    modifies dest
    ensures got == Available(disk, pos, count)
    ensures forall i :: 0 <= i < got ==> dest[i] == disk[pos + i]
    ensures forall i :: got <= i < dest.Length ==> dest[i] == old(dest[i])
  {
    got := Available(disk, pos, count);
    forall i | 0 <= i < got {
      dest[i] := disk[pos + i];
    }
  }

  /** read_string (main.cpp): read_buffer, then a NUL terminator at dest[count]. */
  method ReadString(disk: seq<byte>, pos: nat, count: nat, dest: array<byte>)
    requires count < dest.Length
    modifies dest
    ensures dest[count] == 0
    ensures forall i :: 0 <= i < Available(disk, pos, count) ==> dest[i] == disk[pos + i]
    ensures forall i :: Available(disk, pos, count) <= i < dest.Length && i != count ==> dest[i] == old(dest[i])
  {
    var got := ReadBuffer(disk, pos, count, dest);
    dest[count] := 0;
  }

  /**
   * read_number (main.cpp): read `count` bytes at `pos` into a buffer and fold
   * them from the last byte down to the first, shifting by 8 bits each step.
   * A short read leaves the buffer partly uninitialised in C; the model
   * reports it as None. The buffer is a variable-length array, so `count` is
   * at least 1, and the accumulator is an `unsigned long`, which holds 8 bytes.
   */
  method ReadNumber(disk: seq<byte>, pos: nat, count: nat) returns (r: Option<nat>)
    requires 1 <= count <= 8
    ensures r == NumberAt(disk, pos, count)
  {
    var buffer := new byte[count];
    var got := ReadBuffer(disk, pos, count, buffer);
    if got < count {
      return None;
    }
    assert buffer[..] == disk[pos..pos + count];
    var ret := FoldLittleEndian(buffer);
    return Some(ret);
  }

  /**
   * The loop of read_number: walk the buffer from its last byte down to its
   * first, shifting the accumulator left by 8 bits before adding each byte.
   * The C index `a` runs from count - 1 down to 0; here `i` is `a + 1`.
   */
  method FoldLittleEndian(buffer: array<byte>) returns (ret: nat)
    ensures ret == LittleEndian(buffer[..])
  {
    ghost var bs := buffer[..];
    ret := 0;
    var i := buffer.Length;
    while i > 0
      invariant 0 <= i <= buffer.Length && bs == buffer[..]
      invariant ret == LittleEndian(bs[i..])
    {
      i := i - 1;
      ShiftInByte(bs, i, ret);
      ret := ret * 256 + buffer[i] as nat;
    }
    assert bs[0..] == bs;
  }

  /** Shifting a suffix's value left by one byte and adding the byte before it. */
  lemma ShiftInByte(bs: seq<byte>, i: nat, acc: nat)
    requires i < |bs| && acc == LittleEndian(bs[i + 1..])
    ensures acc * 256 + bs[i] as nat == LittleEndian(bs[i..])
  {
    assert bs[i..][1..] == bs[i + 1..];
  }

  /** The 16-bit word `b0 | (b1 << 8)` that main.c assembles from two bytes. */
  function Word(b0: byte, b1: byte): bv16
  {
    (b0 as bv16) | ((b1 as bv16) << 8)
  }

  /** The bitwise assembly of a word is the positional sum of its bytes. */
  lemma WordValue(b0: byte, b1: byte)
    ensures Word(b0, b1) as int == b0 as int + 256 * b1 as int
  {
    var x0, x1 := b0 as bv16, b1 as bv16;
    assert Word(b0, b1) == x0 + x1 * 256;
    SumOfSmallWords(x0, x1);
    ByteWidening(b0);
    ByteWidening(b1);
  }

  lemma SumOfSmallWords(x0: bv16, x1: bv16)
    requires x0 < 256 && x1 < 256
    ensures (x0 + x1 * 256) as int == x0 as int + 256 * x1 as int
  {
  }

  lemma ByteWidening(b: byte)
    ensures (b as bv16) as int == b as int
  {
  }

  /** A two-byte field is its first byte plus 256 times its second. */
  lemma LittleEndianPair(s: seq<byte>)
    requires |s| == 2
    ensures LittleEndian(s) == s[0] as int + 256 * s[1] as int
  {
    assert s[1..][1..] == [];
    assert LittleEndian(s[1..]) == s[1] as nat;
  }

  /**
   * read_word_little_endian (main.c): b0 | (b1 << 8), or 0 when the seek
   * fails (negative position) or fewer than two bytes can be read.
   */
  function ReadWordLittleEndian(disk: seq<byte>, pos: int): (w: nat)
    ensures w < 0x1_0000
    ensures InImage(disk, pos, 2) ==> Some(w) == NumberAt(disk, pos, 2)
    ensures !InImage(disk, pos, 2) ==> w == 0
  {
    if pos < 0 || pos + 2 > |disk| then 0
    else
      WordValue(disk[pos], disk[pos + 1]);
      LittleEndianPair(disk[pos..pos + 2]);
      Word(disk[pos], disk[pos + 1]) as int
  }

  /** read_byte (main.c): the byte at `pos`, or 0 when the seek or the read fails. */
  function ReadByte(disk: seq<byte>, pos: int): (b: byte)
    ensures InImage(disk, pos, 1) ==> Some(b as nat) == NumberAt(disk, pos, 1)
    ensures !InImage(disk, pos, 1) ==> b == 0
  {
    if 0 <= pos < |disk| then disk[pos] else 0
  }

  /**
   * read_string_simple (main.c): on a failed seek nothing is written;
   * otherwise the available bytes are copied, dest[count] is set to NUL when
   * count > 0, and a short read only produces a warning.
   */
  method ReadStringSimple(disk: seq<byte>, pos: int, count: nat, dest: array<byte>)
    requires count <= dest.Length && (count > 0 ==> count < dest.Length)
    modifies dest
    ensures pos < 0 ==> dest[..] == old(dest[..])
    ensures pos >= 0 ==> forall i :: 0 <= i < Available(disk, pos, count) ==> dest[i] == disk[pos + i]
    ensures pos >= 0 && count > 0 ==> dest[count] == 0
    ensures pos >= 0 ==> forall i :: Available(disk, pos, count) <= i < dest.Length && (count == 0 || i != count) ==> dest[i] == old(dest[i])
  {
    if pos < 0 {
      return;
    }
    var got := ReadBuffer(disk, pos, count, dest);
    if count > 0 {
      dest[count] := 0;
    }
  }

  /** main.cpp's read_number(pos, 2) and main.c's read_word_little_endian agree inside the image. */
  lemma WordReadersAgree(disk: seq<byte>, pos: int)
    requires InImage(disk, pos, 2)
    ensures NumberAt(disk, pos, 2) == Some(ReadWordLittleEndian(disk, pos))
    ensures ReadWordLittleEndian(disk, pos) == disk[pos] as int + 256 * disk[pos + 1] as int
  {
    var s := disk[pos..pos + 2];
    LittleEndianPair(s);
    assert s[0] == disk[pos] && s[1] == disk[pos + 1];
  }
}
