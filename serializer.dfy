/**
 * serializer-deserializer.c: a sorted list is saved as text, one value per
 * line, and loaded back by reading the text with `fgets` into a line buffer
 * of MAX_LINE_LENGTH characters, trimming the line end in place, skipping
 * blank lines and inserting every other line with sorted insert.
 *
 * Files are parameters: the text a file holds (None when `fopen` fails) and,
 * for writing, whether `fopen` succeeds. The written text is returned.
 */
module Serializer {
  import opened Wrappers
  import opened CStrings
  import opened SortedSeqs
  import opened SortedLists

  /** MAX_LINE_LENGTH: the size of the line buffer handed to fgets. */
  const MaxLineLength: nat := 1024

  /** The characters fgets can store before the terminating NUL. */
  const LineRoom: nat := MaxLineLength - 1

  /**
   * The characters one fgets call takes from `rest` when it may store `room`
   * of them: up to and including the first newline, at most `room`.
   */
  function FgetsChunk(rest: string, room: nat): (chunk: string)
    ensures chunk <= rest
    ensures |chunk| <= room
    ensures rest != [] && room > 0 ==> chunk != []
    ensures forall i :: 0 <= i < |chunk| - 1 ==> chunk[i] != '\n'
    ensures |chunk| < room && chunk != rest ==> chunk != [] && chunk[|chunk| - 1] == '\n'
  {
    if rest == [] || room == 0 then []
    else if rest[0] == '\n' then ['\n']
    else [rest[0]] + FgetsChunk(rest[1..], room - 1)
  }

  /** The successive pieces the fgets loop reads from a file's text, up to the end of file. */
  function Chunks(text: string): (chunks: seq<string>)
    ensures forall i :: 0 <= i < |chunks| ==> 0 < |chunks[i]| <= LineRoom
    decreases |text|
  {
    if text == [] then []
    else
      var chunk := FgetsChunk(text, LineRoom);
      [chunk] + Chunks(text[|chunk|..])
  }

  /** The pieces laid end to end. */
  function Joined(chunks: seq<string>): string
  {
    if chunks == [] then [] else chunks[0] + Joined(chunks[1..])
  }

  /** The fgets loop reads the whole text, in order, and nothing else. */
  lemma {:induction false} ChunksCoverText(text: string)
    ensures Joined(Chunks(text)) == text
    decreases |text|
  {
    if text != [] {
      var chunk := FgetsChunk(text, LineRoom);
      ChunksCoverText(text[|chunk|..]);
      assert text == chunk + text[|chunk|..];
    }
  }

  /** The characters the trim loop removes from the end of a line. */
  predicate IsTrailingSpace(c: char)
  {
    c == '\n' || c == '\r' || c == ' ' || c == '\t'
  }

  /** A line without its trailing newlines, carriage returns, spaces and tabs. */
  function TrimEnd(s: string): (t: string)
    ensures t <= s
    ensures t == [] || !IsTrailingSpace(t[|t| - 1])
    ensures forall i :: |t| <= i < |s| ==> IsTrailingSpace(s[i])
  {
    if s != [] && IsTrailingSpace(s[|s| - 1]) then TrimEnd(s[..|s| - 1]) else s
  }

  /** The values deserializeSortedList inserts, in file order: each trimmed C string that is not blank. */
  function KeptLines(chunks: seq<string>): (kept: seq<string>)
    ensures |kept| <= |chunks|
    ensures forall i :: 0 <= i < |kept| ==> kept[i] != [] && Nul !in kept[i]
  {
    if chunks == [] then []
    else
      var line := TrimEnd(CString(chunks[0]));
      (if line == [] then [] else [line]) + KeptLines(chunks[1..])
  }

  /** The contents of the list deserializeSortedList builds from a file holding `text`. */
  function Deserialized(text: string): seq<string>
  {
    InsertAll(KeptLines(Chunks(text)))
  }

  /**
   * Whatever the order of the lines, the loaded list is sorted and holds each
   * non-blank trimmed line once; so its size is the number of non-blank lines.
   */
  lemma DeserializedSortsLines(text: string)
    ensures Sorted(Deserialized(text))
    ensures multiset(Deserialized(text)) == multiset(KeptLines(Chunks(text)))
    ensures |Deserialized(text)| == |KeptLines(Chunks(text))|
  {
    InsertAllSortsValues(KeptLines(Chunks(text)));
  }

  /** A value that survives being written as a line and read back. */
  predicate Serializable(v: string)
  {
    && v != []
    && Nul !in v
    && '\n' !in v
    && !IsTrailingSpace(v[|v| - 1])
    && |v| < LineRoom
  }

  /** A line shorter than the room left is read by one fgets call, newline included. */
  lemma {:induction false} ChunkOfLine(v: string, rest: string, room: nat)
    requires '\n' !in v && |v| < room
    ensures FgetsChunk(v + "\n" + rest, room) == v + "\n"
  {
    if v != [] {
      assert (v + "\n" + rest)[1..] == v[1..] + "\n" + rest;
      ChunkOfLine(v[1..], rest, room - 1);
    }
  }

  /** A serializable value's line is trimmed back to the value. */
  lemma TrimOfLine(v: string)
    requires Serializable(v)
    ensures TrimEnd(CString(v + "\n")) == v
  {
    assert Nul !in v + "\n";
    CStringOfNulFree(v + "\n");
    assert (v + "\n")[..|v|] == v;
  }

  /** Reading back the text of serializable values keeps exactly those values, in order. */
  lemma {:induction false} KeptLinesOfLines(values: seq<string>)
    requires forall i :: 0 <= i < |values| ==> Serializable(values[i])
    ensures KeptLines(Chunks(Lines(values))) == values
  {
    if values != [] {
      var v, rest := values[0], values[1..];
      ChunkOfLine(v, Lines(rest), LineRoom);
      assert Lines(values) == v + "\n" + Lines(rest);
      assert Lines(values)[|v + "\n"|..] == Lines(rest);
      TrimOfLine(v);
      KeptLinesOfLines(rest);
    }
  }

  /**
   * The round trip: loading the text a sorted list of serializable values
   * is saved as rebuilds the same values in the same order (an empty list
   * gives an empty file and loads back empty).
   */
  lemma RoundTrip(values: seq<string>)
    requires Sorted(values)
    requires forall i :: 0 <= i < |values| ==> Serializable(values[i])
    ensures Deserialized(Lines(values)) == values
  {
    KeptLinesOfLines(values);
    InsertAllOfSorted(values);
  }

  /**
   * serializeSortedList: -1 without touching any file for a NULL list, a
   * NULL file name or a file that cannot be opened for writing; otherwise 0
   * and the file holds every value followed by a newline, in list order
   * (an empty list leaves an empty file).
   */
  method SerializeSortedList(list: SortedList?, filename: Option<string>, opens: bool)
    returns (status: int, written: Option<string>)
    requires list != null ==> list.Valid()
    ensures status == (if list == null || filename.None? || !opens then -1 else 0)
    ensures written.None? <==> status == -1
    ensures written.Some? ==> list != null && written.value == Lines(list.Contents)
  {
    if list == null || filename.None? || !opens {
      return -1, None;
    }
    var text := "";
    if list.first == null {
      return 0, Some(text);
    }
    var current := list.first;
    ghost var i := 0;
    while current != null
      invariant 0 <= i <= |list.nodes|
      invariant current == (if i < |list.nodes| then list.nodes[i] else null)
      invariant text + Lines(list.Contents[i..]) == Lines(list.Contents)
      decreases |list.nodes| - i
    {
      LinesStep(text, list.Contents, i);
      text := text + current.value + "\n";
      current := current.next;
      i := i + 1;
    }
    return 0, Some(text);
  }

  /**
   * One fgets call into the line buffer: the next chunk of the text at
   * `pos`, then a terminating NUL. Returns how many characters it consumed.
   */
  method Fgets(text: string, pos: nat, buffer: array<char>) returns (n: nat)
    requires pos < |text| && buffer.Length == MaxLineLength
    modifies buffer
    ensures n == |FgetsChunk(text[pos..], LineRoom)| && 0 < n && pos + n <= |text|
    ensures buffer[..n] == FgetsChunk(text[pos..], LineRoom) && buffer[n] == Nul
  {
    var chunk := FgetsChunk(text[pos..], LineRoom);
    n := |chunk|;
    forall i | 0 <= i < n {
      buffer[i] := chunk[i];
    }
    buffer[n] := Nul;
  }

  /**
   * The trim loop of deserializeSortedList: while the character before
   * `len` is a newline, carriage return, space or tab, overwrite it with NUL
   * and step back. The rest of the buffer is left alone.
   */
  method TrimLine(buffer: array<char>, len0: nat) returns (len: nat)
    requires len0 < buffer.Length
    modifies buffer
    ensures len <= len0
    ensures buffer[..len] == TrimEnd(old(buffer[..len0]))
    ensures forall i :: len <= i < len0 ==> buffer[i] == Nul
    ensures buffer[len0..] == old(buffer[len0..])
  {
    ghost var line := buffer[..len0];
    len := len0;
    while len > 0 && IsTrailingSpace(buffer[len - 1])
      invariant len <= len0
      invariant buffer[..len] == line[..len]
      invariant TrimEnd(line) == TrimEnd(line[..len])
      invariant forall i :: len <= i < len0 ==> buffer[i] == Nul
      invariant buffer[len0..] == old(buffer[len0..])
      decreases len
    {
      assert line[..len][..len - 1] == line[..len - 1];
      buffer[len - 1] := Nul;
      len := len - 1;
    }
  }

  /** A string whose first NUL is at k denotes its first k characters. */
  lemma CStringUpTo(s: string, k: nat)
    requires k < |s| && s[k] == Nul && Nul !in s[..k]
    ensures CString(s) == s[..k]
  {
    StrlenUpTo(s, k);
  }

  lemma {:induction false} StrlenUpTo(s: string, k: nat)
    requires k < |s| && s[k] == Nul && Nul !in s[..k]
    ensures Strlen(s) == k
  {
    if k > 0 {
      assert s[0] == s[..k][0];
      assert s[1..][..k - 1] == s[..k][1..];
      StrlenUpTo(s[1..], k - 1);
    }
  }

  /**
   * The body of the fgets loop up to the blank-line test: read a chunk,
   * take its strlen and trim it. Afterwards the buffer denotes the trimmed
   * line, which has `len` characters.
   */
  method ReadLine(text: string, pos: nat, buffer: array<char>) returns (n: nat, len: nat)
    requires pos < |text| && buffer.Length == MaxLineLength
    modifies buffer
    ensures n == |FgetsChunk(text[pos..], LineRoom)| && 0 < n && pos + n <= |text|
    ensures CString(buffer[..]) == TrimEnd(CString(FgetsChunk(text[pos..], LineRoom)))
    ensures len == |CString(buffer[..])|
  {
    n := Fgets(text, pos, buffer);
    ghost var chunk := FgetsChunk(text[pos..], LineRoom);
    assert buffer[..][..n] == chunk;
    var length := Strlen(buffer[..]);
    assert CString(chunk) == buffer[..length] by {
      if Nul in chunk {
        assert chunk[Strlen(buffer[..])] == Nul;
        StrlenUpTo(chunk, length);
      } else {
        CStringOfNulFree(chunk);
        StrlenUpTo(buffer[..], n);
      }
    }
    len := TrimLine(buffer, length);
    assert buffer[..][..len] == buffer[..len];
    if len < length {
      CStringUpTo(buffer[..], len);
    } else {
      CStringUpTo(buffer[..], length);
    }
  }

  /** How the loop over the text advances: one chunk off the front. */
  lemma ChunksStep(text: string, pos: nat, next: nat)
    requires pos < |text| && next == pos + |FgetsChunk(text[pos..], LineRoom)|
    ensures Chunks(text[pos..]) == [FgetsChunk(text[pos..], LineRoom)] + Chunks(text[next..])
  {
    assert text[pos..][next - pos..] == text[next..];
  }

  /** KeptLines on a chunk followed by more chunks. */
  lemma KeptLinesCons(chunk: string, chunks: seq<string>)
    ensures var line := TrimEnd(CString(chunk));
            KeptLines([chunk] + chunks) == (if line == [] then [] else [line]) + KeptLines(chunks)
  {
    assert ([chunk] + chunks)[1..] == chunks;
  }

  /**
   * The lines still to be kept, one chunk further on: `kept` gains the
   * chunk's trimmed line unless it is blank.
   */
  lemma KeptLinesStep(text: string, pos: nat, next: nat, line: string, done: seq<string>)
    returns (kept: seq<string>)
    requires pos < |text| && next == pos + |FgetsChunk(text[pos..], LineRoom)|
    requires line == TrimEnd(CString(FgetsChunk(text[pos..], LineRoom)))
    ensures kept == (if line == [] then done else done + [line])
    ensures kept + KeptLines(Chunks(text[next..])) == done + KeptLines(Chunks(text[pos..]))
  {
    ChunksStep(text, pos, next);
    var chunks := Chunks(text[next..]);
    var rest := KeptLines(chunks);
    KeptLinesCons(FgetsChunk(text[pos..], LineRoom), chunks);
    kept := KeepLine(done, line, rest);
  }

  /** Keeping a line (unless blank) before the rest. */
  lemma KeepLine(done: seq<string>, line: string, rest: seq<string>) returns (kept: seq<string>)
    ensures kept == (if line == [] then done else done + [line])
    ensures kept + rest == done + ((if line == [] then [] else [line]) + rest)
  {
    if line != [] {
      kept := done + [line];
      assert done + ([line] + rest) == kept + rest;
    } else {
      kept := done;
      assert [] + rest == rest;
    }
  }

  lemma NothingLeft(text: string, pos: nat, done: seq<string>)
    requires pos == |text| && done + KeptLines(Chunks(text[pos..])) == KeptLines(Chunks(text))
    ensures done == KeptLines(Chunks(text))
  {
    assert text[pos..] == [];
    assert done + [] == done;
  }

  lemma InsertAllStep(done: seq<string>, line: string)
    ensures InsertAll(done + [line]) == InsertSorted(InsertAll(done), line)
  {
    assert (done + [line])[..|done|] == done;
  }

  /**
   * One turn of the fgets loop: read the next line into the buffer, trim it
   * and, unless it is blank, insert it. Returns where the next fgets starts;
   * `kept` extends `done` by the line when it was inserted.
   */
  method LoadLine(list: SortedList, buffer: array<char>, text: string, pos: nat, ghost done: seq<string>)
    returns (next: nat, ghost kept: seq<string>)
    requires pos < |text| && buffer.Length == MaxLineLength
    requires list.Valid() && buffer !in list.Repr && list.Contents == InsertAll(done)
    modifies buffer, list.Repr
    ensures pos < next <= |text|
    ensures list.Valid() && fresh(list.Repr - old(list.Repr)) && buffer !in list.Repr
    ensures list.Contents == InsertAll(kept)
    ensures kept + KeptLines(Chunks(text[next..])) == done + KeptLines(Chunks(text[pos..]))
  {
    var n, len := ReadLine(text, pos, buffer);
    assert list.Valid() && list.Contents == InsertAll(done);
    next := pos + n;
    ghost var line := CString(buffer[..]);
    kept := KeptLinesStep(text, pos, next, line, done);
    if len != 0 {
      InsertLine(list, buffer, line, done);
    }
  }

  /** The insert call of the fgets loop: the line in the buffer joins the values inserted so far. */
  method InsertLine(list: SortedList, buffer: array<char>, ghost line: string, ghost done: seq<string>)
    requires list.Valid() && buffer !in list.Repr && list.Contents == InsertAll(done)
    requires line == CString(buffer[..])
    modifies list.Repr
    ensures list.Valid() && fresh(list.Repr - old(list.Repr)) && buffer !in list.Repr
    ensures list.Contents == InsertAll(done + [line])
  {
    var status := InsertNodeInSortedList(list, Some(buffer[..]));
    InsertAllStep(done, line);
  }

  /**
   * deserializeSortedList: NULL for a NULL file name or a file that cannot
   * be opened; otherwise a fresh list holding, in sorted order, every line
   * of the file that is not blank once its end is trimmed.
   */
  method DeserializeSortedList(filename: Option<string>, file: Option<string>) returns (list: SortedList?)
    ensures list == null <==> filename.None? || file.None?
    ensures list != null ==> list.Valid() && fresh(list.Repr) && list.Contents == Deserialized(file.value)
  {
    if filename.None? || file.None? {
      return null;
    }
    var text := file.value;
    list := new SortedList();
    var buffer := new char[MaxLineLength];
    var pos := 0;
    ghost var done: seq<string> := [];
    assert text[0..] == text;
    while pos < |text|
      invariant pos <= |text|
      invariant list.Valid() && fresh(list.Repr) && buffer !in list.Repr
      invariant done + KeptLines(Chunks(text[pos..])) == KeptLines(Chunks(text))
      invariant list.Contents == InsertAll(done)
      decreases |text| - pos
    {
      pos, done := LoadLine(list, buffer, text, pos, done);
    }
    NothingLeft(text, pos, done);
  }
}
