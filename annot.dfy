/**
 * The colour-table name reader of tools/extract_annot_labels.py (`read_annot`).
 *
 * An annotation file is, field by field (every integer a big-endian int32):
 *   vertex count n, then n (vertex, label) pairs;
 *   the has-colour-table flag;
 *   a version-or-count field, followed by one more int32 when it is negative;
 *   a filename length and that many filename bytes;
 *   an entry count, then per entry: structure index, name length, name
 *   bytes, and the four int32 colour components red, green, blue, alpha.
 *
 * `Labels` states what the reader returns as a function of the file's bytes,
 * built from one function per stage of the reader (`ColourTable`,
 * `TableHeader`, `Entries`, `EntryAt`, `NameAt`). `ReadAnnot` is the reader
 * itself, a cursor walking a `BinaryFile`; it and the methods it is split into
 * (one per stage) are proved to return exactly what those functions say.
 */
module Annot {
  import opened Int32Codec
  import opened PyFile

  /** A structure name as the bytes the file stores for it. */
  type Name = seq<byte>

  datatype Option<T> = None | Some(value: T)

  /** A name with its trailing NUL padding removed (`rstrip('\x00')`). */
  function StripTrailingNul(s: seq<byte>): (r: Name)
    decreases |s|
  {
    if |s| > 0 && s[|s| - 1] == 0 then StripTrailingNul(s[..|s| - 1]) else s
  }

  /**
   * `StripTrailingNul` removes exactly the trailing NULs: it keeps a prefix,
   * everything it removed is NUL, and what it keeps does not end in NUL.
   */
  lemma {:induction false} StripTrailingNulSpec(s: seq<byte>)
    ensures |StripTrailingNul(s)| <= |s| && StripTrailingNul(s) == s[..|StripTrailingNul(s)|]
    ensures forall j :: |StripTrailingNul(s)| <= j < |s| ==> s[j] == 0
    ensures StripTrailingNul(s) == [] || StripTrailingNul(s)[|StripTrailingNul(s)| - 1] != 0
    decreases |s|
  {
    if |s| > 0 && s[|s| - 1] == 0 {
      StripTrailingNulSpec(s[..|s| - 1]);
    }
  }

  /**
   * The first reads of an entry on the remaining bytes `rest`: the structure
   * index, the name length, and the name's raw bytes, with what follows them;
   * None when an int32 is short or the name length is below -1.
   */
  function NameAt(rest: seq<byte>): (r: Option<Parsed<seq<byte>>>)
  {
    if |rest| < 8 then None
    else
      match ReadBytes(rest[8..], Field(rest[4..]))
      case Err(_) => None
      case Ok(name) => Some(name)
  }

  /**
   * One pass of the entry loop's body on the remaining bytes `rest`: the
   * entry's name and what follows it, or None when the body raises (a short
   * int32 or a name length below -1) or finds fewer than 16 RGBA bytes.
   */
  function EntryAt(rest: seq<byte>): (r: Option<Parsed<Name>>)
  {
    match NameAt(rest)
    case None => None
    case Some(name) =>
      if |name.rest| < 16 then None
      else Some(Parsed(StripTrailingNul(name.value), name.rest[16..]))
  }

  /**
   * The names passes `i`, `i + 1`, ..., `n - 1` of the entry loop collect
   * from `rest`: entry after entry, until the passes run out or an entry is
   * incomplete.
   */
  function Entries(rest: seq<byte>, i: int, n: int): (names: seq<Name>)
    decreases n - i
  {
    if i >= n then []
    else
      match EntryAt(rest)
      case None => []
      case Some(entry) => [entry.value] + Entries(entry.rest, i + 1, n)
  }

  /** The loop's step: a complete entry adds its name; the next pass reads on after it. */
  lemma EntriesStep(table: seq<Name>, done: seq<Name>, rest: seq<byte>, i: int, n: int, name: Name, rest': seq<byte>)
    requires done + Entries(rest, i, n) == table
    requires i < n && EntryAt(rest) == Some(Parsed(name, rest'))
    ensures (done + [name]) + Entries(rest', i + 1, n) == table
  {
    AppendAssoc(done, [name], Entries(rest', i + 1, n));
  }

  /** Concatenation is associative. */
  lemma AppendAssoc<T>(a: seq<T>, b: seq<T>, c: seq<T>)
    ensures (a + b) + c == a + (b + c)
  {
  }

  /** The loop's exit: an incomplete entry ends the list. */
  lemma EntriesStop(table: seq<Name>, done: seq<Name>, rest: seq<byte>, i: int, n: int)
    requires done + Entries(rest, i, n) == table
    requires i < n && EntryAt(rest).None?
    ensures done == table
  {
    assert Entries(rest, i, n) == [];
  }

  /**
   * The colour-table header after the flag: version-or-count (and, when it is
   * negative, the four bytes after it), the filename, and the entry count,
   * returned with the bytes that follow it.
   */
  function TableHeader(rest: seq<byte>): (r: Result<Parsed<int>>)
    ensures r.Err? ==> r.error in {ShortRead, InvalidReadLength}
    ensures r == Err(InvalidReadLength) <==>
      |rest| >= 4 &&
      var atFilename := if Field(rest) < 0 then Drop(rest[4..], 4) else rest[4..];
      |atFilename| >= 4 && Field(atFilename) < -1
  {
    if |rest| < 4 then Err(ShortRead)
    else
      var atFilename := if Field(rest) < 0 then Drop(rest[4..], 4) else rest[4..];
      if |atFilename| < 4 then Err(ShortRead)
      else
        var filename :- ReadBytes(atFilename[4..], Field(atFilename));
        var atCount := filename.rest;
        if |atCount| < 4 then Err(ShortRead)
        else Ok(Parsed(Field(atCount), atCount[4..]))
  }

  /** What `read_annot` returns from the has-colour-table flag on. */
  function ColourTable(rest: seq<byte>): (r: Result<seq<Name>>)
    ensures r.Err? ==> r.error in {ShortRead, InvalidReadLength}
    ensures r.Ok? && r.value != [] ==> |rest| >= 4 && Field(rest) == 1
  {
    if |rest| < 4 then Err(ShortRead)
    else if Field(rest) != 1 then Ok([])
    else
      var table :- TableHeader(rest[4..]);
      Ok(Entries(table.rest, 0, table.value))
  }

  /** What `read_annot` returns for a file holding `data`, or the exception it raises. */
  function Labels(data: seq<byte>): (r: Result<seq<Name>>)
    ensures r == Err(InvalidSeek) <==> |data| >= 4 && Field(data) < 0
  {
    if |data| < 4 then Err(ShortRead)
    else if Field(data) < 0 then Err(InvalidSeek)
    else ColourTable(Drop(data[4..], Field(data) * 8))
  }

  /** `read_annot` over the bytes of the file. */
  method ReadAnnot(data: seq<byte>) returns (r: Result<seq<Name>>)
    ensures r == Labels(data)
  {
    var f := new BinaryFile(data);
    assert f.Remaining() == data;
    var numVertices :- f.ReadInt32();
    ghost var atVertices := f.Remaining();
    var newPos :- f.Seek(numVertices * 8);
    assert numVertices >= 0 && atVertices == data[4..];
    assert f.Remaining() == Drop(atVertices, numVertices * 8);
    assert Labels(data) == ColourTable(f.Remaining());

    var hasColortable :- f.ReadInt32();
    if hasColortable != 1 {
      return Ok([]);
    }

    var numEntries :- ReadTableHeader(f);
    var labels := ReadEntries(f, numEntries);
    return Ok(labels);
  }

  /**
   * The colour-table header: version or count, filename, entry count. On
   * failure the cursor is left unstated: the exception ends `read_annot`,
   * and the file is closed unread.
   */
  method ReadTableHeader(f: BinaryFile) returns (r: Result<int>)
    modifies f
    ensures r.Ok? <==> TableHeader(old(f.Remaining())).Ok?
    ensures r.Ok? ==> TableHeader(old(f.Remaining())) == Ok(Parsed(r.value, f.Remaining()))
    ensures r.Err? ==> r.error == TableHeader(old(f.Remaining())).error
  {
    ghost var header := f.Remaining();
    var versionOrEntries :- f.ReadInt32();
    if versionOrEntries < 0 {
      var maxStructure := f.Read(4);
    }

    var filenameLen :- f.ReadInt32();
    var filename :- f.Read(filenameLen);
    r := f.ReadInt32();
  }

  /**
   * The entry loop, `for i in range(numEntries)`, leaving at the first
   * incomplete entry. Where it leaves the cursor is not stated: `read_annot`
   * returns right after the loop without reading the file again.
   */
  method ReadEntries(f: BinaryFile, numEntries: int) returns (labels: seq<Name>)
    modifies f
    ensures labels == Entries(old(f.Remaining()), 0, numEntries)
  {
    ghost var all := Entries(f.Remaining(), 0, numEntries);
    labels := [];
    var i := 0;
    while i < numEntries
      invariant labels + Entries(f.Remaining(), i, numEntries) == all
    {
      ghost var here := f.Remaining();
      var entry := ReadEntry(f);
      if entry.None? {
        EntriesStop(all, labels, here, i, numEntries);
        break;
      }
      EntriesStep(all, labels, here, i, numEntries, entry.value, f.Remaining());
      labels := labels + [entry.value];
      i := i + 1;
    }
  }

  /**
   * The body of the entry loop, the `try` block: the entry's name, or None
   * when a read inside it raises or the RGBA bytes are incomplete. The
   * cursor after a failed pass is not stated, because the loop stops there.
   */
  method ReadEntry(f: BinaryFile) returns (entry: Option<Name>)
    modifies f
    ensures entry.None? <==> EntryAt(old(f.Remaining())).None?
    ensures entry.Some? ==> EntryAt(old(f.Remaining())) == Some(Parsed(entry.value, f.Remaining()))
  {
    var nameBytes := ReadName(f);
    if nameBytes.None? {
      return None;
    }
    var name := StripTrailingNul(nameBytes.value);
    ghost var atRgba := f.Remaining();
    var rgba := f.Read(16);
    if |rgba.value| < 16 {
      return None;
    }
    assert f.Remaining() == atRgba[16..];
    return Some(name);
  }

  /**
   * The structure index, name length and name reads of an entry. The cursor
   * after a failed read is not stated, because the loop stops there.
   */
  method ReadName(f: BinaryFile) returns (name: Option<seq<byte>>)
    modifies f
    ensures name.None? <==> NameAt(old(f.Remaining())).None?
    ensures name.Some? ==> NameAt(old(f.Remaining())) == Some(Parsed(name.value, f.Remaining()))
  {
    ghost var here := f.Remaining();
    var structure := f.ReadInt32();
    if structure.Err? {
      return None;
    }
    var nameLen := f.ReadInt32();
    if nameLen.Err? {
      return None;
    }
    assert here[4..][4..] == here[8..];
    var nameBytes := f.Read(nameLen.value);
    if nameBytes.Err? {
      return None;
    }
    return Some(nameBytes.value);
  }
}
