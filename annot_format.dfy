/**
 * The FreeSurfer annotation layout as a writer would produce it, and what the
 * reader of module Annot makes of such files: the names of the entries in
 * file order, the first entries only when fewer are declared, the complete
 * entries before a cut inside an entry, and an exception for a file cut before
 * its entry list starts.
 */
module AnnotFormat {
  import opened Int32Codec
  import opened PyFile
  import opened Annot

  /** One colour-table entry: structure index, name bytes, and its RGBA colour. */
  datatype ColourEntry = ColourEntry(structure: int, name: seq<byte>, red: int, green: int, blue: int, alpha: int)

  /** A whole annotation file. A negative `version` selects the layout that stores `maxStructure`. */
  datatype Annotation = Annotation(
    vertices: seq<(int, int)>,
    version: int,
    maxStructure: int,
    filename: seq<byte>,
    count: int,
    entries: seq<ColourEntry>)

  /** Every integer fits an int32 field and the name length does too. */
  predicate ValidEntry(e: ColourEntry) {
    IsInt32(e.structure) && |e.name| < TwoTo31
    && IsInt32(e.red) && IsInt32(e.green) && IsInt32(e.blue) && IsInt32(e.alpha)
  }

  predicate ValidEntries(es: seq<ColourEntry>) {
    forall k :: 0 <= k < |es| ==> ValidEntry(es[k])
  }

  predicate ValidVertices(vs: seq<(int, int)>) {
    forall k :: 0 <= k < |vs| ==> IsInt32(vs[k].0) && IsInt32(vs[k].1)
  }

  /** Every field of the file fits its int32 encoding. */
  predicate Valid(a: Annotation) {
    |a.vertices| < TwoTo31 && ValidVertices(a.vertices)
    && IsInt32(a.version) && IsInt32(a.maxStructure)
    && |a.filename| < TwoTo31 && IsInt32(a.count)
    && ValidEntries(a.entries)
  }

  /** The (vertex, label) pairs, eight bytes each. */
  function EncodeVertices(vs: seq<(int, int)>): (b: seq<byte>)
    requires ValidVertices(vs)
    ensures |b| == 8 * |vs|
  {
    if vs == [] then []
    else EncodeInt32(vs[0].0) + EncodeInt32(vs[0].1) + EncodeVertices(vs[1..])
  }

  /** The four colour components, sixteen bytes. */
  function EncodeRgba(e: ColourEntry): (b: seq<byte>)
    requires ValidEntry(e)
    ensures |b| == 16
  {
    EncodeInt32(e.red) + EncodeInt32(e.green) + EncodeInt32(e.blue) + EncodeInt32(e.alpha)
  }

  /** One entry: structure index, name length, name, RGBA. */
  function EncodeEntry(e: ColourEntry): (b: seq<byte>)
    requires ValidEntry(e)
    ensures |b| == 24 + |e.name|
  {
    EncodeInt32(e.structure) + (EncodeInt32(|e.name|) + (e.name + EncodeRgba(e)))
  }

  /** The entries one after the other. */
  function EncodeEntries(es: seq<ColourEntry>): (b: seq<byte>)
    requires ValidEntries(es)
  {
    if es == [] then [] else EncodeEntry(es[0]) + EncodeEntries(es[1..])
  }

  /** The names the reader reports for `es`: each name without its trailing NULs, in order. */
  function Names(es: seq<ColourEntry>): (names: seq<Name>)
    ensures |names| == |es|
  {
    if es == [] then [] else [StripTrailingNul(es[0].name)] + Names(es[1..])
  }

  /** The extra int32 of the layout selected by a negative version. */
  function EncodeExtra(a: Annotation): (b: seq<byte>)
    requires Valid(a)
  {
    if a.version < 0 then EncodeInt32(a.maxStructure) else []
  }

  /** The colour-table header that follows the flag. */
  function EncodeTableHeader(a: Annotation): (b: seq<byte>)
    requires Valid(a)
  {
    EncodeInt32(a.version) + (EncodeExtra(a) + (EncodeInt32(|a.filename|) + (a.filename + EncodeInt32(a.count))))
  }

  /** Everything before the first entry, with the has-colour-table flag set to 1. */
  function EncodePrelude(a: Annotation): (b: seq<byte>)
    requires Valid(a)
  {
    EncodeInt32(|a.vertices|) + (EncodeVertices(a.vertices) + (EncodeInt32(1) + EncodeTableHeader(a)))
  }

  /** The whole file. */
  function Encode(a: Annotation): (b: seq<byte>)
    requires Valid(a)
  {
    EncodePrelude(a) + EncodeEntries(a.entries)
  }

  /** Cutting `x + y` inside `y` keeps all of `x`. */
  lemma PrefixSplit(x: seq<byte>, y: seq<byte>, c: nat)
    requires |x| <= c <= |x| + |y|
    ensures (x + y)[..c] == x + y[..c - |x|]
  {
  }

  /** A cut after an encoded field still reads that field, then the cut remainder. */
  lemma FieldOfPrefix(v: int, y: seq<byte>, c: nat)
    requires IsInt32(v) && 4 <= c <= 4 + |y|
    ensures Field((EncodeInt32(v) + y)[..c]) == v
    ensures (EncodeInt32(v) + y)[..c][4..] == y[..c - 4]
  {
    PrefixSplit(EncodeInt32(v), y, c);
    UnpackEncoded(v, y[..c - 4]);
  }

  /** The first entry's encoding, then the rest's. */
  lemma EncodeEntriesCons(es: seq<ColourEntry>, tail: seq<byte>)
    requires ValidEntries(es) && es != []
    ensures ValidEntries(es[1..])
    ensures EncodeEntries(es) + tail == EncodeEntry(es[0]) + (EncodeEntries(es[1..]) + tail)
  {
    AppendAssoc(EncodeEntry(es[0]), EncodeEntries(es[1..]), tail);
  }

  /** The entries' encodings split where the list is split. */
  lemma {:induction false} EncodeEntriesAppend(es: seq<ColourEntry>, k: nat)
    requires ValidEntries(es) && k <= |es|
    ensures ValidEntries(es[..k]) && ValidEntries(es[k..])
    ensures EncodeEntries(es) == EncodeEntries(es[..k]) + EncodeEntries(es[k..])
    decreases k
  {
    if k > 0 {
      EncodeEntriesAppend(es[1..], k - 1);
      var front := es[..k];
      assert front[1..] == es[1..][..k - 1];
      assert es[1..][k - 1..] == es[k..];
      AppendAssoc(EncodeEntry(es[0]), EncodeEntries(front[1..]), EncodeEntries(es[k..]));
    } else {
      assert es[k..] == es;
    }
  }

  /** The names of a prefix are the prefix of the names. */
  lemma {:induction false} NamesPrefix(es: seq<ColourEntry>, k: nat)
    requires k <= |es|
    ensures Names(es[..k]) == Names(es)[..k]
    decreases k
  {
    if k > 0 {
      NamesPrefix(es[1..], k - 1);
      assert es[1..][..k - 1] == es[..k][1..];
    }
  }

  /** A complete entry followed by anything: its stripped name, and the reader resumes at `tail`. */
  lemma EntryAtEncoded(e: ColourEntry, tail: seq<byte>)
    requires ValidEntry(e)
    ensures EntryAt(EncodeEntry(e) + tail) == Some(Parsed(StripTrailingNul(e.name), tail))
  {
    var afterName := EncodeRgba(e) + tail;
    var atName := e.name + afterName;
    var atLen := EncodeInt32(|e.name|) + atName;
    var s := EncodeEntry(e) + tail;
    assert s == EncodeInt32(e.structure) + atLen;
    UnpackEncoded(e.structure, atLen);
    UnpackEncoded(|e.name|, atName);
    assert s[4..][4..] == s[8..];
    assert s[8..] == atName;
    assert ReadBytes(atName, |e.name|) == Ok(Parsed(e.name, afterName));
    assert afterName[16..] == tail;
  }

  /** An entry cut anywhere before its last RGBA byte yields no name. */
  lemma EntryAtTruncated(e: ColourEntry, cut: nat)
    requires ValidEntry(e) && cut < |EncodeEntry(e)|
    ensures EntryAt(EncodeEntry(e)[..cut]) == None
  {
    var atName := e.name + EncodeRgba(e);
    var atLen := EncodeInt32(|e.name|) + atName;
    assert EncodeEntry(e) == EncodeInt32(e.structure) + atLen;
    if cut >= 8 {
      FieldOfPrefix(e.structure, atLen, cut);
      FieldOfPrefix(|e.name|, atName, cut - 4);
      assert |EncodeEntry(e)[..cut][8..]| < |e.name| + 16;
    }
  }

  /** A pass over a complete entry collects its name and leaves the reader after it. */
  lemma EntriesOfEntry(e: ColourEntry, rest: seq<byte>, i: int, n: int)
    requires ValidEntry(e) && i < n
    ensures Entries(EncodeEntry(e) + rest, i, n) == [StripTrailingNul(e.name)] + Entries(rest, i + 1, n)
  {
    EntryAtEncoded(e, rest);
  }

  /**
   * Passes `i` to `n - 1` over complete entries followed by `tail`: the loop
   * collects every entry's name, and stops there, either because the passes
   * run out with the entries or because `tail` does not start with a
   * complete entry.
   */
  lemma {:induction false} EntriesOfEncoded(es: seq<ColourEntry>, tail: seq<byte>, i: int, n: int)
    requires ValidEntries(es) && i + |es| <= n
    requires i + |es| < n ==> EntryAt(tail).None?
    ensures Entries(EncodeEntries(es) + tail, i, n) == Names(es)
    decreases |es|
  {
    if es != [] {
      var rest := EncodeEntries(es[1..]) + tail;
      EncodeEntriesCons(es, tail);
      EntriesOfEntry(es[0], rest, i, n);
      EntriesOfEncoded(es[1..], tail, i + 1, n);
    } else {
      assert EncodeEntries(es) + tail == tail;
    }
  }

  /** The version field, and the extra field a negative version brings, are skipped as the reader does. */
  lemma VersionSkipped(a: Annotation, atFilename: seq<byte>)
    requires Valid(a)
    ensures var s := EncodeInt32(a.version) + (EncodeExtra(a) + atFilename);
            && Field(s) == a.version
            && (if Field(s) < 0 then Drop(s[4..], 4) else s[4..]) == atFilename
  {
    var afterVersion := EncodeExtra(a) + atFilename;
    UnpackEncoded(a.version, afterVersion);
    if a.version < 0 {
      UnpackEncoded(a.maxStructure, atFilename);
    } else {
      assert afterVersion == atFilename;
    }
  }

  /** The filename length and the filename are read as written, leaving what follows them. */
  lemma FilenameSkipped(a: Annotation, atCount: seq<byte>)
    requires Valid(a)
    ensures var atFilename := EncodeInt32(|a.filename|) + (a.filename + atCount);
            && |atFilename| >= 4
            && ReadBytes(atFilename[4..], Field(atFilename)) == Ok(Parsed(a.filename, atCount))
  {
    var atFilenameBytes := a.filename + atCount;
    UnpackEncoded(|a.filename|, atFilenameBytes);
    assert atFilenameBytes[..|a.filename|] == a.filename;
    assert atFilenameBytes[|a.filename|..] == atCount;
  }

  /** The header after the flag parses to the declared entry count, leaving the entries. */
  lemma TableHeaderEncoded(a: Annotation, body: seq<byte>)
    requires Valid(a)
    ensures TableHeader(EncodeTableHeader(a) + body) == Ok(Parsed(a.count, body))
  {
    var atCount := EncodeInt32(a.count) + body;
    var atFilename := EncodeInt32(|a.filename|) + (a.filename + atCount);
    var s := EncodeTableHeader(a) + body;
    assert s == EncodeInt32(a.version) + (EncodeExtra(a) + atFilename) by {
      var lenToEnd := EncodeInt32(|a.filename|) + (a.filename + EncodeInt32(a.count));
      AppendAssoc(EncodeInt32(a.version), EncodeExtra(a) + lenToEnd, body);
      AppendAssoc(EncodeExtra(a), lenToEnd, body);
      AppendAssoc(EncodeInt32(|a.filename|), a.filename + EncodeInt32(a.count), body);
      AppendAssoc(a.filename, EncodeInt32(a.count), body);
    }
    VersionSkipped(a, atFilename);
    FilenameSkipped(a, atCount);
    UnpackEncoded(a.count, body);
  }

  /**
   * A header cut at `c` bytes, seen from where the filename length starts:
   * nothing of it when the cut falls before, else the filename length field
   * cut at `c - |EncodeExtra(a)|`.
   */
  lemma FilenameOfPrefix(a: Annotation, c: nat)
    requires Valid(a) && 4 <= c < |EncodeTableHeader(a)|
    ensures var t := EncodeTableHeader(a)[..c];
            var atFilename := if a.version < 0 then Drop(t[4..], 4) else t[4..];
            && Field(t) == a.version
            && (c < 8 + |EncodeExtra(a)| ==> |atFilename| < 4)
            && (c >= 8 + |EncodeExtra(a)| ==>
                  atFilename == (EncodeInt32(|a.filename|) + (a.filename + EncodeInt32(a.count)))[..c - 4 - |EncodeExtra(a)|])
  {
    var rest := EncodeInt32(|a.filename|) + (a.filename + EncodeInt32(a.count));
    var x := EncodeExtra(a) + rest;
    assert EncodeTableHeader(a) == EncodeInt32(a.version) + x;
    FieldOfPrefix(a.version, x, c);
    if a.version < 0 && c >= 8 {
      FieldOfPrefix(a.maxStructure, rest, c - 4);
    } else if a.version >= 0 {
      assert x == rest;
    }
  }

  /** A header cut anywhere before its last byte makes the reader raise. */
  lemma TableHeaderTruncated(a: Annotation, cut: nat)
    requires Valid(a) && cut < |EncodeTableHeader(a)|
    ensures TableHeader(EncodeTableHeader(a)[..cut]).Err?
  {
    var e := |EncodeExtra(a)|;
    var m := |a.filename|;
    if cut >= 8 + e {
      FilenameOfPrefix(a, cut);
      FieldOfPrefix(m, a.filename + EncodeInt32(a.count), cut - 4 - e);
    } else if cut >= 4 {
      FilenameOfPrefix(a, cut);
    }
  }

  /** Everything before the entries parses; the result is what the entry loop reads from `body`. */
  lemma PreludeEncoded(a: Annotation, body: seq<byte>)
    requires Valid(a)
    ensures Labels(EncodePrelude(a) + body) == Ok(Entries(body, 0, a.count))
  {
    var atTable := EncodeTableHeader(a) + body;
    var atFlag := EncodeInt32(1) + atTable;
    var atVertices := EncodeVertices(a.vertices) + atFlag;
    var flagToEnd := EncodeInt32(1) + EncodeTableHeader(a);
    AppendAssoc(EncodeInt32(|a.vertices|), EncodeVertices(a.vertices) + flagToEnd, body);
    AppendAssoc(EncodeVertices(a.vertices), flagToEnd, body);
    AppendAssoc(EncodeInt32(1), EncodeTableHeader(a), body);
    UnpackEncoded(|a.vertices|, atVertices);
    assert atVertices[|a.vertices| * 8..] == atFlag;
    UnpackEncoded(1, atTable);
    TableHeaderEncoded(a, body);
  }

  /**
   * A file cut at `c` bytes, seen from where the has-colour-table flag
   * starts: nothing of it when the cut falls before, else the flag field
   * and the header cut at `c - 4 - 8 * |a.vertices|`.
   */
  lemma FlagOfPrefix(a: Annotation, c: nat)
    requires Valid(a) && 4 <= c < |EncodePrelude(a)|
    ensures var s := EncodePrelude(a)[..c];
            var v := |a.vertices|;
            && Field(s) == v
            && (c < 8 + 8 * v ==> |Drop(s[4..], v * 8)| < 4)
            && (c >= 8 + 8 * v ==> Drop(s[4..], v * 8) == (EncodeInt32(1) + EncodeTableHeader(a))[..c - 4 - 8 * v])
  {
    var v := |a.vertices|;
    var atFlag := EncodeInt32(1) + EncodeTableHeader(a);
    var atVertices := EncodeVertices(a.vertices) + atFlag;
    assert EncodePrelude(a) == EncodeInt32(v) + atVertices;
    FieldOfPrefix(v, atVertices, c);
    if c >= 8 + 8 * v {
      PrefixSplit(EncodeVertices(a.vertices), atFlag, c - 4);
    }
  }

  /**
   * A file cut anywhere before its first entry, even inside the vertex
   * pairs, makes the reader raise: there is no partial result before the
   * entry loop.
   */
  lemma PreludeTruncated(a: Annotation, cut: nat)
    requires Valid(a) && cut < |EncodePrelude(a)|
    ensures Labels(EncodePrelude(a)[..cut]).Err?
  {
    var v := |a.vertices|;
    if cut >= 4 {
      FlagOfPrefix(a, cut);
      if cut >= 8 + 8 * v {
        FieldOfPrefix(1, EncodeTableHeader(a), cut - 4 - 8 * v);
        TableHeaderTruncated(a, cut - 8 - 8 * v);
      }
    }
  }

  /** Reading back a file whose count matches its entries gives every name, in order. */
  lemma RoundTrip(a: Annotation)
    requires Valid(a) && a.count == |a.entries|
    ensures Labels(Encode(a)) == Ok(Names(a.entries))
  {
    PreludeEncoded(a, EncodeEntries(a.entries));
    EntriesOfEncoded(a.entries, [], 0, a.count);
    assert EncodeEntries(a.entries) + [] == EncodeEntries(a.entries);
  }

  /** A count below the number of entries stored yields only that many names; a negative count none. */
  lemma FewerDeclared(a: Annotation)
    requires Valid(a) && a.count <= |a.entries|
    ensures a.count <= 0 ==> Labels(Encode(a)) == Ok([])
    ensures a.count >= 0 ==> Labels(Encode(a)) == Ok(Names(a.entries)[..a.count])
  {
    PreludeEncoded(a, EncodeEntries(a.entries));
    if a.count >= 0 {
      var es := a.entries;
      EncodeEntriesAppend(es, a.count);
      EntriesOfEncoded(es[..a.count], EncodeEntries(es[a.count..]), 0, a.count);
      NamesPrefix(es, a.count);
    }
  }

  /** The bytes `TruncatedEntry` reads are the start of the file, cut inside entry `k`. */
  lemma TruncatedEntryIsPrefix(a: Annotation, k: nat, cut: nat)
    requires Valid(a) && k < |a.entries| && cut < |EncodeEntry(a.entries[k])|
    ensures ValidEntries(a.entries[..k])
    ensures EncodePrelude(a) + EncodeEntries(a.entries[..k]) + EncodeEntry(a.entries[k])[..cut] < Encode(a)
  {
    var es := a.entries;
    EncodeEntriesAppend(es, k);
    EncodeEntriesCons(es[k..], []);
    assert es[k..][0] == es[k];
    var front := EncodePrelude(a) + EncodeEntries(es[..k]);
    var back := EncodeEntry(es[k]) + EncodeEntries(es[k..][1..]);
    assert EncodeEntries(es[k..]) + [] == EncodeEntries(es[k..]);
    AppendAssoc(EncodePrelude(a), EncodeEntries(es[..k]), EncodeEntries(es[k..]));
    assert Encode(a) == front + back;
    PrefixSplit(front, back, |front| + cut);
    assert back[..cut] == EncodeEntry(es[k])[..cut];
  }

  /**
   * A file that ends inside entry `k`, or (with `cut == 0`) just before it,
   * when more than `k` entries are declared: the names of the `k` complete
   * entries before it.
   */
  lemma TruncatedEntry(a: Annotation, k: nat, cut: nat)
    requires Valid(a) && k < |a.entries| && k < a.count
    requires cut < |EncodeEntry(a.entries[k])|
    ensures Labels(EncodePrelude(a) + EncodeEntries(a.entries[..k]) + EncodeEntry(a.entries[k])[..cut])
            == Ok(Names(a.entries[..k]))
  {
    var es := a.entries[..k];
    var partial := EncodeEntry(a.entries[k])[..cut];
    assert ValidEntries(es);
    PreludeEncoded(a, EncodeEntries(es) + partial);
    AppendAssoc(EncodePrelude(a), EncodeEntries(es), partial);
    EntryAtTruncated(a.entries[k], cut);
    EntriesOfEncoded(es, partial, 0, a.count);
  }
}
