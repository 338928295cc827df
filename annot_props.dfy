/**
 * Properties of what `read_annot` returns, stated on `Labels` (and on the
 * stage functions it is built from) for arbitrary bytes, not only for files
 * written by `AnnotFormat.Encode`: which fields can influence the result,
 * and how much of the file a returned name accounts for.
 */
module AnnotProperties {
  import opened Int32Codec
  import opened PyFile
  import opened Annot

  /**
   * The vertex section is skipped by its declared length alone: after a
   * non-negative count `n` and `8 * n` bytes of pairs, the reader goes on
   * with whatever follows, so the pairs themselves never matter.
   */
  lemma LabelsSkipsVertices(n: int, pairs: seq<byte>, rest: seq<byte>)
    requires IsInt32(n) && n >= 0 && |pairs| == 8 * n
    ensures Labels(EncodeInt32(n) + (pairs + rest)) == ColourTable(rest)
  {
    UnpackEncoded(n, pairs + rest);
    assert (pairs + rest)[n * 8..] == rest;
  }

  /** Two files that differ only in the contents of their vertex sections give the same result. */
  lemma VerticesIgnored(n: int, pairs: seq<byte>, pairs': seq<byte>, rest: seq<byte>)
    requires IsInt32(n) && n >= 0 && |pairs| == 8 * n && |pairs'| == 8 * n
    ensures Labels(EncodeInt32(n) + (pairs + rest)) == Labels(EncodeInt32(n) + (pairs' + rest))
  {
    LabelsSkipsVertices(n, pairs, rest);
    LabelsSkipsVertices(n, pairs', rest);
  }

  /** A negative vertex count makes the skip a seek before the start of the file. */
  lemma NegativeVertexCount(n: int, rest: seq<byte>)
    requires IsInt32(n) && n < 0
    ensures Labels(EncodeInt32(n) + rest) == Err(InvalidSeek)
  {
    UnpackEncoded(n, rest);
  }

  /**
   * A file that ends right after its vertex section is an error (the flag
   * cannot be unpacked), not an empty result.
   */
  lemma EndAfterVertices(n: int, pairs: seq<byte>)
    requires IsInt32(n) && n >= 0 && |pairs| == 8 * n
    ensures Labels(EncodeInt32(n) + pairs) == Err(ShortRead)
  {
    LabelsSkipsVertices(n, pairs, []);
    assert pairs + [] == pairs;
  }

  /**
   * Any has-colour-table flag other than 1 (not only 0) yields the empty
   * list, whatever follows it.
   */
  lemma NoTableUnlessFlagIsOne(n: int, pairs: seq<byte>, flag: int, rest: seq<byte>)
    requires IsInt32(n) && n >= 0 && |pairs| == 8 * n
    requires IsInt32(flag) && flag != 1
    ensures Labels(EncodeInt32(n) + (pairs + (EncodeInt32(flag) + rest))) == Ok([])
  {
    LabelsSkipsVertices(n, pairs, EncodeInt32(flag) + rest);
    UnpackEncoded(flag, rest);
  }

  /** Conversely, a non-empty result means the flag after the vertex section read as 1. */
  lemma NamesNeedFlagOne(data: seq<byte>)
    ensures Labels(data).Ok? && Labels(data).value != [] ==>
      |data| >= 4 && Field(data) >= 0 &&
      var atFlag := Drop(data[4..], Field(data) * 8); |atFlag| >= 4 && Field(atFlag) == 1
  {
    if Labels(data).Ok? && Labels(data).value != [] {
      var atFlag := Drop(data[4..], Field(data) * 8);
      assert ColourTable(atFlag) == Labels(data);
    }
  }

  /**
   * Of the version-or-count field only the sign is used: two values of the
   * same sign give the same header.
   */
  lemma VersionSignOnly(v: int, w: int, rest: seq<byte>)
    requires IsInt32(v) && IsInt32(w) && (v < 0 <==> w < 0)
    ensures TableHeader(EncodeInt32(v) + rest) == TableHeader(EncodeInt32(w) + rest)
  {
    UnpackEncoded(v, rest);
    UnpackEncoded(w, rest);
  }

  /**
   * A negative version field (the "version 2" layout) skips exactly four
   * more bytes before the filename length than a non-negative one does.
   */
  lemma Version2SkipsFour(v: int, extra: seq<byte>, rest: seq<byte>)
    requires IsInt32(v) && v < 0 && |extra| == 4
    ensures TableHeader(EncodeInt32(v) + (extra + rest)) == TableHeader(EncodeInt32(0) + rest)
  {
    UnpackEncoded(v, extra + rest);
    UnpackEncoded(0, rest);
    assert Drop(extra + rest, 4) == rest;
  }

  /** The loop's passes `i` to `n - 1` collect at most `n - i` names, none when `n <= i`. */
  lemma {:induction false} EntriesAtMost(rest: seq<byte>, i: int, n: int)
    ensures |Entries(rest, i, n)| <= if n - i > 0 then n - i else 0
    decreases n - i
  {
    if i < n {
      match EntryAt(rest)
      case None =>
      case Some(entry) =>
        assert Entries(rest, i, n) == [entry.value] + Entries(entry.rest, i + 1, n);
        EntriesAtMost(entry.rest, i + 1, n);
    }
  }

  /**
   * Once the header has been read, the names returned are at most the
   * declared entry count, and none at all when that count is zero or negative.
   */
  lemma LabelsAtMostCount(rest: seq<byte>, count: int, body: seq<byte>)
    requires |rest| >= 4 && Field(rest) == 1
    requires TableHeader(rest[4..]) == Ok(Parsed(count, body))
    ensures ColourTable(rest).Ok?
    ensures |ColourTable(rest).value| <= if count > 0 then count else 0
    ensures count <= 0 ==> ColourTable(rest) == Ok([])
  {
    EntriesAtMost(body, 0, count);
  }

  /** A complete entry takes up at least 24 bytes: two int32 fields, its name bytes, and 16 RGBA bytes. */
  lemma EntryAtConsumes(rest: seq<byte>)
    requires EntryAt(rest).Some?
    ensures |EntryAt(rest).value.rest| + 24 + |EntryAt(rest).value.value| <= |rest|
  {
    var name := NameAt(rest).value;
    StripTrailingNulSpec(name.value);
    assert |rest[8..]| == |name.value| + |name.rest|;
  }

  /** Every returned name is backed by at least 24 bytes of the file, so a short file returns few names. */
  lemma {:induction false} EntriesConsume(rest: seq<byte>, i: int, n: int)
    ensures 24 * |Entries(rest, i, n)| <= |rest|
    decreases n - i
  {
    if i < n {
      match EntryAt(rest)
      case None =>
      case Some(entry) =>
        EntryAtConsumes(rest);
        EntriesConsume(entry.rest, i + 1, n);
    }
  }

  /** A name with no NUL at its end. */
  predicate NoTrailingNul(name: Name) {
    name == [] || name[|name| - 1] != 0
  }

  /** No returned name ends in a NUL byte: the padding is always stripped. */
  lemma {:induction false} EntriesNoTrailingNul(rest: seq<byte>, i: int, n: int)
    ensures forall k :: 0 <= k < |Entries(rest, i, n)| ==> NoTrailingNul(Entries(rest, i, n)[k])
    decreases n - i
  {
    if i < n {
      match EntryAt(rest)
      case None =>
      case Some(entry) =>
        StripTrailingNulSpec(NameAt(rest).value.value);
        EntriesNoTrailingNul(entry.rest, i + 1, n);
        var later := Entries(entry.rest, i + 1, n);
        assert Entries(rest, i, n) == [entry.value] + later;
        forall k | 0 <= k < 1 + |later|
          ensures NoTrailingNul(([entry.value] + later)[k])
        {
          if k > 0 {
            assert ([entry.value] + later)[k] == later[k - 1];
          }
        }
    }
  }
}
