/**
 * The parts of Python's binary file object and `struct` module that the
 * annotation reader relies on, over an in-memory byte sequence.
 *
 * Reads are first described on the bytes that remain after the cursor
 * (`ReadBytes`, `UnpackInt32`, `Field`); the class `BinaryFile` then keeps a cursor
 * position, which a relative seek may move past the end, and is proved to
 * behave as those functions say.
 */
module PyFile {
  import opened Int32Codec

  /** The exceptions the reader can raise. */
  datatype Error =
    | ShortRead          // struct.error: unpacking fewer than four bytes
    | InvalidSeek        // OSError: a seek to a negative position
    | InvalidReadLength  // ValueError: read(n) with n < -1

  /** A value, or the exception that replaced it. */
  datatype Result<T> = Ok(value: T) | Err(error: Error) {
    predicate IsFailure() {
      Err?
    }

    function PropagateFailure<U>(): Result<U>
      requires Err?
    {
      Err(error)
    }

    function Extract(): T
      requires Ok?
    {
      value
    }
  }

  /** What a read produced, and the bytes that remain after it. */
  datatype Parsed<T> = Parsed(value: T, rest: seq<byte>)

  /** `rest` with its first `n` bytes skipped, or nothing if it is shorter. */
  function Drop(rest: seq<byte>, n: nat): (r: seq<byte>)
    ensures |r| == if n <= |rest| then |rest| - n else 0
    ensures r == rest[|rest| - |r|..]
  {
    if n <= |rest| then rest[n..] else []
  }

  /**
   * `f.read(n)` on the remaining bytes `rest`: at most `n` bytes, fewer at the
   * end of the file, everything for `n == -1`, and a ValueError below that.
   */
  function ReadBytes(rest: seq<byte>, n: int): (r: Result<Parsed<seq<byte>>>)
    ensures r.Ok? <==> n >= -1
    ensures r.Ok? ==> r.value.value + r.value.rest == rest
    ensures r.Ok? && 0 <= n <= |rest| ==> |r.value.value| == n
    ensures r.Ok? && (n == -1 || n >= |rest|) ==> r.value.rest == []
  {
    if n < -1 then Err(InvalidReadLength)
    else
      var k := if n == -1 || n > |rest| then |rest| else n;
      Ok(Parsed(rest[..k], rest[k..]))
  }

  /** `struct.unpack('>i', b)[0]`, which fails unless `b` holds exactly four bytes. */
  function UnpackInt32(b: seq<byte>): (r: Result<int>)
    ensures r.Ok? <==> |b| == 4
    ensures r.Ok? ==> IsInt32(r.value) && EncodeInt32(r.value) == b
    ensures r.Err? ==> r.error == ShortRead
  {
    if |b| != 4 then Err(ShortRead)
    else
      EncodeDecode(b);
      Ok(DecodeInt32(b))
  }

  /** The int32 field at the start of `rest`. */
  function Field(rest: seq<byte>): (v: int)
    requires |rest| >= 4
    ensures IsInt32(v)
  {
    DecodeInt32(rest[..4])
  }

  /** The first four bytes of `EncodeInt32(v) + tail` unpack to `v`; the rest is `tail`. */
  lemma UnpackEncoded(v: int, tail: seq<byte>)
    requires IsInt32(v)
    ensures (EncodeInt32(v) + tail)[..4] == EncodeInt32(v)
    ensures (EncodeInt32(v) + tail)[4..] == tail
    ensures Field(EncodeInt32(v) + tail) == v
  {
    var s := EncodeInt32(v) + tail;
    assert s[..4] == EncodeInt32(v) && s[4..] == tail;
    DecodeEncode(v);
  }

  /** Reading `k` bytes at `start` leaves the suffix after them. */
  lemma SplitSuffix(s: seq<byte>, start: nat, k: nat)
    requires start + k <= |s|
    ensures s[start..][..k] == s[start..start + k]
    ensures s[start..][k..] == s[start + k..]
  {
  }

  /** A file opened for binary reading: its bytes and the cursor position. */
  class BinaryFile {
    const data: seq<byte>
    var pos: nat

    constructor (data: seq<byte>)
      ensures this.data == data && pos == 0
    {
      this.data := data;
      pos := 0;
    }

    /** The bytes a read would see: none once the cursor is at or past the end. */
    function Remaining(): (r: seq<byte>)
      reads this
    {
      if pos <= |data| then data[pos..] else []
    }

    /** `f.read(n)`: returns what `ReadBytes` returns and advances past it. */
    method Read(n: int) returns (r: Result<seq<byte>>)
      modifies this
      ensures n < -1 ==> r == Err(InvalidReadLength) && pos == old(pos)
      ensures n >= -1 ==> r.Ok? && ReadBytes(old(Remaining()), n) == Ok(Parsed(r.value, Remaining()))
      ensures n >= -1 ==> pos == old(pos) + |r.value|
    {
      if n < -1 {
        return Err(InvalidReadLength);
      }
      var start := if pos <= |data| then pos else |data|;
      var avail := |data| - start;
      var k := if n == -1 || n > avail then avail else n;
      r := Ok(data[start..start + k]);
      assert Remaining() == data[start..];
      SplitSuffix(data, start, k);
      pos := pos + k;
      assert Remaining() == data[start + k..];
    }

    /**
     * `struct.unpack('>i', f.read(4))[0]`: the field at the cursor, or a
     * struct.error when fewer than four bytes remain (which the read consumed).
     */
    method ReadInt32() returns (r: Result<int>)
      modifies this
      ensures |old(Remaining())| >= 4 ==> r == Ok(Field(old(Remaining()))) && Remaining() == old(Remaining())[4..]
      ensures |old(Remaining())| >= 4 ==> pos == old(pos) + 4
      ensures |old(Remaining())| < 4 ==> r == Err(ShortRead) && Remaining() == []
    {
      ghost var before := Remaining();
      var b := Read(4);
      r := UnpackInt32(b.value);
      assert |before| >= 4 ==> b.value == before[..4];
    }

    /** `f.seek(offset, 1)`: a relative move that may pass the end but not the start. */
    method Seek(offset: int) returns (r: Result<nat>)
      modifies this
      ensures old(pos) + offset < 0 ==> r == Err(InvalidSeek) && pos == old(pos)
      ensures old(pos) + offset >= 0 ==> r == Ok(old(pos) + offset) && pos == old(pos) + offset
      ensures offset >= 0 ==> Remaining() == Drop(old(Remaining()), offset)
    {
      if pos + offset < 0 {
        return Err(InvalidSeek);
      }
      pos := pos + offset;
      r := Ok(pos);
    }
  }
}
