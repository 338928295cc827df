# FreeSurfer annotation label reader, modelled in Dafny

This project models `read_annot` from `tools/extract_annot_labels.py`. The
function reads a FreeSurfer `.annot` file and returns the structure names of its
colour table. An annotation file is a sequence of big-endian signed 32-bit
integers and byte strings:

- a vertex count `n`, then `n` (vertex, label) pairs of eight bytes each;
- the has-colour-table flag;
- a version-or-count field, followed by one more int32 (the largest
  structure index) when that field is negative;
- a filename length and the filename;
- an entry count, then, per entry, the structure index, the name length, the
  name bytes and four int32 colour components (red, green, blue, alpha).

The reader walks a file cursor over these fields. A missing flag, header or
entry count raises an exception. Any other flag than 1 returns the empty list.
Inside the entry loop, a failed read or a short colour block stops the loop,
and the names collected so far are returned.

The project has five modules:

- `Int32Codec` (`int32.dfy`): the int32 field, `struct.unpack('>i', ...)`, and its inverse.
- `PyFile` (`pyfile.dfy`): Python's `read`/`seek`/`struct.unpack` semantics on
  the bytes after the cursor, and a `BinaryFile` class whose cursor methods are
  proved to behave as those functions say. The rules are:
  - `read(n)` returns at most `n` bytes;
  - `read(-1)` returns everything left;
  - `read(n)` with `n < -1` raises `ValueError`;
  - a relative seek may pass the end, but not the start;
  - unpacking fewer than four bytes raises `struct.error`.
- `Annot` (`annot.dfy`): `Labels`, the result of the reader as a function of
  the file's bytes, built from one function per stage of the reader, and
  `ReadAnnot`, the cursor-walking reader itself. `ReadAnnot`'s loop is proved
  to return exactly `Labels(data)`.
- `AnnotFormat` (`annot_format.dfy`): a writer for the layout and what the
  reader makes of the files it writes. A full file gives all names in order.
  A smaller declared count gives the first names. A cut inside an entry gives
  the complete entries before it. A cut before the entry list is an error.
- `AnnotProperties` (`annot_props.dfy`): properties of `Labels` on arbitrary
  bytes. They cover which fields can influence the result, the bound on the
  number of names, and the form of each name.

## Model

| member | source | states |
|---|---|---|
| Int32Codec.DecodeInt32 | tools/extract_annot_labels.py:13 | a four-byte big-endian field reads as a signed 32-bit value, negative exactly when the top bit of its first byte is set |
| Int32Codec.DecodeEncode | tools/extract_annot_labels.py:13 | unpacking the four bytes written for any int32 gives that value back |
| Int32Codec.EncodeDecode | tools/extract_annot_labels.py:13 | every four bytes are the encoding of the value they unpack to |
| Int32Codec.DecodeInjective | tools/extract_annot_labels.py:13 | two fields unpack to the same value only if their bytes are equal |
| PyFile.Drop | tools/extract_annot_labels.py:16 | skipping `n` bytes leaves a suffix of the remaining bytes, `n` shorter than them, or empty when `n` passes the end |
| PyFile.ReadBytes | tools/extract_annot_labels.py:34 | `read(n)` raises exactly when `n < -1`; it otherwise splits the remaining bytes into what it returns and what remains, returns exactly `n` bytes when that many remain, and leaves nothing for `-1` or a length beyond the end |
| PyFile.UnpackInt32 | tools/extract_annot_labels.py:13 | unpacking succeeds exactly on four bytes, giving the int32 whose encoding they are; otherwise it raises `struct.error` |
| PyFile.UnpackEncoded | tools/extract_annot_labels.py:19 | an encoded int32 at the cursor unpacks to its value and leaves exactly the bytes after it |
| PyFile.BinaryFile.Read | tools/extract_annot_labels.py:34 | the method returns what `ReadBytes` describes on the bytes after the cursor, and advances the cursor by the length returned; it raises for `n < -1` without moving |
| PyFile.BinaryFile.ReadInt32 | tools/extract_annot_labels.py:13 | with four bytes left, the method returns their field and advances four bytes; otherwise it raises `struct.error` and the file is exhausted |
| PyFile.BinaryFile.Seek | tools/extract_annot_labels.py:16 | a relative seek raises when it would land before the start; otherwise it moves the cursor, and a forward seek leaves the bytes that `Drop` describes |
| Annot.StripTrailingNulSpec | tools/extract_annot_labels.py:52 | `rstrip('\x00')` keeps a prefix of the name, removes only NULs, and leaves no NUL at the end |
| Annot.EntriesStep | tools/extract_annot_labels.py:61 | appending a complete entry's name keeps the collected names plus the remaining passes equal to the whole result |
| Annot.EntriesStop | tools/extract_annot_labels.py:55-58 | at an incomplete entry the names collected so far are the whole result |
| Annot.TableHeader | tools/extract_annot_labels.py:25-37 | a header read fails only with `struct.error` or `ValueError`; it raises `ValueError` exactly when the filename length field is read and is below -1 |
| Annot.ColourTable | tools/extract_annot_labels.py:19-22 | names are returned only when the flag reads as 1; from the flag on, the reader raises only `struct.error` or `ValueError` |
| Annot.Labels | tools/extract_annot_labels.py:13-16 | the reader raises `OSError` from the seek exactly when the vertex count reads as negative |
| Annot.ReadAnnot | tools/extract_annot_labels.py:9-66 | the cursor-driven reader returns exactly `Labels(data)`: the same names, or the same exception |
| Annot.ReadTableHeader | tools/extract_annot_labels.py:25-37 | the method succeeds exactly when `TableHeader` does, returning its entry count with the cursor after it; otherwise it raises `TableHeader`'s exception |
| Annot.ReadEntries | tools/extract_annot_labels.py:42-64 | the loop returns exactly the names `Entries` collects from the bytes after the header; the loop invariant is that the names so far plus those of the remaining passes make up that result |
| Annot.ReadEntry | tools/extract_annot_labels.py:43-61 | one pass yields a name exactly when `EntryAt` finds a complete entry, and leaves the cursor after that entry's colour bytes |
| Annot.ReadName | tools/extract_annot_labels.py:45-51 | the structure index, name length and name reads succeed exactly when `NameAt` does, and leave the cursor after the name |
| AnnotFormat.EncodeEntry | tools/extract_annot_labels.py:45-59 | an entry occupies 24 bytes plus its name |
| AnnotFormat.EntryAtEncoded | tools/extract_annot_labels.py:45-61 | a written entry reads back as its name without trailing NULs, and the cursor stops exactly at the next entry |
| AnnotFormat.EntryAtTruncated | tools/extract_annot_labels.py:55-58 | any proper prefix of an entry is incomplete: no name is produced from it |
| AnnotFormat.EntriesOfEntry | tools/extract_annot_labels.py:61 | a written entry contributes its name ahead of the names of what follows it |
| AnnotFormat.EntriesOfEncoded | tools/extract_annot_labels.py:42-64 | written entries are read back as their names in file order, provided the remaining passes cover them all and, if passes are left over, what follows them is not a complete entry |
| AnnotFormat.TableHeaderEncoded | tools/extract_annot_labels.py:25-37 | a written header, in either version layout, yields its entry count and leaves the cursor at the first entry |
| AnnotFormat.TableHeaderTruncated | tools/extract_annot_labels.py:25-37 | a header cut anywhere raises |
| AnnotFormat.PreludeEncoded | tools/extract_annot_labels.py:13-37 | a written vertex section, flag 1 and header lead the reader to the entry loop with the declared count |
| AnnotFormat.PreludeTruncated | tools/extract_annot_labels.py:13-37 | a file cut anywhere before its entry list raises, instead of returning an empty list |
| AnnotFormat.RoundTrip | tools/extract_annot_labels.py:9-66 | reading a written file whose count matches its entries returns every entry's name, stripped of trailing NULs, in file order |
| AnnotFormat.FewerDeclared | tools/extract_annot_labels.py:42 | with a smaller declared count, only that many leading names are returned, and none for a count of zero or below |
| AnnotFormat.TruncatedEntryIsPrefix | tools/extract_annot_labels.py:55-58 | the file cut inside entry `k` is a proper prefix of the whole file |
| AnnotFormat.TruncatedEntry | tools/extract_annot_labels.py:43-64 | a file cut inside entry `k` returns exactly the names of the `k` complete entries before it |
| AnnotProperties.LabelsSkipsVertices | tools/extract_annot_labels.py:13-16 | the vertex section is skipped by its declared length, and reading resumes at the flag after it |
| AnnotProperties.VerticesIgnored | tools/extract_annot_labels.py:13-16 | files differing only in their vertex pairs give the same result |
| AnnotProperties.NegativeVertexCount | tools/extract_annot_labels.py:16 | a negative vertex count seeks before the start of the file and raises |
| AnnotProperties.EndAfterVertices | tools/extract_annot_labels.py:19 | a file ending right after its vertex section raises `struct.error` instead of reporting no colour table |
| AnnotProperties.NoTableUnlessFlagIsOne | tools/extract_annot_labels.py:19-22 | any flag other than 1 gives the empty list, whatever follows |
| AnnotProperties.NamesNeedFlagOne | tools/extract_annot_labels.py:21-22 | conversely, a non-empty result means the vertex count was non-negative and the flag read as 1 |
| AnnotProperties.VersionSignOnly | tools/extract_annot_labels.py:25-30 | version fields of the same sign give the same header: only the sign is used |
| AnnotProperties.Version2SkipsFour | tools/extract_annot_labels.py:26-30 | a negative version skips exactly four more bytes before the filename length than a non-negative one |
| AnnotProperties.EntriesAtMost | tools/extract_annot_labels.py:42 | the loop collects at most one name per remaining pass, and none when no pass remains |
| AnnotProperties.LabelsAtMostCount | tools/extract_annot_labels.py:37-42 | at most `max(count, 0)` names are returned, and none for a count of zero or below |
| AnnotProperties.EntryAtConsumes | tools/extract_annot_labels.py:45-55 | a complete entry takes up at least 24 bytes plus its stripped name |
| AnnotProperties.EntriesConsume | tools/extract_annot_labels.py:42-61 | every returned name is backed by at least 24 bytes of the file |
| AnnotProperties.EntriesNoTrailingNul | tools/extract_annot_labels.py:52 | no returned name ends in a NUL byte |

## Left out

- Opening the file, the warning and error messages printed inside the loop,
  and the command-line block (tools/extract_annot_labels.py:11, 57, 63,
  68-79). The model starts from the file's bytes and returns the list
  only.
- StripTrailingNul: names stay byte strings. The UTF-8 decoding with
  `errors='ignore'` (tools/extract_annot_labels.py:52) is not modelled, so
  for ASCII names this is exactly the decoded string. For other bytes, the
  model does not drop invalid sequences or merge multi-byte characters.
- The structure index and the colour values are consumed but not kept, as in
  the source (tools/extract_annot_labels.py:45, 59). Unpacking sixteen colour
  bytes cannot fail, so it is not modelled as a step.
- Exceptions other than the three the reader can meet on well-formed Python
  objects (`struct.error`, the `OSError` of a seek before the start, the
  `ValueError` of a read length below -1) are not modelled. For example,
  `MemoryError` for a huge read length is left out.
- Seeking past the end follows Python's rule for regular files (allowed, and
  later reads return nothing). Other operating-system seek behaviour is not
  modelled.
- The project's other files, `tools/generate_data.py` and `generate_data.py`,
  are not part of this model. Their parsing is delegated to an external
  library.
- A file that ends right after its vertex section is not read as "no colour
  table". The flag unpack fails outside any `try`, so the reader raises. The
  model follows the code here; see `AnnotProperties.EndAfterVertices`.
