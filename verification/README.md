# Parquet footer locator — a Dafny model

This project models the part of `parquet-maria` that finds the serialized
file metadata of a Parquet file. It covers three pieces:

- **Footer locator.** Given the whole file as bytes, it checks the `"PAR1"`
  magic at both ends. It reads the little-endian `u32` metadata length stored
  just before the trailing magic. It computes the size of the column-data
  region and slices out exactly the metadata bytes. The layout follows the
  "File Format" section of the Apache Parquet format specification:
  `"PAR1" | data | FileMetaData | 4-byte LE length | "PAR1"`.
- **Schema-element name projection** (`SchemaElement::try_from`). It takes
  an already-decoded Thrift struct and returns the byte payload of its first
  field with id 4.
- **The metadata cursor** (`SharedByteSliceReader`). It is a reader over
  the metadata bytes whose `read` hands out bytes from the front of the
  remaining slice.

Modules, one per file:

- `Results` (`results.dfy`): `Option` and `Result`. Every panic or `Err` of
  the program becomes an error value here.
- `Bytes` (`bytes.dfy`): the `u8` newtype and the little-endian `u32`
  codec.
- `Footer` (`footer.dfy`): `LocateFooter` and the forward layout
  `Assemble`.
- `Schema` (`schema.dfy`): the decoded-value tree `Data`/`Field` and
  `ElementName`.
- `ByteReader` (`reader.dfy`): the cursor `Reader`, its pure `Consume`,
  and the `Read` method that copies into a destination buffer.

The program panics where this model returns an error. Panics come from
`assert_eq!`, from out-of-range slices, from `unwrap`, from `panic!`, and
from `usize` subtractions that underflow. A debug build (the default for
`cargo run`) checks each subtraction, so an underflow is a panic.
`LocateFooter` reports the first panic the program would reach, in the
program's order:

1. buffer shorter than 4 bytes;
2. bad leading magic;
3. bad trailing magic;
4. no room for the length field;
5. the declared length reaching into the leading magic.

The program rejects metadata that overlaps the leading magic, not only
metadata that would start before offset 0: `data_size = file_size - size -
8 - 4` (src/main.rs:39-40) underflows 4 bytes before the slice start
`metadata_size_start - size` at src/main.rs:44 would. So `size + 12 <= |buf|`
is required.

## Model

| member | source | states |
|---|---|---|
| Bytes.LeU32 | src/main.rs:32-36 | the length is the little-endian value `b0 + 256*b1 + 65536*b2 + 16777216*b3` of four bytes, always below 2^32 |
| Footer.DeclaredLength | src/main.rs:30-36 | the declared metadata length is the `u32` read from `buf[|buf|-8..|buf|-4]`, the four bytes just before the trailing magic, and is below 2^32 |
| Bytes.LeU32OfLeBytes | src/main.rs:32-36 | decoding the four little-endian bytes of any `u32` gives that number back |
| Bytes.LeBytesOfLeU32 | src/main.rs:32-36 | four bytes are recovered from the length they encode, so the length field determines the bytes and vice versa |
| Footer.LocateFooter | src/main.rs:10-45 | succeeds exactly when the buffer has at least 8 bytes, starts and ends with "PAR1", and the declared length plus 12 fits in the buffer. Each failure is the one the program hits first. On success, the metadata is the `size` bytes that end where the length field begins, and 4 + data size + size + 4 + 4 equals the file size |
| Footer.LocateAssembled | src/main.rs:22-45 | for any data region and any metadata shorter than 2^32 bytes, locating the footer of the laid-out file returns that metadata and that data size |
| Footer.LocatedIsAssembled | src/main.rs:39-45 | every accepted buffer is exactly leading magic, data region, metadata, its LE length and trailing magic, with no byte left over |
| Schema.FindField | src/main.rs:138 | the position returned is the first field carrying the id; none is returned exactly when no field has it |
| Schema.ElementName | src/main.rs:137-145 | fails with `NoNameField` exactly when no field has id 4. Fails with `NameNotBinary` exactly when the first id-4 field is not `Binary`. Otherwise returns that field's bytes |
| Schema.NameOfBuiltElement | src/main.rs:138-141 | unrelated fields, then a `Binary` field 4, then anything at all: the name is that payload |
| Schema.NameIgnoresLaterFields | src/main.rs:138 | replacing everything after the first field 4 leaves the result unchanged |
| ByteReader.New | src/main.rs:153-157 | a new reader has consumed nothing; its remaining slice is the whole input |
| ByteReader.Remaining | src/main.rs:159-161 | the remaining slice is exactly the buffer minus the consumed prefix |
| ByteReader.Consume | src/main.rs:164-168 | hands out `min(n, remaining)` bytes, and those bytes followed by the new remaining slice are the old remaining slice |
| ByteReader.Read | src/main.rs:164-168 | copies `k = min(dest length, remaining)` bytes from the front of the remaining slice into the front of `dest` and leaves the rest of `dest` untouched. Afterwards the remaining slice is the old one minus its first `k` bytes |
| ByteReader.ConsumeAllSplitsRemaining | src/main.rs:101-106 | after any sequence of reads, the bytes handed out followed by the remaining slice are the starting slice, and the remaining length has dropped by exactly the count handed out |
| ByteReader.ConsumeTwice | src/main.rs:164-168 | two reads in a row hand out the same bytes, and leave the same reader, as one read of the combined size |

## Left out

- File I/O (`File::open`, `read_to_end`) and every `dbg!` call (src/main.rs:16-19 and throughout): they have no behaviour to verify. The buffer is a parameter.
- The Thrift compact-protocol decoding (`TCompactInputProtocol` calls and `Struct::compact_decode`, src/main.rs:51-115): it lives in the external `thrift` and `thrift_codec` crates, which are not part of this model. `ElementName` takes the already-decoded struct as its input.
- The `RefCell` sharing of one cursor between several decoders (src/main.rs:98, 110, 149): it is an aliasing workaround. A single `Reader` value is threaded through the calls instead.
- `String::from_utf8_lossy` (src/main.rs:140): the name is kept as raw bytes, because UTF-8 transcoding is standard-library behaviour.
- The fixture checks against `example.parquet` (src/main.rs:54-118): the five expected names, the row count of 3, and the field ids and types asserted there. They describe one test file, not a contract.
- Release-build wrap-around: the model uses debug-build `usize` semantics. In a release build, the subtraction at src/main.rs:39-40 wraps instead of panicking. Metadata overlapping the leading magic would then be sliced out rather than rejected.
- Schema.Data field ids and integer payloads: ids are unbounded `int` rather than `i16`, and `I8`…`I64` payloads are unbounded `int`, because `ElementName` only tests `id == 4` and `Binary?` and never does arithmetic on them.
- Double values in `Schema.Data` are kept as raw IEEE-754 bits, because floating point plays no part in any operation modelled here.
