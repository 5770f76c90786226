# NIfTI-1 extension framing, in Dafny

A model of the extension layer of the `nifti` crate's NIfTI-1 reader (`src/extension.rs`).
A NIfTI-1 file may carry optional extension records between the fixed header and the voxel
data. The model covers:

- **Extender.** The 4-byte flag after the header. Extensions follow when its first byte is
  non-zero. It has a mandatory read and an optional read.
- **Extension record.** A declared size `esize`, a code `ecode` and an opaque payload
  `edata`.
  - The constructor refuses a size other than `8 + |edata|`. The subset type
    `ValidExtension` carries that invariant. The constructors return it, and a sequence
    and each decoded step hold only such records.
  - `from_str` builds a record around a text payload, zero-padded so the size is a
    multiple of 16.
- **Extension sequence and its decoder.**
  - The decoder reads `(esize, ecode, payload)` records from a byte-ordered source while a
    running offset is below the byte budget `len`.
  - It clamps the payload length with a saturating subtraction.
  - It reserves the payload buffer fallibly.
  - It rejects truncated payloads.
  - It stores `max(esize, 8)` as the record size and advances the offset by the raw
    `esize`.

Modules:

- `Wrappers` (`wrappers.dfy`): `Option` and `Result`.
- `NiftiErrors` (`errors.dfy`): the errors this layer raises. These are `Io(UnexpectedEof)`,
  `IncompatibleLength(got, expected)` and `ReserveExtended(requested)`.
- `ByteOrder` (`byte_order.dfy`):
  - `i32`/`usize` and the `as usize` sign-extending cast;
  - `saturating_sub`;
  - the 4-byte two's-complement codec in little- and big-endian order;
  - the in-memory byte source with `read_exact`, `read_i32` and `take(n).read_to_end`.
- `Extensions` (`extension.dfy`): the data types, the operations, and the decoder. The
  decoder has two forms:
  - `DecodeLoop`/`FromReader`, a recursive function over the remaining bytes;
  - `ReadSequence`, a `while` loop written like the source, proved to compute the same
    result.
- `ExtensionLemmas` (`extension_lemmas.dfy`): properties relating several operations. The
  centrepiece is that decoding exactly inverts the wire framing `Frame`, in both directions:
  - every successful decode consumed the framing of the records it returns;
  - every framed run of records decodes back to itself.

How the source's environment is represented:

- The byte source is a `seq<byte>` plus a byte order chosen by the caller.
- `try_reserve_exact` is a capacity bound `cap <= isize::MAX`, passed as a parameter. A
  reservation fails exactly when the requested length exceeds `cap`.
- The decoder also returns the unread rest of the source, so that "no bytes consumed" can be
  stated.

Two consequences of the code are worth stating on their own:

- **Final offset.** The loop stops once `offset >= len`, so a successful decode ends with
  `offset >= len`. The offset can overshoot `len`, because the last record may declare more
  bytes than the budget had left.
- **Optional extender read.** This returns `None` on any end-of-stream failure of the 4-byte
  read, including one after 1 to 3 bytes were read.

## Model

| member | source | states |
|---|---|---|
| `Extensions.EcodeFromI32` | src/extension.rs:13-32 | a code has a label exactly when some label carries that value, and the label found carries it |
| `ExtensionLemmas.EcodeRoundTrip` | src/extension.rs:15-32 | every known label converts back to itself from its integer value |
| `ExtensionLemmas.HasExtensionsIgnoresLastBytes` | src/extension.rs:59-62 | whether extensions follow depends on byte 0 only; a zero byte 0 means none, whatever the other three bytes |
| `Extensions.ExtenderFromReader` | src/extension.rs:40-44 | fails with end-of-stream exactly when fewer than 4 bytes remain; otherwise the flag is the first 4 bytes and the rest is left unread |
| `Extensions.ExtenderFromReaderOptional` | src/extension.rs:50-57 | never fails on an in-memory source; `None` exactly when fewer than 4 bytes remain, otherwise the first 4 bytes |
| `ExtensionLemmas.OptionalReadAgreesWithRequired` | src/extension.rs:40-57 | the optional read is the mandatory read with its end-of-stream error turned into `None` |
| `ByteOrder.ReadExact` | src/extension.rs:42 | yields exactly `n` bytes that, followed by the rest, rebuild the source, or an end-of-stream error exactly when fewer than `n` remain |
| `Extensions.NewExtension` | src/extension.rs:92-106 | the constructor is callable only when the guard holds; the record it builds keeps the size invariant and its accessors return the fields given |
| `ExtensionLemmas.SizeMatchesExactly` | src/extension.rs:93-99 | for any payload a vector can hold, the guard accepts exactly `esize == 8 + len`, so any size below 8, negatives included, is refused |
| `Extensions.ClearLowNibble` | src/extension.rs:112 | clearing the four low bits of a non-negative value gives a multiple of 16 at most 15 below it |
| `Extensions.Resize` | src/extension.rs:114 | the result has the requested length, keeps the original prefix, and fills the new tail with the fill byte |
| `Extensions.FromStr` | src/extension.rs:109-116 | keeps the code and builds a valid record. The size is a multiple of 16 in `[8 + len, 8 + len + 16)`. The payload is `size - 8` bytes: the text followed only by zero bytes |
| `ExtensionLemmas.FromStrLeastPadding` | src/extension.rs:110-112 | the padded size is the least multiple of 16 that holds the header and the text |
| `ByteOrder.UsizeFromI32` | src/extension.rs:191 | `as usize` leaves non-negative values unchanged and sends negative ones above `isize::MAX`, congruent modulo 2^64 |
| `ByteOrder.SaturatingSub` | src/extension.rs:191 | the difference when it is non-negative, otherwise 0 |
| `Extensions.DataSize` | src/extension.rs:191 | a non-negative size announces `max(esize, 8) - 8` payload bytes; a negative one announces more than `isize::MAX` |
| `ByteOrder.ReadI32` | src/extension.rs:188-189 | fails with end-of-stream exactly when fewer than 4 bytes remain; otherwise the bytes consumed are the value's encoding in the source's byte order |
| `ByteOrder.DecodeEncodeI32` | src/extension.rs:188-189 | decoding the encoding of any `i32` gives it back, in either byte order |
| `ByteOrder.EncodeDecodeI32` | src/extension.rs:188-189 | every 4-byte pattern is the encoding of the value it decodes to, so the field codec is a bijection |
| `ByteOrder.Take` | src/extension.rs:196-198 | yields `min(n, remaining)` bytes which, followed by the new source, rebuild the old one |
| `Extensions.ReadRecord` | src/extension.rs:188-204 | a successful iteration gives a valid record stored under `max(esize, 8)` with `esize >= 0` and a payload within the reservation; the bytes consumed are exactly that record's framing |
| `ExtensionLemmas.ReadRecordOutcome` | src/extension.rs:188-202 | an iteration fails with end-of-stream below 8 bytes; with `ReserveExtended(n)` when `n` exceeds the capacity (always so for a negative size); with `IncompatibleLength(read, n)` when the payload is cut short; otherwise it succeeds |
| `ExtensionLemmas.ReadRecordOfFrame` | src/extension.rs:188-204 | a framed record is read back as itself, leaving the source just after its payload |
| `Extensions.DecodeLoop` | src/extension.rs:186-206 | errors arise only while `offset < len`. On success the offset reached is at least `len` and grew by exactly the declared sizes. Every record is valid, stored under `max(esize, 8)` and within the reservation. The bytes consumed are the framing of the records, in order |
| `Extensions.FrameLength` | src/extension.rs:204 | the framing of decoded records is as long as the sum of their stored sizes |
| `Extensions.FromReader` | src/extension.rs:175-213 | with no extensions signalled: an empty sequence with the same extender, no bytes consumed, for any budget and stream. On success: the same extender, every record valid with size at least 8, and bytes on disk equal to the bytes consumed |
| `Extensions.ReadSequence` | src/extension.rs:175-213 | the `while` loop with its early returns computes exactly what the recursive decoder computes |
| `ExtensionLemmas.DecodeFramed` | src/extension.rs:186-206 | a framed run of records that the budget lets the loop enter decodes to those records, in order, followed by whatever the rest of the stream decodes to |
| `ExtensionLemmas.DecodeEncoded` | src/extension.rs:175-213 | round trip: valid records framed in either byte order decode back to exactly those records when the budget is their total size, with the following bytes left unread |
| `ExtensionLemmas.FirstRecordError` | src/extension.rs:188-202 | an error while reading the first record is the error of the whole decode |
| `ExtensionLemmas.ErrorDiscardsDecodedRecords` | src/extension.rs:184-212 | a failing record after successfully framed ones makes the whole decode return only that error, with no partial sequence |
| `ExtensionLemmas.TotalSizeAppend` | src/extension.rs:231-236 | bytes on disk of two runs of records joined is the sum of their bytes on disk |
| `ExtensionLemmas.IsEmptyIffNoRecords` | src/extension.rs:221-228 | a sequence is empty exactly when its length is 0 |
| `ExtensionLemmas.DeclaredWithinStored` | src/extension.rs:204-205 | the declared sizes sum to at most the stored sizes, with equality exactly when no declared size is below 8 |
| `ExtensionLemmas.DecodeOffsetAccounting` | src/extension.rs:187-205 | after a successful decode: the final offset is at least `len`, at most the bytes consumed, and equal to them exactly when every declared size is at least 8. Bytes on disk always equal the bytes consumed |
| `ExtensionLemmas.HelloComment` | src/extension.rs:175-213 | the 16-byte comment record `hello` padded with zeros, under a 16-byte budget, decodes to that one record and consumes the whole stream |
| `ExtensionLemmas.TruncatedPayload` | src/extension.rs:196-202 | a record declaring 32 bytes followed by only 10 payload bytes fails with `IncompatibleLength(10, 24)` |
| `ExtensionLemmas.NegativeSizeRefused` | src/extension.rs:191-195 | a negative declared size fails with `ReserveExtended(2^64 + esize - 8)` whatever the capacity |

## Left out

- `src/volume/ndarray.rs` is not part of this model. It is a thin adapter that hands a
  volume to the `ndarray` library and has no logic of its own.
- I/O errors other than end-of-stream are not modelled. The source is an in-memory byte
  sequence, so `read_exact`, `read_i32` and `read_to_end` can only run out of bytes.
  - `Extensions.ExtenderFromReaderOptional` therefore never returns an error. The branch
    that passes other I/O errors through is kept, but no input reaches it.
- The allocator behind `try_reserve_exact` is replaced by the capacity bound `cap`.
- The code enumeration's `FromPrimitive` derive is reduced to `EcodeFromI32`. The decoder
  never consults it.
- The iterator implementations and `iter` are not modelled separately. They are plain
  access to the `extensions` sequence.
- The trivial accessors are the datatype's fields or one-line members with no contract:
  - `Extender::as_bytes`, the `From<[u8; 4]>` conversion and `ExtensionSequence::extender`;
  - `Extension::size`, `code`, `data` and `into_data`;
  - `ExtensionSequence::new`, `len` and `bytes_on_disk`.
- Extensions.FromStr: requires `|text| <= 2^31 - 24`. For longer text the source's
  `len() as i32` truncates and `8 + len` or `+ 15` overflows `i32`; that is not modelled.
- Extensions.FromStr: the text is taken as its UTF-8 bytes. Strings and their encoding are
  not modelled.
- Extensions.NewExtension: the constructor's panic is a precondition, as a contract
  violation. No error value is modelled for it.
- Extensions.TotalSize: the `usize` sum behind `bytes_on_disk` is unbounded. Its overflow,
  a panic or a wrap depending on build mode, is not modelled.
- Extensions.DecodeLoop: the running offset is unbounded and its `usize` wrap-around is not
  modelled. `ExtensionLemmas.DecodeOffsetAccounting` shows the offset never exceeds the
  bytes consumed, so no wrap can happen for a stream shorter than 2^64 bytes (2^32 bytes on
  a 32-bit target).
- ByteOrder.UsizeFromI32: the model fixes `usize` at 64 bits (`USIZE_MODULUS` is 2^64,
  `isize::MAX` is 2^63 - 1). On a 32-bit target `esize as usize` gives 2^32 + esize for a
  negative size. The reservation still fails there, but `ReserveExtended` then carries
  2^32 + esize - 8, not the 2^64 + esize - 8 that `ExtensionLemmas.NegativeSizeRefused`
  states. Other pointer widths are not modelled.
