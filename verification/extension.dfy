/** The extension layer of a NIfTI-1 file: the 4-byte extender flag that follows the main
    header, the self-describing extension records (size, code, opaque payload) and the
    decoder that frames records out of a byte source until a byte budget is spent. */
module Extensions {
  import opened Wrappers
  import opened NiftiErrors
  import opened ByteOrder

  /** The known extension codes. They are advisory labels for payload interpreters; the
      decoder keeps every code as a plain integer. */
  datatype NiftiEcode =
    | Ignore | Dicom | Afni | Comment | Xcede | JimDimInfo | WorkflowFwds | Freesurfer
  {
    function Value(): int
    {
      match this
      case Ignore => 0
      case Dicom => 2
      case Afni => 4
      case Comment => 6
      case Xcede => 8
      case JimDimInfo => 10
      case WorkflowFwds => 12
      case Freesurfer => 14
    }
  }

  /** The label of a known code, and `None` for a code no label has. */
  function EcodeFromI32(code: i32): (r: Option<NiftiEcode>)
    ensures r.Some? ==> r.value.Value() == code
    ensures r.None? ==> forall c: NiftiEcode :: c.Value() != code
  {
    match code
    case 0 => Some(Ignore)
    case 2 => Some(Dicom)
    case 4 => Some(Afni)
    case 6 => Some(Comment)
    case 8 => Some(Xcede)
    case 10 => Some(JimDimInfo)
    case 12 => Some(WorkflowFwds)
    case 14 => Some(Freesurfer)
    case _ => None
  }

  // ---------------------------------------------------------------------------------------
  // Extender

  type Bytes4 = s: seq<byte> | |s| == 4 witness [0, 0, 0, 0]

  /** The four raw bytes after the main header. */
  datatype Extender = Extender(bytes: Bytes4) {

    /** Extensions follow when the first byte is non-zero. */
    predicate HasExtensions()
    {
      bytes[0] != 0
    }
  }

  /** Reads an extender that the file format says must be present. */
  function ExtenderFromReader(src: seq<byte>): (r: Result<(Extender, seq<byte>), NiftiError>)
    ensures r.Success? <==> |src| >= 4
    ensures r.Failure? ==> r.error == Io(UnexpectedEof)
    ensures r.Success? ==> r.value.0.bytes == src[..4] && r.value.1 == src[4..]
  {
    match ReadExact(src, 4)
    case Failure(e) => Failure(e)
    case Success((field, rest)) => Success((Extender(field), rest))
  }

  /** Reads an extender that may be missing: running out of bytes, even part-way through
      the four, yields `None` rather than an error. */
  function ExtenderFromReaderOptional(src: seq<byte>): (r: Result<Option<(Extender, seq<byte>)>, NiftiError>)
    ensures r.Success?
    ensures r.value.None? <==> |src| < 4
    ensures r.value.Some? ==> r.value.value.0.bytes == src[..4] && r.value.value.1 == src[4..]
  {
    match ReadExact(src, 4)
    case Success((field, rest)) => Success(Some((Extender(field), rest)))
    case Failure(Io(UnexpectedEof)) => Success(None)
    case Failure(e) => Failure(e)
  }

  // ---------------------------------------------------------------------------------------
  // Extension record

  /** The guard of the record constructor: the declared size, cast to `usize`, is the full
      record length, eight header bytes plus the payload. */
  predicate SizeMatches(esize: i32, edata: seq<byte>)
  {
    UsizeFromI32(esize) == 8 + |edata|
  }

  datatype Extension = Extension(esize: i32, ecode: i32, edata: seq<byte>) {

    function Size(): i32 { esize }

    function Code(): i32 { ecode }

    function Data(): seq<byte> { edata }

    /** The invariant every constructed record keeps. */
    predicate Valid()
    {
      SizeMatches(esize, edata)
    }
  }

  /** A record that keeps the size invariant, as every `Extension` the crate can build does
      (its fields are private and every constructor path checks the size). */
  type ValidExtension = e: Extension | e.Valid() witness Extension(8, 0, [])

  /** The record constructor. A size that does not match the payload is a contract
      violation (the constructor panics), so it is a precondition here. */
  function NewExtension(esize: i32, ecode: i32, edata: seq<byte>): (r: ValidExtension)
    requires SizeMatches(esize, edata)
    ensures r.Valid()
    ensures r.Size() == esize && r.Code() == ecode && r.Data() == edata
    ensures |edata| <= ISIZE_MAX ==> r.Size() == 8 + |r.Data()|
  {
    Extension(esize, ecode, edata)
  }

  /** `Vec::resize`: truncates to `n` bytes, or extends with copies of `fill`. */
  function Resize(s: seq<byte>, n: nat, fill: byte): (r: seq<byte>)
    ensures |r| == n
    ensures forall i :: 0 <= i < n && i < |s| ==> r[i] == s[i]
    ensures forall i :: |s| <= i < n ==> r[i] == fill
  {
    if n <= |s| then s[..n] else s + seq(n - |s|, _ => fill)
  }

  /** `x & !15` on a non-negative two's-complement value: the four low bits cleared. */
  function ClearLowNibble(x: nat): (r: nat)
    ensures r % 16 == 0 && r <= x < r + 16
  {
    x - x % 16
  }

  /** Longest text for which `8 + len` and the rounding `+ 15` stay within `i32`. */
  const MAX_TEXT_LEN: nat := I32_MAX - 8 - 15

  function Zeros(n: nat): (z: seq<byte>)
    ensures |z| == n && forall i :: 0 <= i < n ==> z[i] == 0
  {
    seq(n, _ => 0)
  }

  /** Builds a record around a text payload (its UTF-8 bytes), zero-padded so that the
      record size is the least multiple of 16 that holds it. */
  function FromStr(ecode: i32, text: seq<byte>): (r: ValidExtension)
    requires |text| <= MAX_TEXT_LEN
    ensures r.Valid()
    ensures r.Code() == ecode
    ensures r.Size() % 16 == 0 && 8 + |text| <= r.Size() < 8 + |text| + 16
    ensures |r.Data()| == r.Size() - 8
    ensures r.Data() == text + Zeros(r.Size() - 8 - |text|)
  {
    var esize: i32 := 8 + |text|;
    var padded: i32 := ClearLowNibble(esize + 15);
    var edata := Resize(text, UsizeFromI32(padded) - 8, 0);
    assert edata == text + Zeros(padded - 8 - |text|);
    NewExtension(padded, ecode, edata)
  }

  // ---------------------------------------------------------------------------------------
  // Extension sequence

  /** Sum of every record's size cast to `usize`. */
  function TotalSize(exts: seq<Extension>): nat
  {
    if |exts| == 0 then 0 else UsizeFromI32(exts[0].esize) + TotalSize(exts[1..])
  }

  datatype ExtensionSequence = ExtensionSequence(extender: Extender, extensions: seq<ValidExtension>) {

    function Len(): nat { |extensions| }

    predicate IsEmpty() { |extensions| == 0 }

    /** The number of bytes the records take on disk. */
    function BytesOnDisk(): nat { TotalSize(extensions) }
  }

  /** The upper bound `try_reserve_exact` puts on a request: the allocator's capacity,
      which is never above `isize::MAX`. */
  type Capacity = c: nat | c <= ISIZE_MAX

  /** `(esize as usize).saturating_sub(8)`: the payload length a header announces. */
  function DataSize(esize: i32): (n: usize)
    ensures 0 <= esize ==> n == Max(esize, 8) - 8
    ensures esize < 0 ==> n > ISIZE_MAX
  {
    SaturatingSub(UsizeFromI32(esize), 8)
  }

  /** How a decoded record relates to the size field it was read with: the declared size
      was non-negative and the stored size is that size raised to at least 8. */
  predicate StoredFor(declared: i32, ext: Extension)
  {
    && 0 <= declared
    && ext.Valid()
    && ext.esize == Max(declared, 8)
  }

  /** The wire layout of records: each one's declared size and code in the source's byte
      order, then its payload, packed back to back. */
  function Frame(records: seq<Extension>, declared: seq<i32>, order: Endianness): seq<byte>
    requires |records| == |declared|
  {
    if |records| == 0 then []
    else
      EncodeI32(declared[0], order) + EncodeI32(records[0].ecode, order) + records[0].edata
      + Frame(records[1..], declared[1..], order)
  }

  function Sum(xs: seq<int>): int
  {
    if |xs| == 0 then 0 else xs[0] + Sum(xs[1..])
  }

  lemma {:induction false} FrameLength(records: seq<Extension>, declared: seq<i32>, order: Endianness)
    requires |records| == |declared|
    requires forall i :: 0 <= i < |records| ==> StoredFor(declared[i], records[i])
    ensures |Frame(records, declared, order)| == TotalSize(records)
  {
    if |records| > 0 {
      FrameLength(records[1..], declared[1..], order);
    }
  }

  /** The result of one pass through the loop body: the declared size, the record built and
      the source positioned after the payload. */
  datatype Step = Step(declared: i32, ext: Extension, next: ByteOrdered)

  /** What a successful loop iteration guarantees: the record matches its declared size,
      its payload fit the reservation, and the bytes it consumed are its framing. */
  predicate StepOutcome(src: ByteOrdered, cap: Capacity, step: Step)
  {
    && StoredFor(step.declared, step.ext)
    && |step.ext.edata| <= cap
    && step.next.order == src.order
    && src.bytes == Frame([step.ext], [step.declared], src.order) + step.next.bytes
  }

  /** The bytes one iteration consumed, field by field, are the framing of its record. */
  lemma FrameOfOne(src: ByteOrdered, esize: i32, s1: ByteOrdered, ext: Extension, s2: ByteOrdered, s3: ByteOrdered, cap: Capacity)
    requires src.bytes == EncodeI32(esize, src.order) + s1.bytes
    requires s1.bytes == EncodeI32(ext.ecode, src.order) + s2.bytes
    requires s2.bytes == ext.edata + s3.bytes
    requires s3.order == src.order
    requires StoredFor(esize, ext) && |ext.edata| <= cap
    ensures StepOutcome(src, cap, Step(esize, ext, s3))
  {
    assert Frame([ext], [esize], src.order)
        == EncodeI32(esize, src.order) + EncodeI32(ext.ecode, src.order) + ext.edata;
  }

  /** One iteration of the decode loop: size and code fields, the reservation, the payload
      read and the record built from them. */
  function ReadRecord(src: ByteOrdered, cap: Capacity): (r: Result<Step, NiftiError>)
    ensures r.Success? ==> StepOutcome(src, cap, r.value)
  {
    match ReadI32(src)
    case Failure(e) => Failure(e)
    case Success((esize, s1)) =>
      match ReadI32(s1)
      case Failure(e) => Failure(e)
      case Success((ecode, s2)) =>
        var dataSize := DataSize(esize);
        if dataSize > cap then Failure(ReserveExtended(dataSize))
        else
          var (edata, s3) := Take(s2, dataSize);
          if |edata| != dataSize then Failure(IncompatibleLength(|edata|, dataSize))
          else
            var ext := NewExtension(Max(esize, 8), ecode, edata);
            FrameOfOne(src, esize, s1, ext, s2, s3, cap);
            Success(Step(esize, ext, s3))
  }

  /** What the decode loop has produced when it stops: the records in stream order, the
      size each one declared, the final value of the running offset and the source left. */
  datatype Decoded = Decoded(records: seq<Extension>, declared: seq<i32>, offset: nat, rest: ByteOrdered)

  /** Puts already-decoded records in front of what the rest of the loop produces; an error
      from the rest discards them. */
  function Prepended(records: seq<Extension>, declared: seq<i32>, r: Result<Decoded, NiftiError>): Result<Decoded, NiftiError>
  {
    match r
    case Failure(e) => Failure(e)
    case Success(d) => Success(Decoded(records + d.records, declared + d.declared, d.offset, d.rest))
  }

  /** What a successful run of the loop from `offset` guarantees: it stopped because the
      offset reached the budget, the offset grew by exactly the declared sizes, and the
      bytes it consumed are the framing of the records it returns, in order. */
  predicate LoopOutcome(src: ByteOrdered, len: usize, cap: Capacity, offset: nat, d: Decoded)
  {
    && |d.records| == |d.declared|
    && len <= d.offset
    && d.offset == offset + Sum(d.declared)
    && d.rest.order == src.order
    && (forall i :: 0 <= i < |d.records| ==> StoredFor(d.declared[i], d.records[i]))
    && (forall i :: 0 <= i < |d.records| ==> |d.records[i].edata| <= cap)
    && src.bytes == Frame(d.records, d.declared, src.order) + d.rest.bytes
  }

  /** One more record read in front of a finished loop keeps the loop's guarantees. */
  lemma PrependedOutcome(src: ByteOrdered, len: usize, cap: Capacity, offset: nat, step: Step, tail: Result<Decoded, NiftiError>)
    requires offset < len
    requires StepOutcome(src, cap, step)
    requires tail.Success? ==> LoopOutcome(step.next, len, cap, Advance(offset, step), tail.value)
    ensures tail.Success? ==> LoopOutcome(src, len, cap, offset, Prepended([step.ext], [step.declared], tail).value)
  {
    if tail.Failure? {
      return;
    }
    var d := tail.value;
    FrameCons(step.ext, step.declared, d.records, d.declared, src.order);
    StoredCons(step.ext, step.declared, d.records, d.declared, cap);
  }

  /** Framing one record in front of a run frames that record, then the run. */
  lemma FrameCons(ext: Extension, size: i32, records: seq<Extension>, declared: seq<i32>, order: Endianness)
    requires |records| == |declared|
    ensures Sum([size] + declared) == size + Sum(declared)
    ensures Frame([ext] + records, [size] + declared, order)
         == Frame([ext], [size], order) + Frame(records, declared, order)
  {
    assert ([ext] + records)[1..] == records;
    assert ([size] + declared)[1..] == declared;
  }

  /** A record stored as the decoder stores it, in front of a run of such records, gives a
      longer run of such records. */
  lemma StoredCons(ext: Extension, size: i32, records: seq<Extension>, declared: seq<i32>, cap: Capacity)
    requires |records| == |declared|
    requires StoredFor(size, ext) && |ext.edata| <= cap
    requires forall i :: 0 <= i < |records| ==> StoredFor(declared[i], records[i])
    requires forall i :: 0 <= i < |records| ==> |records[i].edata| <= cap
    ensures forall i :: 0 <= i < |records| + 1 ==>
      StoredFor(([size] + declared)[i], ([ext] + records)[i]) && |([ext] + records)[i].edata| <= cap
  {
    forall i | 0 <= i < |records| + 1
      ensures StoredFor(([size] + declared)[i], ([ext] + records)[i]) && |([ext] + records)[i].edata| <= cap
    {
      if i > 0 {
        assert ([ext] + records)[i] == records[i - 1] && ([size] + declared)[i] == declared[i - 1];
      }
    }
  }

  /** The running offset after a record: it moves by the size the record declared, not by
      the (possibly larger) number of bytes the record occupied. */
  function Advance(offset: nat, step: Step): nat
    requires 0 <= step.declared
  {
    offset + step.declared
  }

  /** The decode loop from a given value of the running offset: records are read while
      `offset < len`, and each one advances the offset by the size it declared. */
  function DecodeLoop(src: ByteOrdered, len: usize, cap: Capacity, offset: nat): (r: Result<Decoded, NiftiError>)
    decreases |src.bytes|
    ensures r.Failure? ==> offset < len
    ensures r.Success? ==> LoopOutcome(src, len, cap, offset, r.value)
  {
    if offset >= len then Success(Decoded([], [], offset, src))
    else
      match ReadRecord(src, cap)
      case Failure(e) => Failure(e)
      case Success(step) =>
        var tail := DecodeLoop(step.next, len, cap, Advance(offset, step));
        assert tail.Success? ==> LoopOutcome(step.next, len, cap, Advance(offset, step), tail.value);
        PrependedOutcome(src, len, cap, offset, step, tail);
        Prepended([step.ext], [step.declared], tail)
  }

  /** One unrolling of the loop while the offset is below the budget. */
  lemma DecodeLoopUnfold(src: ByteOrdered, len: usize, cap: Capacity, offset: nat)
    requires offset < len
    ensures ReadRecord(src, cap).Failure? ==>
      DecodeLoop(src, len, cap, offset) == Failure(ReadRecord(src, cap).error)
  {
  }

  /** One unrolling of the loop after a record was read; `nextOffset` is the advanced offset. */
  lemma DecodeLoopStep(src: ByteOrdered, len: usize, cap: Capacity, offset: nat, step: Step, nextOffset: nat)
    requires offset < len
    requires ReadRecord(src, cap) == Success(step)
    requires nextOffset == Advance(offset, step)
    ensures DecodeLoop(src, len, cap, offset)
         == Prepended([step.ext], [step.declared], DecodeLoop(step.next, len, cap, nextOffset))
  {
  }

  lemma PrependedNothing(r: Result<Decoded, NiftiError>)
    ensures Prepended([], [], r) == r
  {
    if r.Success? {
      assert [] + r.value.records == r.value.records;
      assert [] + r.value.declared == r.value.declared;
    }
  }

  lemma PrependedTwice(records: seq<Extension>, declared: seq<i32>, more: seq<Extension>, moreDeclared: seq<i32>, r: Result<Decoded, NiftiError>)
    ensures Prepended(records, declared, Prepended(more, moreDeclared, r))
         == Prepended(records + more, declared + moreDeclared, r)
  {
    if r.Success? {
      assert (records + more) + r.value.records == records + (more + r.value.records);
      assert (declared + moreDeclared) + r.value.declared == declared + (moreDeclared + r.value.declared);
    }
  }

  /** Reads the extension sequence that follows `extender`, spending at most `len` bytes of
      budget; returns the sequence and the source after it. */
  function FromReader(extender: Extender, src: ByteOrdered, len: usize, cap: Capacity)
    : (r: Result<(ExtensionSequence, ByteOrdered), NiftiError>)
    ensures !extender.HasExtensions() ==> r == Success((ExtensionSequence(extender, []), src))
    ensures r.Success? ==> r.value.0.extender == extender
    ensures r.Success? ==> forall e :: e in r.value.0.extensions ==> e.Valid() && e.esize >= 8
    ensures r.Success? ==> r.value.1.order == src.order && |r.value.1.bytes| <= |src.bytes|
    ensures r.Success? ==> r.value.0.BytesOnDisk() == |src.bytes| - |r.value.1.bytes|
  {
    if !extender.HasExtensions() then Success((ExtensionSequence(extender, []), src))
    else
      match DecodeLoop(src, len, cap, 0)
      case Failure(e) => Failure(e)
      case Success(d) =>
        FrameLength(d.records, d.declared, src.order);
        Success((ExtensionSequence(extender, d.records), d.rest))
  }

  /** With extensions signalled, the decoder's outcome is the loop's outcome from offset 0. */
  lemma FromReaderUnfold(extender: Extender, src: ByteOrdered, len: usize, cap: Capacity)
    requires extender.HasExtensions()
    ensures DecodeLoop(src, len, cap, 0).Failure? ==>
      FromReader(extender, src, len, cap) == Failure(DecodeLoop(src, len, cap, 0).error)
    ensures DecodeLoop(src, len, cap, 0).Success? ==>
      var d := DecodeLoop(src, len, cap, 0).value;
      FromReader(extender, src, len, cap) == Success((ExtensionSequence(extender, d.records), d.rest))
  {
  }

  /** The decoder as the loop it is written as: a running offset, an early return on the
      first error, and records pushed in stream order. */
  method ReadSequence(extender: Extender, source: ByteOrdered, len: usize, cap: Capacity)
    returns (r: Result<(ExtensionSequence, ByteOrdered), NiftiError>)
    ensures r == FromReader(extender, source, len, cap)
  {
    var extensions: seq<ValidExtension> := [];
    var src := source;
    if extender.HasExtensions() {
      var offset: nat := 0;
      ghost var declared: seq<i32> := [];
      PrependedNothing(DecodeLoop(source, len, cap, 0));
      while offset < len
        invariant Prepended(extensions, declared, DecodeLoop(src, len, cap, offset))
               == DecodeLoop(source, len, cap, 0)
        decreases |src.bytes|
      {
        var res := ReadRecord(src, cap);
        DecodeLoopUnfold(src, len, cap, offset);
        if res.Failure? {
          r := Failure(res.error);
          FromReaderUnfold(extender, source, len, cap);
          return;
        }
        var step := res.value;
        assert StoredFor(step.declared, step.ext);
        var ext: ValidExtension := step.ext;
        assert |step.next.bytes| < |src.bytes| by {
          assert |Frame([step.ext], [step.declared], src.order)| >= 8;
        }
        var nextOffset := Advance(offset, step);
        ghost var tail := DecodeLoop(step.next, len, cap, nextOffset);
        DecodeLoopStep(src, len, cap, offset, step, nextOffset);
        PrependedTwice(extensions, declared, [step.ext], [step.declared], tail);
        extensions := extensions + [ext];
        declared := declared + [step.declared];
        offset := nextOffset;
        src := step.next;
      }
      assert DecodeLoop(src, len, cap, offset) == Success(Decoded([], [], offset, src));
      assert DecodeLoop(source, len, cap, 0) == Success(Decoded(extensions, declared, offset, src)) by {
        assert extensions + [] == extensions && declared + [] == declared;
      }
      FromReaderUnfold(extender, source, len, cap);
    }
    r := Success((ExtensionSequence(extender, extensions), src));
  }
}
