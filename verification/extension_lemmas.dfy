/** Properties of the extension layer: what the extender flag depends on, how the optional
    and mandatory extender reads agree, the record size invariant, text padding, the decoder
    as the exact inverse of the wire framing, its error cases, and its offset accounting. */
module ExtensionLemmas {
  import opened Wrappers
  import opened NiftiErrors
  import opened ByteOrder
  import opened Extensions

  // ---------------------------------------------------------------------------------------
  // Extender

  /** Only the first byte of the extender decides whether extensions follow. */
  lemma HasExtensionsIgnoresLastBytes(e: Extender, b1: byte, b2: byte, b3: byte)
    ensures Extender([e.bytes[0], b1, b2, b3]).HasExtensions() == e.HasExtensions()
    ensures Extender([0, b1, b2, b3]).HasExtensions() == false
  {
  }

  /** The optional read is the mandatory read with end-of-stream turned into `None`. */
  lemma OptionalReadAgreesWithRequired(src: seq<byte>)
    ensures ExtenderFromReaderOptional(src) == Success(ExtenderFromReader(src).ToOption())
  {
  }

  // ---------------------------------------------------------------------------------------
  // Records

  /** For any payload a vector can hold, the constructor's guard is exactly
      `esize == 8 + |edata|`: a negative or mismatched size is always refused. */
  lemma SizeMatchesExactly(esize: i32, edata: seq<byte>)
    requires |edata| <= ISIZE_MAX
    ensures SizeMatches(esize, edata) <==> esize == 8 + |edata|
    ensures esize < 8 ==> !SizeMatches(esize, edata)
  {
  }

  /** Every label maps back to itself. */
  lemma EcodeRoundTrip(c: NiftiEcode)
    ensures EcodeFromI32(c.Value()) == Some(c)
  {
  }

  /** The padded size is the least multiple of 16 that holds the header and the text. */
  lemma FromStrLeastPadding(ecode: i32, text: seq<byte>, m: int)
    requires |text| <= MAX_TEXT_LEN
    requires m % 16 == 0 && 8 + |text| <= m
    ensures FromStr(ecode, text).Size() <= m
  {
    var size := FromStr(ecode, text).Size();
    assert size == 16 * (size / 16) && m == 16 * (m / 16);
    assert size < m + 16;
  }

  // ---------------------------------------------------------------------------------------
  // Sizes on disk

  lemma {:induction false} TotalSizeAppend(a: seq<Extension>, b: seq<Extension>)
    ensures TotalSize(a + b) == TotalSize(a) + TotalSize(b)
  {
    if |a| == 0 {
      assert a + b == b;
    } else {
      assert (a + b)[1..] == a[1..] + b;
      TotalSizeAppend(a[1..], b);
    }
  }

  lemma IsEmptyIffNoRecords(s: ExtensionSequence)
    ensures s.IsEmpty() <==> s.Len() == 0
  {
  }

  /** The sizes the records declare, in order. */
  function Sizes(records: seq<Extension>): (sizes: seq<i32>)
    ensures |sizes| == |records|
    ensures forall i :: 0 <= i < |records| ==> sizes[i] == records[i].esize
  {
    seq(|records|, i requires 0 <= i < |records| => records[i].esize)
  }

  /** A record as the constructor builds it, with a payload the reservation accepts, has a
      size of at least 8 and is stored under the size it declares. */
  lemma StoredUnderOwnSize(ext: ValidExtension, cap: Capacity)
    requires |ext.edata| <= cap
    ensures ext.esize == 8 + |ext.edata| && StoredFor(ext.esize, ext)
  {
  }

  lemma {:induction false} SumOfSizes(records: seq<Extension>)
    requires forall i :: 0 <= i < |records| ==> records[i].esize >= 0
    ensures Sum(Sizes(records)) == TotalSize(records)
  {
    if |records| > 0 {
      assert Sizes(records)[1..] == Sizes(records[1..]);
      SumOfSizes(records[1..]);
    }
  }

  lemma {:induction false} SumNonNegative(xs: seq<i32>)
    requires forall i :: 0 <= i < |xs| ==> 0 <= xs[i]
    ensures 0 <= Sum(xs)
  {
    if |xs| > 0 {
      assert forall i :: 0 <= i < |xs[1..]| ==> xs[1..][i] == xs[i + 1];
      SumNonNegative(xs[1..]);
    }
  }

  /** Every record starts strictly before the total size. */
  lemma PrefixSizesBelowTotal(records: seq<Extension>, i: nat)
    requires forall j :: 0 <= j < |records| ==> records[j].esize >= 8
    requires i < |records|
    ensures Sum(Sizes(records)[..i]) + 8 <= TotalSize(records)
  {
    var prefix := records[..i];
    assert records == prefix + records[i..];
    TotalSizeAppend(prefix, records[i..]);
    assert Sizes(records)[..i] == Sizes(prefix);
    SumOfSizes(prefix);
    assert TotalSize(records[i..]) >= UsizeFromI32(records[i].esize);
  }

  /** The offset advances by the declared sizes; the bytes on disk count the stored sizes.
      The two agree exactly when no record declared a size below 8. */
  lemma {:induction false} DeclaredWithinStored(records: seq<Extension>, declared: seq<i32>)
    requires |records| == |declared|
    requires forall i :: 0 <= i < |records| ==> StoredFor(declared[i], records[i])
    ensures Sum(declared) <= TotalSize(records)
    ensures Sum(declared) == TotalSize(records) <==> forall i :: 0 <= i < |declared| ==> declared[i] >= 8
  {
    if |records| > 0 {
      DeclaredWithinStored(records[1..], declared[1..]);
      assert UsizeFromI32(records[0].esize) == Max(declared[0], 8);
      if forall i :: 0 <= i < |declared| ==> declared[i] >= 8 {
        forall i | 0 <= i < |declared[1..]|
          ensures declared[1..][i] >= 8
        {
          assert declared[1..][i] == declared[i + 1];
        }
      }
      if Sum(declared) == TotalSize(records) {
        forall i | 0 <= i < |declared|
          ensures declared[i] >= 8
        {
          if i > 0 {
            assert declared[i] == declared[1..][i - 1];
          }
        }
      }
    }
  }

  // ---------------------------------------------------------------------------------------
  // The decoder inverts the framing

  /** A framed record is read back as itself, leaving the source just after its payload. */
  lemma ReadRecordOfFrame(declared: i32, ext: Extension, next: ByteOrdered, cap: Capacity)
    requires StoredFor(declared, ext) && |ext.edata| <= cap
    ensures ReadRecord(ByteOrdered(EncodeI32(declared, next.order) + EncodeI32(ext.ecode, next.order)
                                   + ext.edata + next.bytes, next.order), cap)
         == Success(Step(declared, ext, next))
  {
    var o := next.order;
    var afterSize := EncodeI32(ext.ecode, o) + ext.edata + next.bytes;
    var afterCode := ext.edata + next.bytes;
    var bytes := EncodeI32(declared, o) + EncodeI32(ext.ecode, o) + ext.edata + next.bytes;
    assert bytes == EncodeI32(declared, o) + afterSize;
    assert afterSize == EncodeI32(ext.ecode, o) + afterCode;
    DecodeEncodeI32(declared, o);
    DecodeEncodeI32(ext.ecode, o);
    var src := ByteOrdered(bytes, o);
    assert bytes[..4] == EncodeI32(declared, o) && bytes[4..] == afterSize;
    assert ReadI32(src) == Success((declared, ByteOrdered(afterSize, o)));
    assert afterSize[..4] == EncodeI32(ext.ecode, o) && afterSize[4..] == afterCode;
    assert ReadI32(ByteOrdered(afterSize, o)) == Success((ext.ecode, ByteOrdered(afterCode, o)));
    assert DataSize(declared) == |ext.edata|;
    assert Take(ByteOrdered(afterCode, o), |ext.edata|) == (ext.edata, next);
  }

  /** The first record of a framed run is read and the loop goes on at the next record. */
  lemma DecodeFramedHead(records: seq<Extension>, declared: seq<i32>, tail: ByteOrdered,
                         len: usize, cap: Capacity, offset: nat)
    requires 0 < |records| == |declared|
    requires StoredFor(declared[0], records[0]) && |records[0].edata| <= cap
    requires offset < len
    ensures var o := tail.order;
      var next := ByteOrdered(Frame(records[1..], declared[1..], o) + tail.bytes, o);
      DecodeLoop(ByteOrdered(Frame(records, declared, o) + tail.bytes, o), len, cap, offset)
      == Prepended([records[0]], [declared[0]],
                   DecodeLoop(next, len, cap, Advance(offset, Step(declared[0], records[0], next))))
  {
    var o := tail.order;
    var src := ByteOrdered(Frame(records, declared, o) + tail.bytes, o);
    var next := ByteOrdered(Frame(records[1..], declared[1..], o) + tail.bytes, o);
    assert src.bytes == EncodeI32(declared[0], o) + EncodeI32(records[0].ecode, o) + records[0].edata + next.bytes;
    ReadRecordOfFrame(declared[0], records[0], next, cap);
    var step := Step(declared[0], records[0], next);
    DecodeLoopStep(src, len, cap, offset, step, Advance(offset, step));
  }

  /** A run of records as the decoder stores them, each one inside the reservation, which
      the budget lets the loop read in full when it starts at `offset`: the offset is still
      below `len` when each record starts. */
  predicate FramedRun(records: seq<Extension>, declared: seq<i32>, len: usize, cap: Capacity, offset: nat)
    decreases |records|
  {
    && |records| == |declared|
    && (0 < |records| ==>
          && StoredFor(declared[0], records[0])
          && |records[0].edata| <= cap
          && offset < len
          && FramedRun(records[1..], declared[1..], len, cap, offset + declared[0]))
  }

  /** A framed run without its first record is a framed run from the offset after that
      record. */
  lemma FramedRunRest(records: seq<Extension>, declared: seq<i32>, len: usize, cap: Capacity,
                      offset: nat, nextOffset: nat)
    requires FramedRun(records, declared, len, cap, offset) && 0 < |records|
    requires nextOffset == offset + declared[0]
    ensures FramedRun(records[1..], declared[1..], len, cap, nextOffset)
    ensures offset + Sum(declared) == nextOffset + Sum(declared[1..])
  {
  }

  /** Every record of a framed run declared a non-negative size. */
  lemma {:induction false} FramedRunDeclaredNonNegative(records: seq<Extension>, declared: seq<i32>,
                                                        len: usize, cap: Capacity, offset: nat)
    requires FramedRun(records, declared, len, cap, offset)
    ensures forall i :: 0 <= i < |declared| ==> 0 <= declared[i]
    decreases |records|
  {
    if 0 < |records| {
      FramedRunDeclaredNonNegative(records[1..], declared[1..], len, cap, offset + declared[0]);
      forall i | 0 < i < |declared|
        ensures 0 <= declared[i]
      {
        assert declared[i] == declared[1..][i - 1];
      }
    }
  }

  /** Per-record conditions make a framed run: every record is stored as the decoder stores
      it, within the reservation, and the offset before it (the start plus the sizes declared
      before it) is below the budget. */
  lemma {:induction false} FramedRunFromBounds(records: seq<Extension>, declared: seq<i32>, len: usize,
                                               cap: Capacity, offset: nat)
    requires |records| == |declared|
    requires forall i :: 0 <= i < |records| ==> StoredFor(declared[i], records[i]) && |records[i].edata| <= cap
    requires forall i :: 0 <= i < |records| ==> offset + Sum(declared[..i]) < len
    ensures FramedRun(records, declared, len, cap, offset)
    decreases |records|
  {
    if 0 < |records| {
      assert declared[..0] == [];
      assert 0 <= declared[0] by {
        assert StoredFor(declared[0], records[0]);
      }
      var nextOffset: nat := offset + declared[0];
      forall i | 0 <= i < |records[1..]|
        ensures nextOffset + Sum(declared[1..][..i]) < len
      {
        assert declared[..i + 1] == [declared[0]] + declared[1..][..i];
        assert ([declared[0]] + declared[1..][..i])[1..] == declared[1..][..i];
      }
      forall i | 0 <= i < |records[1..]|
        ensures StoredFor(declared[1..][i], records[1..][i]) && |records[1..][i].edata| <= cap
      {
        assert records[1..][i] == records[i + 1] && declared[1..][i] == declared[i + 1];
      }
      FramedRunFromBounds(records[1..], declared[1..], len, cap, nextOffset);
    }
  }

  /** The base case of `DecodeFramed`: an empty run frames to no bytes and adds no records. */
  lemma DecodeFramedNone(records: seq<Extension>, declared: seq<i32>, tail: ByteOrdered,
                         len: usize, cap: Capacity, offset: nat, finalOffset: nat)
    requires |records| == 0 && |declared| == 0
    requires finalOffset == offset + Sum(declared)
    ensures DecodeLoop(ByteOrdered(Frame(records, declared, tail.order) + tail.bytes, tail.order), len, cap, offset)
         == Prepended(records, declared, DecodeLoop(tail, len, cap, finalOffset))
  {
    assert records == [] && declared == [];
    assert ByteOrdered(Frame(records, declared, tail.order) + tail.bytes, tail.order) == tail;
    PrependedNothing(DecodeLoop(tail, len, cap, finalOffset));
  }

  /** The inductive step of `DecodeFramed`: if the run without its first record decodes to
      itself from the offset after that record, the whole run decodes to itself. */
  lemma DecodeFramedStep(records: seq<Extension>, declared: seq<i32>, tail: ByteOrdered,
                         len: usize, cap: Capacity, offset: nat, finalOffset: nat)
    returns (nextOffset: nat)
    requires FramedRun(records, declared, len, cap, offset) && 0 < |records|
    requires finalOffset == offset + Sum(declared)
    ensures FramedRun(records[1..], declared[1..], len, cap, nextOffset)
    ensures finalOffset == nextOffset + Sum(declared[1..])
    ensures var o := tail.order;
      var rest := DecodeLoop(tail, len, cap, finalOffset);
      (DecodeLoop(ByteOrdered(Frame(records[1..], declared[1..], o) + tail.bytes, o), len, cap, nextOffset)
         == Prepended(records[1..], declared[1..], rest))
      ==>
      (DecodeLoop(ByteOrdered(Frame(records, declared, o) + tail.bytes, o), len, cap, offset)
         == Prepended(records, declared, rest))
  {
    var o := tail.order;
    var next := ByteOrdered(Frame(records[1..], declared[1..], o) + tail.bytes, o);
    nextOffset := Advance(offset, Step(declared[0], records[0], next));
    DecodeFramedHead(records, declared, tail, len, cap, offset);
    FramedRunRest(records, declared, len, cap, offset, nextOffset);
    var mid := DecodeLoop(next, len, cap, nextOffset);
    var rest := DecodeLoop(tail, len, cap, finalOffset);
    if mid == Prepended(records[1..], declared[1..], rest) {
      PrependedSplit(records, declared, mid, rest);
    }
  }

  /** Decoding a framed run of records yields those records, in order, followed by whatever
      the rest of the stream decodes to; `finalOffset` is the offset after the run. */
  lemma {:induction false} DecodeFramed(records: seq<Extension>, declared: seq<i32>, tail: ByteOrdered,
                                        len: usize, cap: Capacity, offset: nat, finalOffset: nat)
    requires FramedRun(records, declared, len, cap, offset)
    requires finalOffset == offset + Sum(declared)
    ensures DecodeLoop(ByteOrdered(Frame(records, declared, tail.order) + tail.bytes, tail.order), len, cap, offset)
         == Prepended(records, declared, DecodeLoop(tail, len, cap, finalOffset))
    decreases |records|
  {
    if |records| == 0 {
      DecodeFramedNone(records, declared, tail, len, cap, offset, finalOffset);
    } else {
      var nextOffset := DecodeFramedStep(records, declared, tail, len, cap, offset, finalOffset);
      DecodeFramed(records[1..], declared[1..], tail, len, cap, nextOffset, finalOffset);
    }
  }

  /** Putting the first record in front of what was decoded after the rest of a run is the
      same as putting the whole run in front. */
  lemma PrependedSplit(records: seq<Extension>, declared: seq<i32>, mid: Result<Decoded, NiftiError>,
                       rest: Result<Decoded, NiftiError>)
    requires 0 < |records| && 0 < |declared|
    requires mid == Prepended(records[1..], declared[1..], rest)
    ensures Prepended([records[0]], [declared[0]], mid) == Prepended(records, declared, rest)
  {
    PrependedTwice([records[0]], [declared[0]], records[1..], declared[1..], rest);
    assert [records[0]] + records[1..] == records && [declared[0]] + declared[1..] == declared;
  }

  /** Round trip: with a budget equal to their total size, well-formed records framed in
      either byte order decode back to exactly those records, and the bytes after them are
      left unread. */
  lemma DecodeEncoded(extender: Extender, records: seq<ValidExtension>, tail: ByteOrdered, cap: Capacity)
    requires extender.HasExtensions()
    requires forall i :: 0 <= i < |records| ==> |records[i].edata| <= cap
    requires TotalSize(records) <= USIZE_MAX
    ensures FromReader(extender, ByteOrdered(Frame(records, Sizes(records), tail.order) + tail.bytes, tail.order),
                       TotalSize(records), cap)
         == Success((ExtensionSequence(extender, records), tail))
  {
    var sizes := Sizes(records);
    var len: usize := TotalSize(records);
    forall i | 0 <= i < |records|
      ensures StoredFor(sizes[i], records[i]) && |records[i].edata| <= cap
    {
      StoredUnderOwnSize(records[i], cap);
    }
    forall i | 0 <= i < |records|
      ensures 0 + Sum(sizes[..i]) < len
    {
      PrefixSizesBelowTotal(records, i);
    }
    FramedRunFromBounds(records, sizes, len, cap, 0);
    SumOfSizes(records);
    DecodeFramed(records, sizes, tail, len, cap, 0, len);
    assert DecodeLoop(tail, len, cap, len) == Success(Decoded([], [], len, tail));
    assert records + [] == records && sizes + [] == sizes;
    FromReaderUnfold(extender, ByteOrdered(Frame(records, sizes, tail.order) + tail.bytes, tail.order), len, cap);
  }

  // ---------------------------------------------------------------------------------------
  // Errors

  /** How one loop iteration fails: too few bytes for the two header fields, a payload
      length the reservation refuses (always so for a negative size), or a payload cut
      short by the end of the stream; otherwise it succeeds. */
  lemma ReadRecordOutcome(src: ByteOrdered, cap: Capacity)
    ensures |src.bytes| < 8 ==> ReadRecord(src, cap) == Failure(Io(UnexpectedEof))
    ensures |src.bytes| >= 8 ==>
      var esize := DecodeI32(src.bytes[..4], src.order);
      var n := DataSize(esize);
      && (esize < 0 ==> ReadRecord(src, cap) == Failure(ReserveExtended(UsizeFromI32(esize) - 8)))
      && (n > cap ==> ReadRecord(src, cap) == Failure(ReserveExtended(n)))
      && (n <= cap && |src.bytes| - 8 < n ==>
            ReadRecord(src, cap) == Failure(IncompatibleLength(|src.bytes| - 8, n)))
      && (n <= cap && n <= |src.bytes| - 8 ==> ReadRecord(src, cap).Success?)
  {
    var o := src.order;
    match ReadI32(src)
    case Failure(_) =>
    case Success((esize, s1)) =>
      assert src.bytes[..4] == EncodeI32(esize, o);
      DecodeEncodeI32(esize, o);
  }

  /** An error in the first record ends the whole decode with that error. */
  lemma FirstRecordError(extender: Extender, src: ByteOrdered, len: usize, cap: Capacity)
    requires extender.HasExtensions() && 0 < len
    requires ReadRecord(src, cap).Failure?
    ensures FromReader(extender, src, len, cap) == Failure(ReadRecord(src, cap).error)
  {
    DecodeLoopUnfold(src, len, cap, 0);
    FromReaderUnfold(extender, src, len, cap);
  }

  /** No partial result: records decoded before a failing one are discarded, and the
      decoder returns only the error. */
  lemma ErrorDiscardsDecodedRecords(extender: Extender, records: seq<Extension>, declared: seq<i32>,
                                    tail: ByteOrdered, len: usize, cap: Capacity)
    requires extender.HasExtensions()
    requires FramedRun(records, declared, len, cap, 0)
    requires Sum(declared) < len
    requires ReadRecord(tail, cap).Failure?
    ensures FromReader(extender, ByteOrdered(Frame(records, declared, tail.order) + tail.bytes, tail.order), len, cap)
         == Failure(ReadRecord(tail, cap).error)
  {
    assert 0 <= Sum(declared) by {
      FramedRunDeclaredNonNegative(records, declared, len, cap, 0);
      SumNonNegative(declared);
    }
    var finalOffset: nat := Sum(declared);
    DecodeFramed(records, declared, tail, len, cap, 0, finalOffset);
    DecodeLoopUnfold(tail, len, cap, finalOffset);
    FromReaderUnfold(extender, ByteOrdered(Frame(records, declared, tail.order) + tail.bytes, tail.order), len, cap);
  }

  // ---------------------------------------------------------------------------------------
  // Offset accounting

  /** When decoding succeeds, the offset has reached the budget; the bytes on disk are the
      bytes consumed; the offset never runs ahead of them (so it cannot wrap for a stream
      shorter than 2^64 bytes); and it equals them exactly when every record declared at
      least 8 bytes. A record declaring 0 to 7 bytes is stored as 8 bytes while the offset
      moves by less. */
  lemma DecodeOffsetAccounting(src: ByteOrdered, len: usize, cap: Capacity)
    ensures var r := DecodeLoop(src, len, cap, 0);
      r.Success? ==>
        && len <= r.value.offset
        && TotalSize(r.value.records) == |src.bytes| - |r.value.rest.bytes|
        && r.value.offset <= TotalSize(r.value.records)
        && (r.value.offset == TotalSize(r.value.records) <==>
              forall i :: 0 <= i < |r.value.declared| ==> r.value.declared[i] >= 8)
  {
    var r := DecodeLoop(src, len, cap, 0);
    if r.Success? {
      FrameLength(r.value.records, r.value.declared, src.order);
      DeclaredWithinStored(r.value.records, r.value.declared);
    }
  }

  // ---------------------------------------------------------------------------------------
  // Worked examples

  /** A comment extension `hello` padded to 16 bytes, read with a 16-byte budget. */
  lemma HelloComment(cap: Capacity)
    requires 8 <= cap
    ensures var ext := Extender([1, 0, 0, 0]);
      FromReader(ext, ByteOrdered([16, 0, 0, 0, 6, 0, 0, 0, 104, 101, 108, 108, 111, 0, 0, 0], LittleEndian), 16, cap)
      == Success((ExtensionSequence(ext, [Extension(16, 6, [104, 101, 108, 108, 111, 0, 0, 0])]),
                  ByteOrdered([], LittleEndian)))
  {
    var rec := Extension(16, 6, [104, 101, 108, 108, 111, 0, 0, 0]);
    var tail := ByteOrdered([], LittleEndian);
    assert Frame([rec], Sizes([rec]), LittleEndian) + tail.bytes
        == [16, 0, 0, 0, 6, 0, 0, 0, 104, 101, 108, 108, 111, 0, 0, 0];
    assert TotalSize([rec]) == 16;
    DecodeEncoded(Extender([1, 0, 0, 0]), [rec], tail, cap);
  }

  /** A record declaring 32 bytes with only 10 payload bytes left fails with (10, 24). */
  lemma TruncatedPayload(ext: Extender, code: i32, payload: seq<byte>, order: Endianness, len: usize, cap: Capacity)
    requires ext.HasExtensions() && 0 < len && 24 <= cap
    requires |payload| == 10
    ensures FromReader(ext, ByteOrdered(EncodeI32(32, order) + EncodeI32(code, order) + payload, order), len, cap)
         == Failure(IncompatibleLength(10, 24))
  {
    var src := ByteOrdered(EncodeI32(32, order) + EncodeI32(code, order) + payload, order);
    assert src.bytes[..4] == EncodeI32(32, order);
    DecodeEncodeI32(32, order);
    ReadRecordOutcome(src, cap);
    FirstRecordError(ext, src, len, cap);
  }

  /** A negative declared size is refused at the reservation whatever the capacity. */
  lemma NegativeSizeRefused(ext: Extender, esize: i32, code: i32, rest: seq<byte>, order: Endianness, len: usize, cap: Capacity)
    requires ext.HasExtensions() && 0 < len && esize < 0
    ensures FromReader(ext, ByteOrdered(EncodeI32(esize, order) + EncodeI32(code, order) + rest, order), len, cap)
         == Failure(ReserveExtended(USIZE_MODULUS + esize - 8))
  {
    var src := ByteOrdered(EncodeI32(esize, order) + EncodeI32(code, order) + rest, order);
    assert src.bytes[..4] == EncodeI32(esize, order);
    DecodeEncodeI32(esize, order);
    ReadRecordOutcome(src, cap);
    FirstRecordError(ext, src, len, cap);
  }
}
