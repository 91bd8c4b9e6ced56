/** Queries over blocks of memory that can be read throughout, and a query that finds nothing in any block. */
module ReadableBlocks {
  import opened Wrappers
  import opened Bytes
  import opened ScanPatterns
  import opened AddressRanges
  import opened ScanStates
  import opened ChunkedScan
  import opened ScanExactness
  import opened PatternStructs
  import opened Scanners
  import opened Queries
  import opened QueryStreams
  import opened SchemaLayouts
  import opened SchemaCodecs
  import opened SchemaRoundTrips
  import opened MaskedBytes
  import opened QueryExactness
  import opened QueryBlocks

  /** The last aligned place for a struct in the block. */
  function LastPlace(block: AddressRange, n: nat): (b: nat)
    requires block.Valid() && n <= block.Size()
  {
    block.start + (block.Size() - n) / ALIGN_SIZE * ALIGN_SIZE
  }

  /** How far windows may reach: to the end of the block, or of the tail if that is larger. */
  function ScannedEnd(block: AddressRange, readSize: nat): nat {
    if block.end <= block.start + readSize then block.start + readSize else block.end
  }

  /** Only the last struct that fits can have its window cut off. */
  predicate LastIsReached(mask: seq<byte>, scanner: Scanner, block: AddressRange)
    requires block.Valid() && |mask| <= block.Size()
  {
    LastPlace(block, |mask|) + FirstSignificant(mask) + WindowSize(mask) <= ScannedEnd(block, scanner.readSize)
  }

  lemma {:induction false} AllReadable(scanner: Scanner, block: AddressRange, x: nat)
    requires block.Valid() && scanner.readSize > 0 && block.start <= x < block.end
    requires forall c :: c in Chunks(block, scanner.readSize) ==> !scanner.process.fails(c)
    ensures ByteRead(scanner, block, x)
  {
    ReadableChunks(scanner.process.fails, block, scanner.readSize, x);
  }

  /** A struct can be wherever it fits. */
  lemma {:induction false} PlaceIff(scanner: Scanner, block: AddressRange, n: nat, b: nat)
    requires block.Valid() && scanner.readSize > 0
    requires forall c :: c in Chunks(block, scanner.readSize) ==> !scanner.process.fails(c)
    ensures Place(scanner, block, n, b) <==> block.start <= b && b + n <= block.end && b % ALIGN_SIZE == 0
  {
    hide Readable, Chunks;
    forall x: nat | block.start <= x < block.end
      ensures ByteRead(scanner, block, x)
    {
      AllReadable(scanner, block, x);
    }
  }

  lemma {:induction false} ReachedIff(scanner: Scanner, block: AddressRange, room: int, a: nat)
    requires block.Valid() && scanner.readSize > 0 && block.start <= a
    requires forall c :: c in Chunks(block, scanner.readSize) ==> !scanner.process.fails(c)
    ensures Reached(scanner, block, room, a) <==> a + room <= ScannedEnd(block, scanner.readSize)
  {
    hide Readable, Chunks;
    forall x: nat | block.start <= x < block.end
      ensures ByteRead(scanner, block, x)
    {
      AllReadable(scanner, block, x);
    }
  }

  lemma LastPlaceIs(block: AddressRange, n: nat, b: nat)
    requires block.Valid() && block.start % ALIGN_SIZE == 0 && n <= block.Size()
    ensures var last := LastPlace(block, n);
      block.start <= last && last + n <= block.end && last % ALIGN_SIZE == 0
    ensures b + n <= block.end && b % ALIGN_SIZE == 0 ==> b <= LastPlace(block, n)
  {
  }

  /** Every struct's window is scanned exactly if that of the last one is. */
  lemma {:induction false} AllReachedIff(mask: seq<byte>, scanner: Scanner, block: AddressRange)
    requires block.Valid() && block.start % ALIGN_SIZE == 0 && scanner.readSize > 0
    requires forall c :: c in Chunks(block, scanner.readSize) ==> !scanner.process.fails(c)
    ensures (exists b: nat :: Place(scanner, block, |mask|, b)) <==> |mask| <= block.Size()
    ensures |mask| <= block.Size() ==>
      ((forall b: nat :: Place(scanner, block, |mask|, b) ==>
         Reached(scanner, block, WindowSize(mask), b + FirstSignificant(mask))) <==> LastIsReached(mask, scanner, block))
  {
    hide Chunks, FirstSignificant, WindowSize, Place, Reached, ScannedEnd, LastPlace;
    var n, room := |mask|, WindowSize(mask);
    forall b: nat
      ensures Place(scanner, block, n, b) <==> block.start <= b && b + n <= block.end && b % ALIGN_SIZE == 0
    {
      PlaceIff(scanner, block, n, b);
    }
    if n <= block.Size() {
      var last := LastPlace(block, n);
      LastPlaceIs(block, n, block.start);
      ReachedIff(scanner, block, room, last + FirstSignificant(mask));
      assert Place(scanner, block, n, last);
      forall b: nat | Place(scanner, block, n, b)
        ensures b <= last
        ensures Reached(scanner, block, room, b + FirstSignificant(mask)) <==>
          b + FirstSignificant(mask) + room <= ScannedEnd(block, scanner.readSize)
      {
        LastPlaceIs(block, n, b);
        ReachedIff(scanner, block, room, b + FirstSignificant(mask));
      }
    }
  }

  /** Without failed reads every block is guarded. */
  lemma {:induction false} ReadBlockGuarded(m: Masked, scanner: Scanner, block: AddressRange)
    requires |m.bytes| == |m.mask| && CanScanBlock(m, scanner, block) && block.Valid() && scanner.readSize > 0
    requires forall c :: c in Chunks(block, scanner.readSize) ==> !scanner.process.fails(c)
    ensures GuardedBlock(m, scanner, block)
  {
    hide QueryToScanPattern, Chunks, ScanPattern.Valid, PatternFitsLast;
    match QueryToScanPattern(m.bytes, m.mask)
    case None =>
    case Some((s, _)) =>
      LastChunksAreChunks(BlockJob(s, scanner, block));
  }

  /**
    * In a block that can be read throughout: a query returns of the aligned structs inside the block exactly
    * those with all the values given if and only if something is significant and, should any struct fit, every
    * given byte is pinned, the first significant byte is aligned, and the last struct's window is not cut off.
    */
  lemma {:induction false} BlockQueryExactIff(
    fields: seq<Field>, entries: seq<Entry>, custom: Option<seq<byte>>, m: Masked, scanner: Scanner, block: AddressRange)
    requires ValidType(Embed(fields)) && Distinct(entries) && ToMaskedBytes(fields, entries, custom) == Ok(m)
    requires |m.bytes| == |m.mask| && CanScanBlock(m, scanner, block)
    requires block.Valid() && block.start % ALIGN_SIZE == 0 && scanner.readSize > 0
    requires forall c :: c in Chunks(block, scanner.readSize) ==> !scanner.process.fails(c)
    ensures WellGiven(Given(fields, entries))
    ensures FindsStructs(m, Given(fields, entries), scanner, block) <==>
      && 0xFF in m.mask
      && (block.Size() < |m.mask| ||
          (&& ExactQuery(Given(fields, entries), ScannedMask(m.mask))
           && FirstSignificant(m.mask) % ALIGN_SIZE == 0
           && LastIsReached(m.mask, scanner, block)))
  {
    hide ToMaskedBytes, ValidType, Given, CanScanBlock, GuardedBlock, FindsStructs, WellGiven, Chunks, ExactQuery,
         FirstSignificant, WindowSize, ScannedMask, Place, Reached, LastIsReached;
    ReadBlockGuarded(m, scanner, block);
    QueryFindsIff(fields, entries, custom, m, scanner, block);
    AllReachedIff(m.mask, scanner, block);
  }

  /** Without a mask of the schema's own, any given field is significant, and the mask is scanned for as it is. */
  lemma {:induction false} PlainBlockQueryExactIff(
    fields: seq<Field>, entries: seq<Entry>, m: Masked, scanner: Scanner, block: AddressRange)
    requires ValidType(Embed(fields)) && Distinct(entries) && ToMaskedBytes(fields, entries, None) == Ok(m)
    requires |m.bytes| == |m.mask| && CanScanBlock(m, scanner, block)
    requires block.Valid() && block.start % ALIGN_SIZE == 0 && scanner.readSize > 0
    requires forall c :: c in Chunks(block, scanner.readSize) ==> !scanner.process.fails(c)
    ensures WellGiven(Given(fields, entries)) && |m.mask| == StructSize(fields)
    ensures FindsStructs(m, Given(fields, entries), scanner, block) <==>
      && entries != []
      && (block.Size() < StructSize(fields) ||
          (&& ExactQuery(Given(fields, entries), m.mask)
           && FirstSignificant(m.mask) % ALIGN_SIZE == 0
           && LastIsReached(m.mask, scanner, block)))
  {
    hide ToMaskedBytes, ValidType, Given, CanScanBlock, Chunks, FindsStructs, WellGiven, ExactQuery, FirstSignificant,
         LastIsReached, ScannedMask, AllCompiled, Assigns;
    QueryGives(fields, entries, None, m);
    BlockQueryExactIff(fields, entries, None, m, scanner, block);
    PlainQueryMask(fields, entries, m);
    PlainMaskScanned(m.mask);
  }

  // A query that compares exactly and finds nothing.

  const HALVES := [Field("lo", Unsigned(2), 0, 2), Field("hi", Unsigned(2), 2, 2)]

  function UpperIsSeven(): seq<Entry> {
    [("hi", VInt(7))]
  }

  lemma HalvesNames()
    ensures HALVES[0].name != HALVES[1].name
    ensures forall k :: 0 <= k < 2 ==> HALVES[k].name !in RESERVED_FIELDS && IsVariable(HALVES[k].name)
  {
    assert HALVES[0].name[0] == 'l' && HALVES[1].name[0] == 'h';
    assert forall i :: 0 <= i < |RESERVED_FIELDS| ==> RESERVED_FIELDS[i][0] == '_';
    assert forall i :: 0 <= i < |NO_VARIABLES| ==> NO_VARIABLES[i][0] == '_';
  }

  lemma HalvesValid()
    ensures ValidType(Embed(HALVES)) && WellLaid(HALVES) && StructSize(HALVES) == 4
  {
    HalvesNames();
    hide IsVariable;
    var hi := HALVES[1];
    assert HALVES[1..] == [hi] && [hi][1..] == [];
    assert OrderedFrom([hi], 2);
    assert WellLaid(HALVES);
  }

  lemma UpperGiven()
    ensures Relevant(HALVES, UpperIsSeven()) == Ok([Assignment(HALVES[1], VInt(7))])
    ensures Assignment(HALVES[1], VInt(7)).Printed().Ok?
  {
    RelevantAre(HALVES, UpperIsSeven());
    assert HALVES[1] in HALVES && HasField(HALVES, "hi");
    assert HALVES[0].name[0] != "hi"[0];
    assert UpperIsSeven()[0].0 == "hi";
    var given := Relevant(HALVES, UpperIsSeven()).value;
    assert given[0].field.name == "hi" && given[0] == Assignment(HALVES[1], VInt(7));
    assert given == [Assignment(HALVES[1], VInt(7))];
    assert Span(2) == 0x100 * Span(1) && Span(1) == 0x100 * Span(0);
  }

  lemma UpperMask() returns (m: Masked)
    ensures ValidType(Embed(HALVES)) && ToMaskedBytes(HALVES, UpperIsSeven(), None) == Ok(m)
    ensures |m.bytes| == 4 && m.mask == [0, 0, 0xFF, 0xFF]
  {
    HalvesValid();
    UpperGiven();
    hide ToMaskedBytes, ValidType, Relevant, Assignment.Printed, WellLaid;
    var entries := UpperIsSeven();
    MaskedBytesOkIff(HALVES, entries, None);
    m := ToMaskedBytes(HALVES, entries, None).value;
    forall i | 0 <= i < 4
      ensures m.mask[i] == if i < 2 then 0 else 0xFF
    {
      MaskedBytesAt(HALVES, entries, None, i);
      assert Relevant(HALVES, entries).value[0] == Assignment(HALVES[1], VInt(7));
    }
  }

  lemma UpperPattern(bytes: seq<byte>, mask: seq<byte>)
    requires |bytes| == |mask| && mask == [0, 0, 0xFF, 0xFF]
    ensures QueryToScanPattern(bytes, mask).Some? && QueryToScanPattern(bytes, mask).value.1 == 2
  {
    assert mask[2] == 0xFF;
    PatternIffSignificant(bytes, mask);
    hide QueryToScanPattern, TruncateSignificantBytes, SamePattern, BytePatternOf;
    var t, finalMask, s := QueryCompiles(bytes, mask);
    TrimmedSpan(t, bytes, mask);
    assert mask[1..][1..] == [0xFF, 0xFF];
    assert FindIndex(mask[1..][1..]) == Some(0);
  }

  lemma UpperPinned(mask: seq<byte>)
    requires mask == [0, 0, 0xFF, 0xFF]
    ensures IsWellGiven(Assignment(HALVES[1], VInt(7))) && AllPinned(Assignment(HALVES[1], VInt(7)), mask)
  {
    UpperGiven();
    PrintSize(Unsigned(2), VInt(7));
  }

  /**
    * For the upper of two 2-byte fields the comparison is exact, but its pattern starts 2 bytes into the
    * struct: whatever job scans for it, no aligned struct is found.
    */
  lemma UpperHalfNeverFound(job: Job, stale: seq<byte>, b: int)
    requires job.Valid() && |stale| == job.readSize && b % ALIGN_SIZE == 0
    ensures ValidType(Embed(HALVES)) && ToMaskedBytes(HALVES, UpperIsSeven(), None).Ok?
    ensures WellGiven(Given(HALVES, UpperIsSeven()))
    ensures var m := ToMaskedBytes(HALVES, UpperIsSeven(), None).value;
      && ExactQuery(Given(HALVES, UpperIsSeven()), m.mask)
      && |m.bytes| == |m.mask| && QueryToScanPattern(m.bytes, m.mask).Some?
      && QueryToScanPattern(m.bytes, m.mask).value.1 == 2
      && b !in StructAddresses(ScanResult(job, stale), 2)
  {
    var m := UpperMask();
    UpperGiven();
    hide ToMaskedBytes, ValidType, Relevant, ScanResult, StructAddresses, QueryToScanPattern, AllPinned, IsWellGiven;
    assert Given(HALVES, UpperIsSeven()) == [Assignment(HALVES[1], VInt(7))];
    UpperPinned(m.mask);
    UpperPattern(m.bytes, m.mask);
    MisalignedNeverFound(job, stale, 2, b);
  }
}
