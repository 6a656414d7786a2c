/** The AcqKnowledge reader's bootstrap: format strings for the main header
    at a given version, and detection of the file's byte order and version
    from the first bytes of the file. */
module AcqReader {
  import opened Wrappers
  import opened Endian
  import opened StructFormat
  import opened HeaderTable

  /** A reader bound to the contents of one file. The byte-order flag and the
      file version stay unset until detection succeeds. */
  datatype Reader = Reader(acqFile: seq<Byte>, byteOrderFlag: Option<ByteOrder>, fileVersion: Option<int>)

  /** The Python exception a reader operation raises. */
  datatype ReaderError =
    | TypeError              // concatenating an unset byte-order flag
    | Struct(e: StructError) // `struct.unpack` rejected the bytes read
    | IndexError             // no byte order gave a positive version

  /** A freshly opened reader: nothing is known about the file yet. */
  function NewReader(acqFile: seq<Byte>): Reader
  {
    Reader(acqFile, None, None)
  }

  /** Bytes the version probe reads: all main-header fields, since the
      version-0 filter keeps the whole table. */
  const ProbeLength: nat := 150

  // ---------------------------------------------------------------------------
  // The main header table

  /** The main header, in file order (the reader's `_main_header_structure`). */
  function MainHeaderStructure(): seq<Field>
  {
    seq(24, i requires 0 <= i < 24 => MainField(i))
  }

  /** Row i of the main header table. */
  function MainField(i: nat): Field
    requires i < 24
  {
    match i
    case 0 => Field("nItemHeaderLen", Code(1, Short), 0)
    case 1 => Field("iVersion", Code(1, Int), 0)
    case 2 => Field("iExtItemHeaderLen", Code(1, Int), 30)
    case 3 => Field("nChannels", Code(1, Short), 30)
    case 4 => Field("nHorizAxisType", Code(1, Short), 30)
    case 5 => Field("nCurChannel", Code(1, Short), 30)
    case 6 => Field("dSampleTime", Code(1, Double), 30)
    case 7 => Field("dTimeOffset", Code(1, Double), 30)
    case 8 => Field("dTimeScale", Code(1, Double), 30)
    case 9 => Field("dTimeCursor1", Code(1, Double), 30)
    case 10 => Field("dTimeCursor2", Code(1, Double), 30)
    case 11 => Field("rcWindow", Code(8, SignedChar), 30)
    case 12 => Field("nMeasurement", Code(6, Short), 30)
    case 13 => Field("fHilite", Code(1, Short), 30)
    case 14 => Field("dFirstTimeOffset", Code(1, Double), 30)
    case 15 => Field("nRescale", Code(1, Short), 30)
    case 16 => Field("szHorizUnits1", Code(40, Chars), 30)
    case 17 => Field("szHorizUnits2", Code(10, Chars), 30)
    case 18 => Field("nInMemory", Code(1, Short), 30)
    case 19 => Field("fGrid", Code(1, Short), 30)
    case 20 => Field("fMarkers", Code(1, Short), 30)
    case 21 => Field("nPlotDraft", Code(1, Short), 30)
    case 22 => Field("nDispMode", Code(1, Short), 30)
    case 23 => Field("rRReserved", Code(1, Short), 30)
  }

  lemma MainTableVersions()
    ensures |MainHeaderStructure()| == 24
    ensures forall i :: 0 <= i < 2 ==> MainHeaderStructure()[i].firstVersion == 0
    ensures forall i :: 2 <= i < 24 ==> MainHeaderStructure()[i].firstVersion == 30
  {
  }

  lemma MainHeadersForCases(ver: int)
    ensures ver <= 0 ==> HeadersFor(MainHeaderStructure(), ver) == MainHeaderStructure()
    ensures 0 < ver <= 30 ==> HeadersFor(MainHeaderStructure(), ver) == MainHeaderStructure()[2..]
    ensures 30 < ver ==> HeadersFor(MainHeaderStructure(), ver) == []
  {
    MainTableVersions();
    var main := MainHeaderStructure();
    assert main == main[..2] + main[2..];
    HeadersForConcat(main[..2], main[2..], ver);
    HeadersForExtremes(main[..2], ver);
    HeadersForExtremes(main[2..], ver);
  }

  /** The main-header fields kept for a version: everything up to version 0,
      all but the first two up to version 30, nothing above. */
  function MainHeadersFor(ver: int): (r: seq<Field>)
    ensures ver <= 0 ==> r == MainHeaderStructure()
    ensures 0 < ver <= 30 ==> r == MainHeaderStructure()[2..]
    ensures 30 < ver ==> r == []
  {
    MainHeadersForCases(ver);
    HeadersFor(MainHeaderStructure(), ver)
  }

  /** Any 24 codes with the main header's widths occupy ProbeLength bytes. */
  lemma SumOfMainWidths(cs: seq<Code>)
    requires |cs| == 24
    requires Width(cs[0]) == 2 && Width(cs[1]) == 4 && Width(cs[2]) == 4 && Width(cs[3]) == 2 && Width(cs[4]) == 2 && Width(cs[5]) == 2
    requires Width(cs[6]) == 8 && Width(cs[7]) == 8 && Width(cs[8]) == 8 && Width(cs[9]) == 8 && Width(cs[10]) == 8 && Width(cs[11]) == 8
    requires Width(cs[12]) == 12 && Width(cs[13]) == 2 && Width(cs[14]) == 8 && Width(cs[15]) == 2 && Width(cs[16]) == 40 && Width(cs[17]) == 10
    requires Width(cs[18]) == 2 && Width(cs[19]) == 2 && Width(cs[20]) == 2 && Width(cs[21]) == 2 && Width(cs[22]) == 2 && Width(cs[23]) == 2
    ensures SumWidths(cs) == ProbeLength
  {
    assert cs[24..] == [];
    SumWidthsSuffix(cs, 23); assert SumWidths(cs[23..]) == 2;
    SumWidthsSuffix(cs, 22); assert SumWidths(cs[22..]) == 4;
    SumWidthsSuffix(cs, 21); assert SumWidths(cs[21..]) == 6;
    SumWidthsSuffix(cs, 20); assert SumWidths(cs[20..]) == 8;
    SumWidthsSuffix(cs, 19); assert SumWidths(cs[19..]) == 10;
    SumWidthsSuffix(cs, 18); assert SumWidths(cs[18..]) == 12;
    SumWidthsSuffix(cs, 17); assert SumWidths(cs[17..]) == 22;
    SumWidthsSuffix(cs, 16); assert SumWidths(cs[16..]) == 62;
    SumWidthsSuffix(cs, 15); assert SumWidths(cs[15..]) == 64;
    SumWidthsSuffix(cs, 14); assert SumWidths(cs[14..]) == 72;
    SumWidthsSuffix(cs, 13); assert SumWidths(cs[13..]) == 74;
    SumWidthsSuffix(cs, 12); assert SumWidths(cs[12..]) == 86;
    SumWidthsSuffix(cs, 11); assert SumWidths(cs[11..]) == 94;
    SumWidthsSuffix(cs, 10); assert SumWidths(cs[10..]) == 102;
    SumWidthsSuffix(cs, 9); assert SumWidths(cs[9..]) == 110;
    SumWidthsSuffix(cs, 8); assert SumWidths(cs[8..]) == 118;
    SumWidthsSuffix(cs, 7); assert SumWidths(cs[7..]) == 126;
    SumWidthsSuffix(cs, 6); assert SumWidths(cs[6..]) == 134;
    SumWidthsSuffix(cs, 5); assert SumWidths(cs[5..]) == 136;
    SumWidthsSuffix(cs, 4); assert SumWidths(cs[4..]) == 138;
    SumWidthsSuffix(cs, 3); assert SumWidths(cs[3..]) == 140;
    SumWidthsSuffix(cs, 2); assert SumWidths(cs[2..]) == 144;
    SumWidthsSuffix(cs, 1); assert SumWidths(cs[1..]) == 148;
    SumWidthsSuffix(cs, 0); assert SumWidths(cs[0..]) == 150;
    assert cs[0..] == cs;
  }

  /** The whole main header occupies ProbeLength bytes. */
  lemma MainWidth()
    ensures SumWidths(Codes(MainHeaderStructure())) == ProbeLength
  {
    SumOfMainWidths(Codes(MainHeaderStructure()));
  }

  /** The layout facts detection relies on: iVersion is the second field, a
      plain 4-byte 'i' at byte offset 2 after a single 'h'; the first four
      fields (widths 2, 4, 4, 2) sit at offsets 0, 2, 6 and 10. */
  lemma MainLayout()
    ensures MainHeaderStructure()[0].code == Code(1, Short)
    ensures MainHeaderStructure()[1] == Field("iVersion", Code(1, Int), 0)
    ensures ItemCount(MainHeaderStructure()[0].code) == 1
    ensures OffsetOf(MainHeaderStructure(), 0) == 0
    ensures OffsetOf(MainHeaderStructure(), 1) == 2
    ensures OffsetOf(MainHeaderStructure(), 2) == 6
    ensures OffsetOf(MainHeaderStructure(), 3) == 10
  {
    var m := MainHeaderStructure();
    assert m[..0] == [];
    OffsetStep(m, 0);
    OffsetStep(m, 1);
    OffsetStep(m, 2);
  }

  /** What the version probe needs of the version-0 main header codes. */
  lemma ProbeCodes()
    ensures |Codes(MainHeadersFor(0))| >= 2
    ensures Codes(MainHeadersFor(0))[0] == Code(1, Short)
    ensures Codes(MainHeadersFor(0))[1] == Code(1, Int)
    ensures SumWidths(Codes(MainHeadersFor(0))) == ProbeLength
  {
    MainLayout();
    MainWidth();
  }

  // ---------------------------------------------------------------------------
  // Format strings

  /** Format string for the fields of `hstruct` kept at `ver`, prefixed with
      the reader's byte-order flag when `includeBof` holds; prefixing an unset
      flag raises TypeError. */
  function HeaderStrFor(reader: Reader, hstruct: seq<Field>, ver: int, includeBof: bool := true): (r: Result<string, ReaderError>)
    ensures r.Failure? <==> includeBof && reader.byteOrderFlag.None?
    ensures r.Failure? ==> r.error == TypeError
    ensures !includeBof ==> ParseCodes(r.value) == Success(Codes(HeadersFor(hstruct, ver)))
    ensures includeBof && reader.byteOrderFlag.Some? ==>
      ParseFormat(r.value) == Success((reader.byteOrderFlag.value, Codes(HeadersFor(hstruct, ver))))
    ensures !includeBof ==> CalcSize([Flag(Little)] + r.value) == Success(SumWidths(Codes(HeadersFor(hstruct, ver))))
  {
    var codes := Codes(HeadersFor(hstruct, ver));
    ParseJoin(codes);
    CalcSizeOfJoin(Little, codes);
    if !includeBof then Success(Join(codes))
    else match reader.byteOrderFlag
      case None => Failure(TypeError)
      case Some(order) =>
        ParseFormatOfJoin(order, codes);
        Success([Flag(order)] + Join(codes))
  }

  /** With the flag set, the prefixed string is the flag followed by exactly the
      unprefixed string. */
  lemma HeaderStrPrefix(reader: Reader, hstruct: seq<Field>, ver: int)
    requires reader.byteOrderFlag.Some?
    ensures HeaderStrFor(reader, hstruct, ver, true).value ==
      [Flag(reader.byteOrderFlag.value)] + HeaderStrFor(reader, hstruct, ver, false).value
  {
  }

  /** The main header's format string at `ver`. */
  function MainHeaderStrFor(reader: Reader, ver: int, includeBof: bool := true): (r: Result<string, ReaderError>)
    ensures r.Failure? <==> includeBof && reader.byteOrderFlag.None?
    ensures r.Failure? ==> r.error == TypeError
    ensures !includeBof ==> ParseCodes(r.value) == Success(Codes(MainHeadersFor(ver)))
    ensures includeBof && reader.byteOrderFlag.Some? ==>
      ParseFormat(r.value) == Success((reader.byteOrderFlag.value, Codes(MainHeadersFor(ver))))
    ensures ver <= 0 && !includeBof ==> CalcSize([Flag(Little)] + r.value) == Success(ProbeLength)
  {
    MainWidth();
    MainHeadersForCases(ver);
    HeaderStrFor(reader, MainHeaderStructure(), ver, includeBof)
  }

  // ---------------------------------------------------------------------------
  // Choosing among (version, flag) candidates

  /** A decoded version paired with the byte order that produced it. */
  datatype Candidate = Candidate(version: int, order: ByteOrder)

  /** Python's tuple order on (version, flag): by version, then by the flag
      character, so '<' comes before '>'. */
  predicate LessEq(a: Candidate, b: Candidate)
  {
    a.version < b.version || (a.version == b.version && Flag(a.order) <= Flag(b.order))
  }

  predicate IsSorted(s: seq<Candidate>)
  {
    forall i, j :: 0 <= i < j < |s| ==> LessEq(s[i], s[j])
  }

  function Insert(c: Candidate, s: seq<Candidate>): (r: seq<Candidate>)
    requires IsSorted(s)
    ensures IsSorted(r)
    ensures multiset(r) == multiset(s) + multiset{c}
    decreases |s|, 1
  {
    if |s| == 0 || LessEq(c, s[0]) then [c] + s
    else
      InsertStep(c, s);
      [s[0]] + Insert(c, s[1..])
  }

  lemma InsertStep(c: Candidate, s: seq<Candidate>)
    requires IsSorted(s) && |s| > 0 && !LessEq(c, s[0])
    ensures IsSorted([s[0]] + Insert(c, s[1..]))
    ensures multiset([s[0]] + Insert(c, s[1..])) == multiset(s) + multiset{c}
    decreases |s|, 0
  {
    var rest := Insert(c, s[1..]);
    var r := [s[0]] + rest;
    assert s == [s[0]] + s[1..];
    assert LessEq(s[0], c);
    forall x | x in rest
      ensures LessEq(s[0], x)
    {
      assert x in multiset(rest);
      if x != c {
        assert x in multiset(s[1..]);
        assert x in s[1..];
      }
    }
    forall i, j | 0 <= i < j < |r|
      ensures LessEq(r[i], r[j])
    {
      if i == 0 {
        assert r[j] == rest[j - 1];
        assert r[j] in rest;
      } else {
        assert r[i] == rest[i - 1] && r[j] == rest[j - 1];
      }
    }
  }

  /** `sorted` on candidate tuples. */
  function Sort(s: seq<Candidate>): (r: seq<Candidate>)
    ensures IsSorted(r)
    ensures multiset(r) == multiset(s)
  {
    if |s| == 0 then []
    else
      assert s == [s[0]] + s[1..];
      Insert(s[0], Sort(s[1..]))
  }

  /** The candidates with a strictly positive version, in order. */
  function KeepPositive(s: seq<Candidate>): (r: seq<Candidate>)
    ensures forall c :: c in r <==> c in s && c.version > 0
  {
    if |s| == 0 then []
    else (if s[0].version > 0 then [s[0]] else []) + KeepPositive(s[1..])
  }

  lemma SortedHeadIsLeast(s: seq<Candidate>)
    requires IsSorted(s) && |s| > 0
    ensures forall d :: d in s ==> LessEq(s[0], d)
  {
  }

  /** The two readings of the version field: bytes 2..5 of the file read
      as a signed 32-bit integer under '<' and under '>'. */
  function ProbeCandidates(data: seq<Byte>): (r: seq<Candidate>)
    requires |data| >= 6
    ensures |r| == 2 && r[0].order == Little && r[1].order == Big
    ensures r[1].version == DecodeSigned(Little, Reverse(data[2..6]))
  {
    SignedBigIsReversedLittle(data[2..6]);
    [Candidate(DecodeSigned(Little, data[2..6]), Little),
     Candidate(DecodeSigned(Big, data[2..6]), Big)]
  }

  /** c is the pick: a positive candidate no greater than any other positive one. */
  predicate IsBest(c: Candidate, cs: seq<Candidate>)
  {
    && c in cs
    && c.version > 0
    && forall d :: d in cs && d.version > 0 ==> LessEq(c, d)
  }

  /** The pick is unique, so repeating detection on the same bytes sets the
      same flag and version. */
  lemma BestIsUnique(a: Candidate, b: Candidate, cs: seq<Candidate>)
    requires IsBest(a, cs) && IsBest(b, cs)
    ensures a == b
  {
    assert LessEq(a, b) && LessEq(b, a);
    assert Flag(a.order) == Flag(b.order);
  }

  lemma SortedPositiveHead(cs: seq<Candidate>)
    ensures |Sort(KeepPositive(cs))| == 0 <==> forall c :: c in cs ==> c.version <= 0
    ensures |Sort(KeepPositive(cs))| > 0 ==> IsBest(Sort(KeepPositive(cs))[0], cs)
  {
    var positive := KeepPositive(cs);
    var sorted := Sort(positive);
    assert forall d :: d in positive ==> d in multiset(sorted);
    if |sorted| > 0 {
      assert sorted[0] in multiset(positive);
      SortedHeadIsLeast(sorted);
    }
  }

  /** Keeps the candidates with a positive version, sorts them and takes the
      first; with none left, indexing the empty list raises IndexError. */
  function ChooseCandidate(cs: seq<Candidate>): (r: Result<Candidate, ReaderError>)
    ensures r.Failure? <==> forall c :: c in cs ==> c.version <= 0
    ensures r.Failure? ==> r.error == IndexError
    ensures r.Success? ==> IsBest(r.value, cs)
  {
    SortedPositiveHead(cs);
    var sorted := Sort(KeepPositive(cs));
    if |sorted| == 0 then Failure(IndexError) else Success(sorted[0])
  }

  /** The pick between a '<' and a '>' reading, written out case by case:
      none if both are non-positive, otherwise the smaller positive version,
      with '<' winning a tie. */
  lemma ChooseFromPair(l: Candidate, b: Candidate)
    requires l.order == Little && b.order == Big
    ensures ChooseCandidate([l, b]) ==
      if l.version <= 0 && b.version <= 0 then Failure(IndexError)
      else if b.version <= 0 || (l.version > 0 && l.version <= b.version) then Success(l)
      else Success(b)
  {
    var cs := [l, b];
    var r := ChooseCandidate(cs);
    if r.Success? {
      if b.version <= 0 || (l.version > 0 && l.version <= b.version) {
        assert IsBest(l, cs);
        BestIsUnique(r.value, l, cs);
      } else {
        assert IsBest(b, cs);
        BestIsUnique(r.value, b, cs);
      }
    }
  }

  /** A file whose version field reads as v, 0 < v < 65536, under one byte
      order is detected as exactly that order and version: the other reading
      is then negative or at least 65536. */
  lemma DetectsSmallVersion(acqFile: seq<Byte>, order: ByteOrder, v: int)
    requires |acqFile| >= 6
    requires 0 < v < 65536 && DecodeSigned(order, acqFile[2..6]) == v
    ensures ChooseCandidate(ProbeCandidates(acqFile)) == Success(Candidate(v, order))
  {
    var word := acqFile[2..6];
    FourByteValues(word);
    var l := Candidate(DecodeSigned(Little, word), Little);
    var b := Candidate(DecodeSigned(Big, word), Big);
    ChooseFromPair(l, b);
    if order == Little {
      assert word[2] == 0 && word[3] == 0;
      assert b.version <= 0 || b.version >= 65536;
    } else {
      assert word[0] == 0 && word[1] == 0;
      assert l.version <= 0 || l.version >= 65536;
    }
  }

  /** A version 0 < v < 65536 written at bytes 2..5 in either byte order is
      detected as exactly that order and version. */
  lemma DetectsEncoded(acqFile: seq<Byte>, order: ByteOrder, v: int)
    requires |acqFile| >= 6 && 0 < v < 65536
    requires acqFile[2..6] == EncodeSigned(order, v, 4)
    ensures ChooseCandidate(ProbeCandidates(acqFile)) == Success(Candidate(v, order))
  {
    SignedRoundTrip(order, v, 4);
    DetectsSmallVersion(acqFile, order, v);
  }

  // ---------------------------------------------------------------------------
  // Detection

  /** `seek(0)` then `read(n)`: at most n bytes from the start of the file. */
  function ReadPrefix(acqFile: seq<Byte>, n: nat): (r: seq<Byte>)
    ensures |r| == if |acqFile| < n then |acqFile| else n
    ensures r <= acqFile
  {
    if |acqFile| < n then acqFile else acqFile[..n]
  }

  lemma ProbeWindow(acqFile: seq<Byte>)
    requires |acqFile| >= ProbeLength
    ensures ReadPrefix(acqFile, ProbeLength)[2..6] == acqFile[2..6]
  {
  }

  /** `struct.unpack(flag + fmt, data)[1]` for a format whose first code is
      a single short and whose second is a single int, ProbeLength bytes in
      all (the version-0 main header format, see ProbeCodes): fails with
      struct.error unless `data` is exactly ProbeLength bytes long, and
      otherwise yields bytes 2..5 read as a signed 32-bit integer in the
      given byte order. */
  function UnpackVersion(bof: ByteOrder, fmt: string, ghost codes: seq<Code>, data: seq<Byte>): (r: Result<int, ReaderError>)
    requires ParseCodes(fmt) == Success(codes)
    requires |codes| >= 2 && codes[0] == Code(1, Short) && codes[1] == Code(1, Int)
    requires SumWidths(codes) == ProbeLength
    ensures r.Success? <==> |data| == ProbeLength
    ensures r.Failure? ==> r.error == Struct(BufferSizeMismatch(ProbeLength, |data|))
    ensures r.Success? ==> r.value == DecodeSigned(bof, data[2..6])
  {
    UnpackOfParsed(bof, fmt, codes, data);
    match Unpack([Flag(bof)] + fmt, data)
    case Failure(e) => Failure(Struct(e))
    case Success(values) =>
      UnpackSecondItem(bof, codes, data);
      Success(values[1].i)
  }

  /** The first half of `_set_order_and_version`: builds the version-0 main
      header format, reads that many bytes from the start of the file once
      and unpacks the version field under '<' and then '>'. Fails with
      struct.error when the file is shorter than the format. */
  method ReadCandidates(reader: Reader) returns (r: Result<seq<Candidate>, ReaderError>)
    ensures r.Success? <==> |reader.acqFile| >= ProbeLength
    ensures r.Failure? ==> r.error == Struct(BufferSizeMismatch(ProbeLength, |reader.acqFile|))
    ensures r.Success? ==> r.value == ProbeCandidates(reader.acqFile)
  {
    var verFmtStr := MainHeaderStrFor(reader, 0, false).value;
    ProbeCodes();
    var verLen := CalcSize("<" + verFmtStr).value;
    var verData := ReadPrefix(reader.acqFile, verLen);
    if |reader.acqFile| >= ProbeLength {
      ProbeWindow(reader.acqFile);
    }

    // The list comprehension over ['<', '>']: only the first unpack can
    // fail, since both check the same bytes against the same length.
    var codes := Codes(MainHeadersFor(0));
    var little :- UnpackVersion(Little, verFmtStr, codes, verData);
    var big := UnpackVersion(Big, verFmtStr, codes, verData).value;
    r := Success([Candidate(little, Little), Candidate(big, Big)]);
  }

  /** Detects the byte order and file version: keeps the positive readings
      of the version field and takes the least (ties go to '<'). On failure
      the reader is returned unchanged. */
  method SetOrderAndVersion(reader: Reader) returns (next: Reader, err: Option<ReaderError>)
    ensures err.Some? ==> next == reader
    ensures (err.Some? && err.value.Struct?) <==> |reader.acqFile| < ProbeLength
    ensures |reader.acqFile| < ProbeLength ==>
      err == Some(Struct(BufferSizeMismatch(ProbeLength, |reader.acqFile|)))
    ensures err == Some(IndexError) <==>
      |reader.acqFile| >= ProbeLength && forall c :: c in ProbeCandidates(reader.acqFile) ==> c.version <= 0
    ensures err.None? ==>
      && next.acqFile == reader.acqFile
      && next.byteOrderFlag.Some? && next.fileVersion.Some?
      && IsBest(Candidate(next.fileVersion.value, next.byteOrderFlag.value), ProbeCandidates(reader.acqFile))
      && ChooseCandidate(ProbeCandidates(reader.acqFile)) ==
           Success(Candidate(next.fileVersion.value, next.byteOrderFlag.value))
    ensures err.None? <==>
      |reader.acqFile| >= ProbeLength && exists c :: c in ProbeCandidates(reader.acqFile) && c.version > 0
  {
    var candidates := ReadCandidates(reader);
    if candidates.Failure? {
      return reader, Some(candidates.error);
    }
    var chosen := ChooseCandidate(candidates.value);
    if chosen.Failure? {
      return reader, Some(chosen.error);
    }
    next := reader.(byteOrderFlag := Some(chosen.value.order), fileVersion := Some(chosen.value.version));
    err := None;
  }
}
