/** Versioned header layouts: ordered tables of (name, format code, first
    version) fields, the version filter applied to them, and the table of
    byte offsets used to compare a layout with the vendor's documentation. */
module HeaderTable {
  import opened Endian
  import opened StructFormat

  /** One header field: its name, its struct code and the first file version
      listed for it. */
  datatype Field = Field(name: string, code: Code, firstVersion: int)

  /** The struct codes of a field list, in order. */
  function Codes(fields: seq<Field>): (cs: seq<Code>)
    ensures |cs| == |fields|
    ensures forall i :: 0 <= i < |fields| ==> cs[i] == fields[i].code
  {
    seq(|fields|, i requires 0 <= i < |fields| => fields[i].code)
  }

  /** a can be obtained from b by deleting elements. */
  predicate IsSubsequence<T(==)>(a: seq<T>, b: seq<T>)
  {
    if |a| == 0 then true
    else if |b| == 0 then false
    else (a[0] == b[0] && IsSubsequence(a[1..], b[1..])) || IsSubsequence(a, b[1..])
  }

  /** The fields whose first version is at least `ver`, in table order. */
  function HeadersFor(hstruct: seq<Field>, ver: int): (r: seq<Field>)
    ensures forall f :: f in r <==> f in hstruct && f.firstVersion >= ver
    ensures IsSubsequence(r, hstruct)
    ensures |r| <= |hstruct|
  {
    if |hstruct| == 0 then []
    else
      var rest := HeadersFor(hstruct[1..], ver);
      if hstruct[0].firstVersion >= ver then [hstruct[0]] + rest else rest
  }

  /** Each qualifying field is kept as many times as it occurs in the table,
      every other field not at all. */
  lemma {:induction false} HeadersForCounts(hstruct: seq<Field>, ver: int)
    ensures forall f ::
      multiset(HeadersFor(hstruct, ver))[f] == (if f.firstVersion >= ver then multiset(hstruct)[f] else 0)
  {
    if |hstruct| > 0 {
      HeadersForCounts(hstruct[1..], ver);
      assert hstruct == [hstruct[0]] + hstruct[1..];
    }
  }

  lemma {:induction false} HeadersForConcat(a: seq<Field>, b: seq<Field>, ver: int)
    ensures HeadersFor(a + b, ver) == HeadersFor(a, ver) + HeadersFor(b, ver)
  {
    if |a| == 0 {
      assert a + b == b;
    } else {
      assert (a + b)[1..] == a[1..] + b;
      HeadersForConcat(a[1..], b, ver);
    }
  }

  /** The filter keeps every field exactly when every field qualifies, and
      drops all of them exactly when none does. */
  lemma {:induction false} HeadersForExtremes(hstruct: seq<Field>, ver: int)
    ensures HeadersFor(hstruct, ver) == hstruct <==>
      forall i :: 0 <= i < |hstruct| ==> hstruct[i].firstVersion >= ver
    ensures HeadersFor(hstruct, ver) == [] <==>
      forall i :: 0 <= i < |hstruct| ==> hstruct[i].firstVersion < ver
  {
    if |hstruct| > 0 {
      HeadersForExtremes(hstruct[1..], ver);
      var rest := HeadersFor(hstruct[1..], ver);
      if hstruct[0].firstVersion < ver {
        assert hstruct[0] !in HeadersFor(hstruct, ver);
        assert HeadersFor(hstruct, ver) != hstruct;
      }
      if hstruct[0].firstVersion >= ver {
        assert hstruct[0] in HeadersFor(hstruct, ver);
      }
      assert forall i :: 1 <= i < |hstruct| ==> hstruct[i] == hstruct[1..][i - 1];
    }
  }

  /** Filtering twice keeps the fields that pass both thresholds. */
  lemma {:induction false} HeadersForTwice(hstruct: seq<Field>, v1: int, v2: int)
    ensures HeadersFor(HeadersFor(hstruct, v1), v2) == HeadersFor(hstruct, if v1 <= v2 then v2 else v1)
  {
    if |hstruct| > 0 {
      HeadersForTwice(hstruct[1..], v1, v2);
      var inner := HeadersFor(hstruct[1..], v1);
      if hstruct[0].firstVersion >= v1 {
        assert HeadersFor(hstruct, v1) == [hstruct[0]] + inner;
        HeadersForConcat([hstruct[0]], inner, v2);
      }
    }
  }

  /** A larger threshold keeps a subsequence of what a smaller one keeps. */
  lemma HeadersForMonotone(hstruct: seq<Field>, v1: int, v2: int)
    requires v1 <= v2
    ensures IsSubsequence(HeadersFor(hstruct, v2), HeadersFor(hstruct, v1))
    ensures |HeadersFor(hstruct, v2)| <= |HeadersFor(hstruct, v1)|
  {
    HeadersForTwice(hstruct, v1, v2);
  }

  /** Byte offset of field i: the standard sizes of all fields before it. */
  function OffsetOf(fields: seq<Field>, i: nat): nat
    requires i <= |fields|
  {
    SumWidths(Codes(fields[..i]))
  }

  lemma OffsetStep(fields: seq<Field>, i: nat)
    requires i < |fields|
    ensures OffsetOf(fields, i + 1) == OffsetOf(fields, i) + Width(fields[i].code)
  {
    assert Codes(fields[..i + 1]) == Codes(fields[..i]) + [fields[i].code];
    SumWidthsConcat(Codes(fields[..i]), [fields[i].code]);
  }

  /** Offsets never decrease along the table. */
  lemma {:induction false} OffsetsNondecreasing(fields: seq<Field>, i: nat, j: nat)
    requires i <= j <= |fields|
    ensures OffsetOf(fields, i) <= OffsetOf(fields, j)
  {
    if i < j {
      OffsetsNondecreasing(fields, i, j - 1);
      OffsetStep(fields, j - 1);
    }
  }

  /** Pairs each field's name with its byte offset under the '<' standard
      sizes, computing each offset with `calcsize` of the preceding codes. */
  method HeaderNameOffsets(headerInfo: seq<Field>) returns (tab: seq<(string, nat)>)
    ensures |tab| == |headerInfo|
    ensures forall i :: 0 <= i < |tab| ==> tab[i].0 == headerInfo[i].name
    ensures |tab| > 0 ==> tab[0].1 == 0
    ensures forall i :: 0 < i < |tab| ==> tab[i].1 == tab[i - 1].1 + Width(headerInfo[i - 1].code)
    ensures forall i :: 0 <= i < |tab| ==> tab[i].1 == OffsetOf(headerInfo, i)
    ensures forall i, j :: 0 <= i <= j < |tab| ==> tab[i].1 <= tab[j].1
  {
    tab := [];
    for i := 0 to |headerInfo|
      invariant |tab| == i
      invariant forall j :: 0 <= j < i ==> tab[j] == (headerInfo[j].name, OffsetOf(headerInfo, j))
      invariant forall j :: 0 < j < i ==> tab[j].1 == tab[j - 1].1 + Width(headerInfo[j - 1].code)
    {
      var hparts := headerInfo[..i];
      var fmtStr := "<" + Join(Codes(hparts));
      CalcSizeOfJoin(Little, Codes(hparts));
      var size := CalcSize(fmtStr);
      if i > 0 {
        OffsetStep(headerInfo, i - 1);
      }
      tab := tab + [(headerInfo[i].name, size.value)];
    }
    forall i, j | 0 <= i <= j < |tab|
      ensures tab[i].1 <= tab[j].1
    {
      OffsetsNondecreasing(headerInfo, i, j);
    }
  }
}
