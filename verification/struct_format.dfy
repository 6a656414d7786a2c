/** The part of Python's `struct` module the header reader relies on, in
    standard-size mode (a '<' or '>' prefix): format strings made of an
    optional decimal repeat count and a format character, `calcsize`, and
    `unpack`. */
module StructFormat {
  import opened Wrappers
  import opened Endian

  /** The format characters 'b', 'h', 'i', 'd' and 's'. */
  datatype Kind = SignedChar | Short | Int | Double | Chars

  /** One format code such as "h", "8b", "6h" or "40s". */
  datatype Code = Code(count: nat, kind: Kind)

  /** Why `struct` rejects a format string or a buffer (Python's `struct.error`). */
  datatype StructError =
    | BadChar(c: char)
    | RepeatCountWithoutFormat
    | NoByteOrderPrefix
    | BufferSizeMismatch(expected: nat, actual: nat)

  /** One unpacked item: an integer, or the raw bytes of a 'd' or 's' item. */
  datatype Value = Integer(i: int) | Raw(bytes: seq<Byte>)

  function KindChar(k: Kind): char
  {
    match k
    case SignedChar => 'b'
    case Short => 'h'
    case Int => 'i'
    case Double => 'd'
    case Chars => 's'
  }

  function KindOfChar(c: char): (k: Option<Kind>)
    ensures k.Some? ==> KindChar(k.value) == c
  {
    match c
    case 'b' => Some(SignedChar)
    case 'h' => Some(Short)
    case 'i' => Some(Int)
    case 'd' => Some(Double)
    case 's' => Some(Chars)
    case _ => None
  }

  /** Standard size in bytes of one item of each format character. */
  function KindWidth(k: Kind): nat
  {
    match k
    case SignedChar => 1
    case Short => 2
    case Int => 4
    case Double => 8
    case Chars => 1
  }

  /** Bytes a code occupies; "40s" is one 40-byte string, "8b" is eight bytes. */
  function Width(c: Code): nat
  {
    c.count * KindWidth(c.kind)
  }

  /** Number of values `unpack` yields for a code: one string for 's', else count. */
  function ItemCount(c: Code): nat
  {
    if c.kind == Chars then 1 else c.count
  }

  function SumWidths(codes: seq<Code>): nat
  {
    if |codes| == 0 then 0 else Width(codes[0]) + SumWidths(codes[1..])
  }

  function SumItems(codes: seq<Code>): nat
  {
    if |codes| == 0 then 0 else ItemCount(codes[0]) + SumItems(codes[1..])
  }

  lemma SumWidthsSuffix(codes: seq<Code>, i: nat)
    requires i < |codes|
    ensures SumWidths(codes[i..]) == Width(codes[i]) + SumWidths(codes[i + 1..])
  {
    assert codes[i..][1..] == codes[i + 1..];
  }

  lemma {:induction false} SumWidthsConcat(a: seq<Code>, b: seq<Code>)
    ensures SumWidths(a + b) == SumWidths(a) + SumWidths(b)
  {
    if |a| > 0 {
      assert (a + b)[1..] == a[1..] + b;
      SumWidthsConcat(a[1..], b);
    } else {
      assert a + b == b;
    }
  }

  // ---------------------------------------------------------------------------
  // Decimal repeat counts

  predicate IsDigit(c: char)
  {
    '0' <= c <= '9'
  }

  function DigitChar(d: nat): char
    requires d < 10
  {
    ('0' as int + d) as char
  }

  function DigitValue(c: char): nat
    requires IsDigit(c)
  {
    (c as int - '0' as int) as nat
  }

  /** The shortest decimal spelling of n. */
  function Decimal(n: nat): (s: string)
    ensures |s| > 0
    ensures forall i :: 0 <= i < |s| ==> IsDigit(s[i])
  {
    if n < 10 then [DigitChar(n)] else Decimal(n / 10) + [DigitChar(n % 10)]
  }

  /** The number a string of decimal digits spells. */
  function DecimalValue(s: string): nat
    requires forall i :: 0 <= i < |s| ==> IsDigit(s[i])
  {
    if |s| == 0 then 0 else 10 * DecimalValue(s[..|s| - 1]) + DigitValue(s[|s| - 1])
  }

  lemma {:induction false} DecimalRoundTrip(n: nat)
    ensures DecimalValue(Decimal(n)) == n
  {
    var s := Decimal(n);
    if n >= 10 {
      assert s[..|s| - 1] == Decimal(n / 10);
      DecimalRoundTrip(n / 10);
    }
  }

  /** Length of the run of digits at the front of s. */
  function DigitRun(s: string): (k: nat)
    ensures k <= |s|
    ensures forall i :: 0 <= i < k ==> IsDigit(s[i])
    ensures k < |s| ==> !IsDigit(s[k])
  {
    if |s| > 0 && IsDigit(s[0]) then 1 + DigitRun(s[1..]) else 0
  }

  lemma {:induction false} DigitRunStopsAt(d: string, rest: string)
    requires forall i :: 0 <= i < |d| ==> IsDigit(d[i])
    requires |rest| > 0 && !IsDigit(rest[0])
    ensures DigitRun(d + rest) == |d|
  {
    if |d| > 0 {
      assert (d + rest)[1..] == d[1..] + rest;
      DigitRunStopsAt(d[1..], rest);
    }
  }

  // ---------------------------------------------------------------------------
  // Format strings

  /** The text of one code; a count of one is left implicit, as in "h". */
  function Render(c: Code): string
  {
    (if c.count == 1 then "" else Decimal(c.count)) + [KindChar(c.kind)]
  }

  /** The codes written one after another, as `''.join(...)` builds them. */
  function Join(codes: seq<Code>): string
  {
    if |codes| == 0 then "" else Render(codes[0]) + Join(codes[1..])
  }

  lemma {:induction false} JoinConcat(a: seq<Code>, b: seq<Code>)
    ensures Join(a + b) == Join(a) + Join(b)
  {
    if |a| > 0 {
      assert (a + b)[1..] == a[1..] + b;
      JoinConcat(a[1..], b);
    } else {
      assert a + b == b;
    }
  }

  /** Reads the codes of a format string that follows its byte-order prefix. */
  function ParseCodes(s: string): (r: Result<seq<Code>, StructError>)
    decreases |s|
  {
    if |s| == 0 then Success([])
    else
      var k := DigitRun(s);
      if k == |s| then Failure(RepeatCountWithoutFormat)
      else
        var count := if k == 0 then 1 else DecimalValue(s[..k]);
        match KindOfChar(s[k])
        case None => Failure(BadChar(s[k]))
        case Some(kind) =>
          var rest :- ParseCodes(s[k + 1..]);
          Success([Code(count, kind)] + rest)
  }

  lemma KindCharRoundTrip(k: Kind)
    ensures KindOfChar(KindChar(k)) == Some(k)
    ensures !IsDigit(KindChar(k))
  {
  }

  lemma ParseImplicitCount(c: Code, tail: string, rest: seq<Code>)
    requires c.count == 1
    requires ParseCodes(tail) == Success(rest)
    ensures ParseCodes(Render(c) + tail) == Success([c] + rest)
  {
    var s := Render(c) + tail;
    KindCharRoundTrip(c.kind);
    assert s[0] == KindChar(c.kind);
    assert DigitRun(s) == 0;
    assert s[1..] == tail;
  }

  lemma ParseExplicitCount(c: Code, tail: string, rest: seq<Code>)
    requires c.count != 1
    requires ParseCodes(tail) == Success(rest)
    ensures ParseCodes(Render(c) + tail) == Success([c] + rest)
  {
    var d := Decimal(c.count);
    var kc := [KindChar(c.kind)] + tail;
    var s := Render(c) + tail;
    KindCharRoundTrip(c.kind);
    assert s == d + kc;
    DigitRunStopsAt(d, kc);
    var k := DigitRun(s);
    assert k == |d| && k > 0;
    assert s[..k] == d;
    DecimalRoundTrip(c.count);
    assert DecimalValue(s[..k]) == c.count;
    assert s[k] == KindChar(c.kind);
    assert s[k + 1..] == tail;
  }

  /** One rendered code in front of a parseable tail parses to that code in front. */
  lemma ParseRenderStep(c: Code, tail: string, rest: seq<Code>)
    requires ParseCodes(tail) == Success(rest)
    ensures ParseCodes(Render(c) + tail) == Success([c] + rest)
  {
    if c.count == 1 {
      ParseImplicitCount(c, tail, rest);
    } else {
      ParseExplicitCount(c, tail, rest);
    }
  }

  /** Parsing a joined code list gives back exactly that list. */
  lemma {:induction false} ParseJoin(codes: seq<Code>)
    ensures ParseCodes(Join(codes)) == Success(codes)
  {
    if |codes| > 0 {
      ParseJoin(codes[1..]);
      ParseRenderStep(codes[0], Join(codes[1..]), codes[1..]);
      assert codes == [codes[0]] + codes[1..];
    }
  }

  function Flag(order: ByteOrder): char
  {
    match order
    case Little => '<'
    case Big => '>'
  }

  function OrderOfFlag(c: char): (o: Option<ByteOrder>)
    ensures o.Some? <==> c == '<' || c == '>'
    ensures o.Some? ==> Flag(o.value) == c
  {
    if c == '<' then Some(Little) else if c == '>' then Some(Big) else None
  }

  /** Splits a format string into its byte order and its codes. */
  function ParseFormat(fmt: string): (r: Result<(ByteOrder, seq<Code>), StructError>)
  {
    if |fmt| == 0 then Failure(NoByteOrderPrefix)
    else
      match OrderOfFlag(fmt[0])
      case None => Failure(NoByteOrderPrefix)
      case Some(order) =>
        var codes :- ParseCodes(fmt[1..]);
        Success((order, codes))
  }

  lemma ParseFormatOfJoin(order: ByteOrder, codes: seq<Code>)
    ensures ParseFormat([Flag(order)] + Join(codes)) == Success((order, codes))
  {
    assert ([Flag(order)] + Join(codes))[1..] == Join(codes);
    ParseJoin(codes);
  }

  /** `struct.calcsize`: the number of bytes a format string describes. */
  function CalcSize(fmt: string): Result<nat, StructError>
  {
    var parsed :- ParseFormat(fmt);
    Success(SumWidths(parsed.1))
  }

  /** The size of a prefixed joined code list is the sum of the code widths;
      the byte order does not change it. */
  lemma CalcSizeOfJoin(order: ByteOrder, codes: seq<Code>)
    ensures CalcSize([Flag(order)] + Join(codes)) == Success(SumWidths(codes))
  {
    ParseFormatOfJoin(order, codes);
  }

  // ---------------------------------------------------------------------------
  // Unpacking

  /** The values of `count` items of one kind stored in `data`. */
  function UnpackItems(order: ByteOrder, kind: Kind, count: nat, data: seq<Byte>): (vs: seq<Value>)
    requires kind != Chars
    requires |data| == count * KindWidth(kind)
    ensures |vs| == count
  {
    var w := KindWidth(kind);
    if count == 0 then []
    else
      var item := data[..w];
      var v := if kind == Double then Raw(item) else Integer(DecodeSigned(order, item));
      [v] + UnpackItems(order, kind, count - 1, data[w..])
  }

  /** The values of one code stored in `data`. */
  function UnpackCode(order: ByteOrder, c: Code, data: seq<Byte>): (vs: seq<Value>)
    requires |data| == Width(c)
    ensures |vs| == ItemCount(c)
  {
    if c.kind == Chars then [Raw(data)] else UnpackItems(order, c.kind, c.count, data)
  }

  /** The values of a code list stored back to back in `data`. */
  function UnpackCodes(order: ByteOrder, codes: seq<Code>, data: seq<Byte>): (vs: seq<Value>)
    requires |data| == SumWidths(codes)
    ensures |vs| == SumItems(codes)
  {
    if |codes| == 0 then []
    else
      var w := Width(codes[0]);
      UnpackCode(order, codes[0], data[..w]) + UnpackCodes(order, codes[1..], data[w..])
  }

  /** `struct.unpack`: the buffer must be exactly as long as the format says. */
  function Unpack(fmt: string, data: seq<Byte>): (r: Result<seq<Value>, StructError>)
  {
    var (order, codes) :- ParseFormat(fmt);
    if |data| != SumWidths(codes) then Failure(BufferSizeMismatch(SumWidths(codes), |data|))
    else Success(UnpackCodes(order, codes, data))
  }

  /** The length `calcsize` reports is exactly the buffer length `unpack`
      accepts for the same format. */
  lemma CalcSizeIsUnpackLength(fmt: string, data: seq<Byte>)
    requires CalcSize(fmt).Success?
    ensures Unpack(fmt, data).Success? <==> |data| == CalcSize(fmt).value
  {
  }

  /** Unpacking with a byte-order flag in front of a code string succeeds
      exactly when the buffer has the size the codes describe, and then yields
      the values of those codes. */
  lemma UnpackOfParsed(order: ByteOrder, fmt: string, codes: seq<Code>, data: seq<Byte>)
    requires ParseCodes(fmt) == Success(codes)
    ensures Unpack([Flag(order)] + fmt, data) ==
      if |data| == SumWidths(codes) then Success(UnpackCodes(order, codes, data))
      else Failure(BufferSizeMismatch(SumWidths(codes), |data|))
  {
    assert ([Flag(order)] + fmt)[1..] == fmt;
  }

  /** When the first code yields a single value and the second is a plain 'i',
      item 1 of the unpacked values is the 4-byte integer that follows the
      first code's bytes. */
  lemma UnpackSecondItem(order: ByteOrder, codes: seq<Code>, data: seq<Byte>)
    requires |codes| >= 2 && ItemCount(codes[0]) == 1 && codes[1] == Code(1, Int)
    requires |data| == SumWidths(codes)
    ensures Width(codes[0]) + 4 <= |data|
    ensures UnpackCodes(order, codes, data)[1] ==
      Integer(DecodeSigned(order, data[Width(codes[0])..Width(codes[0]) + 4]))
  {
    var w := Width(codes[0]);
    var rest := data[w..];
    assert codes[1..][0] == Code(1, Int);
    assert SumWidths(codes[1..]) == 4 + SumWidths(codes[2..]);
    var second := UnpackCodes(order, codes[1..], rest);
    assert UnpackCodes(order, codes, data) == UnpackCode(order, codes[0], data[..w]) + second;
    assert second == UnpackCode(order, Code(1, Int), rest[..4]) + UnpackCodes(order, codes[2..], rest[4..]);
    var item := rest[..4];
    assert item[..4] == item;
    assert UnpackItems(order, Int, 1, item) == [Integer(DecodeSigned(order, item))] + UnpackItems(order, Int, 0, item[4..]);
    assert rest[..4] == data[w..w + 4];
  }
}
