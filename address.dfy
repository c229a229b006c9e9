/** `romanIPv4ToDecimal`: a dotted Roman-numeral address to dotted decimal. */
module Address {
  import opened Results
  import opened Text
  import Roman

  /** Why an address cannot be converted. */
  datatype ConvertError =
    | BadSegmentCount                                                    // more than 4 dot-separated segments
    | OctetError(index: nat, segment: string, cause: Roman.DecodeError) // 1-based index of the first bad segment

  /** Segment `k` is the first, from the left, that does not decode. */
  predicate FirstFailure(parts: seq<string>, k: nat)
  {
    k < |parts| && Roman.Decode(parts[k]).Err? &&
    forall j :: 0 <= j < k ==> Roman.Decode(parts[j]).Ok?
  }

  /** The segments decoded left to right, stopping at the first failure. */
  function DecodeSegments(parts: seq<string>): (r: Result<seq<int>, ConvertError>)
    ensures r.Ok? ==> |r.value| == |parts|
    ensures r.Err? ==> r.error.OctetError? && 1 <= r.error.index <= |parts|
    decreases |parts|
  {
    if |parts| == 0 then Ok([])
    else
      var front := parts[..|parts| - 1];
      match DecodeSegments(front)
      case Err(e) => Err(e)
      case Ok(vs) =>
        match Roman.Decode(parts[|parts| - 1])
        case Err(e) => Err(OctetError(|parts|, parts[|parts| - 1], e))
        case Ok(v) => Ok(vs + [v])
  }

  /** The decimal text of each value, in order. */
  function Decimals(vs: seq<int>): (r: seq<string>)
  {
    seq(|vs|, j requires 0 <= j < |vs| => Itoa(vs[j]))
  }

  /** `fields` with "0" appended until there are four. */
  function PadWithZeros(fields: seq<string>): (r: seq<string>)
    requires |fields| <= 4
    ensures |r| == 4 && r[..|fields|] == fields
    ensures forall j :: |fields| <= j < 4 ==> r[j] == "0"
  {
    fields + seq(4 - |fields|, _ => "0")
  }

  /** What `romanIPv4ToDecimal` returns for `romanIP`. */
  function Convert(romanIP: string): (r: Result<string, ConvertError>)
    ensures r.Ok? ==> Count(romanIP, '.') <= 3
    ensures r.Err? && r.error.OctetError? ==> 1 <= r.error.index <= Count(romanIP, '.') + 1
  {
    var parts := Split(romanIP, '.');
    if |parts| < 1 || |parts| > 4 then Err(BadSegmentCount)
    else
      match DecodeSegments(parts)
      case Err(e) => Err(e)
      case Ok(vs) => Ok(Join(PadWithZeros(Decimals(vs)), '.'))
  }

  /** `romanIPv4ToDecimal`: split, decode each segment in order into a slice
      of decimal texts, append "0" up to four entries, join with dots. */
  method RomanIPv4ToDecimal(romanIP: string) returns (r: Result<string, ConvertError>)
    ensures r == Convert(romanIP)
  {
    var parts := Split(romanIP, '.');
    if |parts| < 1 || |parts| > 4 {
      return Err(BadSegmentCount);
    }
    var decimalParts := seq(|parts|, _ => "");
    ghost var values: seq<int> := [];
    var i := 0;
    while i < |parts|
      invariant 0 <= i <= |parts| == |decimalParts|
      invariant |values| == i
      invariant forall j :: 0 <= j < i ==> Roman.Decode(parts[j]) == Ok(values[j])
      invariant forall j :: 0 <= j < i ==> decimalParts[j] == Itoa(values[j])
    {
      var num := Roman.RomanToInt(parts[i]);
      if num.Err? {
        ConvertFailsAt(romanIP, parts, i, values);
        return Err(OctetError(i + 1, parts[i], num.error));
      }
      decimalParts := decimalParts[i := Itoa(num.value)];
      values := values + [num.value];
      i := i + 1;
    }
    while |decimalParts| < 4
      invariant |parts| <= |decimalParts| <= 4
      invariant forall j :: 0 <= j < |parts| ==> decimalParts[j] == Itoa(values[j])
      invariant forall j :: |parts| <= j < |decimalParts| ==> decimalParts[j] == "0"
    {
      decimalParts := decimalParts + ["0"];
    }
    ConvertSucceeds(romanIP, parts, values, decimalParts);
    return Ok(Join(decimalParts, '.'));
  }

  /** When every segment decodes, the result joins their decimal texts,
      padded with "0"s to four fields. */
  lemma ConvertSucceeds(romanIP: string, parts: seq<string>, values: seq<int>, fields: seq<string>)
    requires parts == Split(romanIP, '.')
    requires |parts| <= 4 && |values| == |parts| && |fields| == 4
    requires forall j :: 0 <= j < |values| ==> Roman.Decode(parts[j]) == Ok(values[j])
    requires forall j :: 0 <= j < |values| ==> fields[j] == Itoa(values[j])
    requires forall j :: |values| <= j < 4 ==> fields[j] == "0"
    ensures Convert(romanIP) == Ok(Join(fields, '.'))
  {
    DecodeSegmentsOfValues(parts, values);
    PaddedDecimals(values, fields);
  }

  /** A segment that fails after segments that all decoded makes the
      conversion fail with that segment's index, text and reason. */
  lemma ConvertFailsAt(romanIP: string, parts: seq<string>, i: nat, values: seq<int>)
    requires parts == Split(romanIP, '.')
    requires i < |parts| <= 4 && |values| == i
    requires forall j :: 0 <= j < i ==> Roman.Decode(parts[j]) == Ok(values[j])
    requires Roman.Decode(parts[i]).Err?
    ensures Convert(romanIP) == Err(OctetError(i + 1, parts[i], Roman.Decode(parts[i]).error))
  {
    FirstFailureIsReported(parts, i);
  }

  /** Segments that each decode give the sequence of their values. */
  lemma {:induction false} DecodeSegmentsOfValues(parts: seq<string>, values: seq<int>)
    requires |values| == |parts|
    requires forall j :: 0 <= j < |values| ==> Roman.Decode(parts[j]) == Ok(values[j])
    ensures DecodeSegments(parts) == Ok(values)
    decreases |parts|
  {
    if |parts| > 0 {
      var n := |parts| - 1;
      assert forall j :: 0 <= j < n ==> parts[..n][j] == parts[j] && values[..n][j] == values[j];
      DecodeSegmentsOfValues(parts[..n], values[..n]);
      assert values[..n] + [values[n]] == values;
    }
  }

  /** Four fields holding the decimal texts of `values` and then "0"s are
      their padding. */
  lemma PaddedDecimals(values: seq<int>, fields: seq<string>)
    requires |values| <= 4 && |fields| == 4
    requires forall j :: 0 <= j < |values| ==> fields[j] == Itoa(values[j])
    requires forall j :: |values| <= j < 4 ==> fields[j] == "0"
    ensures PadWithZeros(Decimals(values)) == fields
  {
    var padded := PadWithZeros(Decimals(values));
    assert forall j :: 0 <= j < 4 ==> padded[j] == fields[j];
  }

  /** Every segment decodes. */
  predicate AllSegmentsDecode(parts: seq<string>)
  {
    forall j :: 0 <= j < |parts| ==> Roman.Decode(parts[j]).Ok?
  }

  /** The segments decode exactly when each of them does, and then to the
      values of each, in order. */
  lemma {:induction false} DecodeSegmentsSpec(parts: seq<string>)
    ensures DecodeSegments(parts).Ok? <==> AllSegmentsDecode(parts)
    ensures DecodeSegments(parts).Ok? ==>
              forall j :: 0 <= j < |parts| ==> Roman.Decode(parts[j]) == Ok(DecodeSegments(parts).value[j])
    decreases |parts|
  {
    if |parts| > 0 {
      var front := parts[..|parts| - 1];
      DecodeSegmentsSpec(front);
      assert forall j :: 0 <= j < |front| ==> front[j] == parts[j];
    }
  }

  /** A failure in a prefix of the segments is the failure of them all. */
  lemma {:induction false} SegmentErrorPropagates(parts: seq<string>, n: nat)
    requires n <= |parts|
    requires DecodeSegments(parts[..n]).Err?
    ensures DecodeSegments(parts) == DecodeSegments(parts[..n])
    decreases |parts| - n
  {
    if n < |parts| {
      assert parts[..n + 1][..n] == parts[..n];
      SegmentErrorPropagates(parts, n + 1);
    } else {
      assert parts[..n] == parts;
    }
  }

  /** A segment that fails after a prefix that decoded is the reported failure. */
  lemma FailureAfterDecodedPrefix(parts: seq<string>, i: nat)
    requires i < |parts|
    requires DecodeSegments(parts[..i]).Ok?
    requires Roman.Decode(parts[i]).Err?
    ensures DecodeSegments(parts) == Err(OctetError(i + 1, parts[i], Roman.Decode(parts[i]).error))
  {
    assert parts[..i + 1][..i] == parts[..i];
    SegmentErrorPropagates(parts, i + 1);
  }

  /** The error names the first failing segment: its 1-based index, its text
      and the reason it did not decode. */
  lemma FirstFailureIsReported(parts: seq<string>, k: nat)
    requires FirstFailure(parts, k)
    ensures DecodeSegments(parts) == Err(OctetError(k + 1, parts[k], Roman.Decode(parts[k]).error))
  {
    assert forall j :: 0 <= j < k ==> parts[..k][j] == parts[j];
    DecodeSegmentsSpec(parts[..k]);
    FailureAfterDecodedPrefix(parts, k);
  }

  /** Splitting always yields at least one segment, so only "more than four"
      is ever rejected, and that is exactly "more than three dots". */
  lemma BadSegmentCountIff(romanIP: string)
    ensures |Split(romanIP, '.')| >= 1
    ensures Convert(romanIP) == Err(BadSegmentCount) <==> Count(romanIP, '.') > 3
  {
  }

  /** A conversion with at most four segments fails exactly when some segment
      does not decode, and then reports the leftmost one. */
  lemma ConvertReportsFirstFailure(romanIP: string, k: nat)
    requires Count(romanIP, '.') <= 3
    requires FirstFailure(Split(romanIP, '.'), k)
    ensures var parts := Split(romanIP, '.');
            Convert(romanIP) == Err(OctetError(k + 1, parts[k], Roman.Decode(parts[k]).error))
  {
    FirstFailureIsReported(Split(romanIP, '.'), k);
  }

  /** A conversion succeeds exactly when there are at most four segments and
      every one of them decodes. */
  lemma ConvertOkIff(romanIP: string)
    ensures Convert(romanIP).Ok? <==>
              Count(romanIP, '.') <= 3 && AllSegmentsDecode(Split(romanIP, '.'))
  {
    var parts := Split(romanIP, '.');
    DecodeSegmentsSpec(parts);
    assert Convert(romanIP).Ok? <==> |parts| <= 4 && DecodeSegments(parts).Ok?;
  }

  /** A successful conversion has exactly four dot-separated fields: the
      decimal values of the input segments, in their order, followed by "0"s. */
  lemma ConvertFields(romanIP: string)
    requires Convert(romanIP).Ok?
    ensures var parts := Split(romanIP, '.');
            var fields := Split(Convert(romanIP).value, '.');
            |fields| == 4 && |parts| <= 4 &&
            (forall j :: 0 <= j < |parts| ==>
               Roman.Decode(parts[j]).Ok? && fields[j] == Itoa(Roman.Decode(parts[j]).value)) &&
            (forall j :: |parts| <= j < 4 ==> fields[j] == "0")
  {
    var parts := Split(romanIP, '.');
    var vs := DecodeSegments(parts).value;
    DecodeSegmentsSpec(parts);
    var padded := PadWithZeros(Decimals(vs));
    assert forall j :: 0 <= j < 4 ==> '.' !in padded[j];
    SplitJoin(padded, '.');
  }

  /** What the converter hands on is a well-formed dotted-decimal IPv4
      address: four fields, each a string of decimal digits denoting 0..255. */
  lemma ConvertIsDottedDecimal(romanIP: string)
    requires Convert(romanIP).Ok?
    ensures var fields := Split(Convert(romanIP).value, '.');
            |fields| == 4 &&
            forall j :: 0 <= j < 4 ==>
              |fields[j]| >= 1 && IsDigits(fields[j]) && DigitsValue(fields[j]) <= 255
  {
    ConvertFields(romanIP);
    var parts := Split(romanIP, '.');
    var fields := Split(Convert(romanIP).value, '.');
    forall j | 0 <= j < 4
      ensures |fields[j]| >= 1 && IsDigits(fields[j]) && DigitsValue(fields[j]) <= 255
    {
      var v := if j < |parts| then Roman.Decode(parts[j]).value else 0;
      assert fields[j] == Itoa(v);
      ItoaDigits(v);
    }
  }
}
