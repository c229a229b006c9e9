/** `romanToInt`: one Roman-numeral token to an IPv4 octet value. */
module Roman {
  import opened Results
  import opened Text

  /** Why a token has no octet value. */
  datatype DecodeError =
    | InvalidSymbol(symbol: char)   // a character outside the symbol table (after upper-casing)
    | OutOfRange(total: int)        // the decoded total is not in 0..255

  /** The fixed symbol table. */
  const RomanMap: map<char, int> :=
    map['I' := 1, 'V' := 5, 'X' := 10, 'L' := 50, 'C' := 100, 'D' := 500, 'M' := 1000]

  /** The three zero literals, compared case-sensitively before any upper-casing. */
  predicate IsZeroLiteral(s: string)
  {
    s == "N" || s == "n" || s == "nulla"
  }

  predicate AllSymbols(s: string)
  {
    forall i :: 0 <= i < |s| ==> s[i] in RomanMap
  }

  /** The value of the leftmost symbol of `s`, or 0 when there is none: the
      `prevValue` of a scan that has consumed exactly `s`. */
  function LeadValue(s: string): int
  {
    if |s| > 0 && s[0] in RomanMap then RomanMap[s[0]] else 0
  }

  /** The right-to-left scan over the suffix `s`: the running total after
      consuming `s`, or the rightmost character of `s` outside the table. */
  function Tally(s: string): (r: Result<int, DecodeError>)
    ensures r.Err? ==> r.error.InvalidSymbol?
    decreases |s|
  {
    if |s| == 0 then Ok(0)
    else
      match Tally(s[1..])
      case Err(e) => Err(e)
      case Ok(t) =>
        if s[0] !in RomanMap then Err(InvalidSymbol(s[0]))
        else if RomanMap[s[0]] < LeadValue(s[1..]) then Ok(t - RomanMap[s[0]])
        else Ok(t + RomanMap[s[0]])
  }

  /** What `romanToInt` returns for `s`. */
  function Decode(s: string): (r: Result<int, DecodeError>)
    ensures r.Ok? ==> 0 <= r.value <= 255
  {
    if IsZeroLiteral(s) then Ok(0)
    else
      match Tally(Upper(s))
      case Err(e) => Err(e)
      case Ok(t) => if t < 0 || t > 255 then Err(OutOfRange(t)) else Ok(t)
  }

  /** `romanToInt`: the zero literals, then a right-to-left scan of the
      upper-cased token, then the octet range check. */
  method RomanToInt(s: string) returns (r: Result<int, DecodeError>)
    ensures r == Decode(s)
  {
    if s == "N" || s == "n" || s == "nulla" {
      return Ok(0);
    }
    var u := Upper(s);
    var result := 0;
    var prevValue := 0;
    var i := |u| - 1;
    while i >= 0
      invariant -1 <= i < |u|
      invariant Tally(u[i + 1..]) == Ok(result)
      invariant prevValue == LeadValue(u[i + 1..])
      decreases i
    {
      if u[i] !in RomanMap {
        TallyErrorPropagates(u, i);
        return Err(InvalidSymbol(u[i]));
      }
      TallyStep(u, i);
      var value := RomanMap[u[i]];
      if value < prevValue {
        result := result - value;
      } else {
        result := result + value;
      }
      prevValue := value;
      i := i - 1;
    }
    assert u[0..] == u;
    if result < 0 || result > 255 {
      return Err(OutOfRange(result));
    }
    return Ok(result);
  }

  /** One step of the scan: consuming the symbol at `i` after the suffix
      right of it. */
  lemma TallyStep(s: string, i: nat)
    requires i < |s| && s[i] in RomanMap && Tally(s[i + 1..]).Ok?
    ensures LeadValue(s[i..]) == RomanMap[s[i]]
    ensures Tally(s[i..]) == Ok(
              if RomanMap[s[i]] < LeadValue(s[i + 1..]) then Tally(s[i + 1..]).value - RomanMap[s[i]]
              else Tally(s[i + 1..]).value + RomanMap[s[i]])
  {
    assert s[i..][1..] == s[i + 1..];
  }

  /** An error met in a suffix is the error of the whole scan: nothing to its
      left is looked at. */
  lemma {:induction false} TallyErrorPropagates(s: string, i: nat)
    requires i <= |s|
    requires Tally(s[i..]).Err?
    ensures Tally(s) == Tally(s[i..])
    decreases i
  {
    if i > 0 {
      assert s[i - 1..][1..] == s[i..];
      TallyErrorPropagates(s, i - 1);
    } else {
      assert s[0..] == s;
    }
  }

  /** The scan succeeds exactly when every character is in the table. */
  lemma {:induction false} TallyOkIffAllSymbols(s: string)
    ensures Tally(s).Ok? <==> AllSymbols(s)
    decreases |s|
  {
    if |s| > 0 {
      TallyOkIffAllSymbols(s[1..]);
      assert AllSymbols(s) <==> s[0] in RomanMap && AllSymbols(s[1..]) by {
        assert forall i :: 1 <= i < |s| ==> s[i] == s[1..][i - 1];
      }
    }
  }

  /** The scan reports the rightmost character outside the table. */
  lemma RightmostInvalidSymbol(s: string, k: nat)
    requires k < |s| && s[k] !in RomanMap
    requires forall j :: k < j < |s| ==> s[j] in RomanMap
    ensures Tally(s) == Err(InvalidSymbol(s[k]))
  {
    var rest := s[k + 1..];
    TallyOkIffAllSymbols(rest);
    forall i | 0 <= i < |rest| ensures rest[i] in RomanMap {
      assert rest[i] == s[k + 1 + i];
    }
    assert s[k..][1..] == s[k + 1..];
    TallyErrorPropagates(s, k);
  }

  /** Every table value is at least twice each smaller table value. */
  lemma TableDoubling(c: char, d: char)
    requires c in RomanMap && d in RomanMap
    requires RomanMap[c] < RomanMap[d]
    ensures 2 * RomanMap[c] <= RomanMap[d]
  {
  }

  /** The running total never drops below the value of the leftmost symbol
      consumed, hence never below zero. */
  lemma {:induction false} TallyAtLeastLead(s: string)
    requires Tally(s).Ok?
    ensures LeadValue(s) >= 0
    ensures Tally(s).value >= LeadValue(s)
    decreases |s|
  {
    if |s| > 0 {
      TallyAtLeastLead(s[1..]);
      var v := RomanMap[s[0]];
      if v < LeadValue(s[1..]) {
        TableDoubling(s[0], s[1]);
      }
    }
  }

  /** The contribution of symbol `k`: subtracted when strictly smaller than
      its right neighbour, added otherwise. */
  function Signed(s: string, k: nat): int
    requires k < |s| && AllSymbols(s)
  {
    if k + 1 < |s| && RomanMap[s[k]] < RomanMap[s[k + 1]] then -RomanMap[s[k]] else RomanMap[s[k]]
  }

  /** The sum of the contributions of symbols `k` .. |s|-1. */
  function SignedSum(s: string, k: nat): int
    requires k <= |s| && AllSymbols(s)
    decreases |s| - k
  {
    if k == |s| then 0 else Signed(s, k) + SignedSum(s, k + 1)
  }

  /** The scan computes the sum of the symbols' signed contributions. */
  lemma {:induction false} TallyIsSignedSum(s: string, k: nat)
    requires k <= |s| && AllSymbols(s)
    ensures Tally(s[k..]) == Ok(SignedSum(s, k))
    decreases |s| - k
  {
    if k < |s| {
      TallyIsSignedSum(s, k + 1);
      assert s[k..][1..] == s[k + 1..];
      assert s[k..][0] == s[k];
      assert k + 1 < |s| ==> s[k + 1..][0] == s[k + 1];
    }
  }

  /** The whole behaviour of `romanToInt`: zero literals give 0; otherwise a
      token all of whose upper-cased characters are symbols gives the sum of
      their signed contributions, which is never negative, and is rejected
      exactly when that sum exceeds 255. */
  lemma DecodeSpec(s: string)
    ensures IsZeroLiteral(s) ==> Decode(s) == Ok(0)
    ensures !IsZeroLiteral(s) && AllSymbols(Upper(s)) ==>
              var t := SignedSum(Upper(s), 0);
              t >= 0 && Decode(s) == (if t <= 255 then Ok(t) else Err(OutOfRange(t)))
  {
    var u := Upper(s);
    if !IsZeroLiteral(s) && AllSymbols(u) {
      TallyIsSignedSum(u, 0);
      assert u[0..] == u;
      TallyAtLeastLead(u);
    }
  }

  /** A failed decode is an invalid symbol or a total above 255: the
      `result < 0` guard never fires. */
  lemma DecodeErrors(s: string)
    requires Decode(s).Err?
    ensures !IsZeroLiteral(s)
    ensures Decode(s).error.OutOfRange? ==> Decode(s).error.total > 255
  {
    var u := Upper(s);
    if Tally(u).Ok? {
      TallyAtLeastLead(u);
    }
  }

  /** A character is accepted, in either case, exactly when it is one of I V X L C D M. */
  predicate IsRomanLetter(c: char)
  {
    c in "IVXLCDMivxlcdm"
  }

  lemma UpperInTable(c: char)
    ensures UpperChar(c) in RomanMap <==> IsRomanLetter(c)
  {
  }

  /** A token that is not a zero literal and holds a character other than
      I V X L C D M (either case) fails on the rightmost such character,
      upper-cased. */
  lemma DecodeInvalidSymbol(s: string, k: nat)
    requires !IsZeroLiteral(s)
    requires k < |s| && !IsRomanLetter(s[k])
    requires forall j :: k < j < |s| ==> IsRomanLetter(s[j])
    ensures Decode(s) == Err(InvalidSymbol(UpperChar(s[k])))
  {
    var u := Upper(s);
    UpperPointwise(s);
    UpperInTable(s[k]);
    forall j | k < j < |s| ensures u[j] in RomanMap {
      UpperInTable(s[j]);
    }
    RightmostInvalidSymbol(u, k);
  }

  /** A token that is not a zero literal fails on a symbol exactly when it
      holds a character other than I V X L C D M (either case). */
  lemma DecodeInvalidSymbolIff(s: string)
    ensures (Decode(s).Err? && Decode(s).error.InvalidSymbol?) <==>
              !IsZeroLiteral(s) && exists k :: 0 <= k < |s| && !IsRomanLetter(s[k])
  {
    var u := Upper(s);
    UpperPointwise(s);
    TallyOkIffAllSymbols(u);
    forall j | 0 <= j < |s| ensures u[j] in RomanMap <==> IsRomanLetter(s[j]) {
      UpperInTable(s[j]);
    }
  }

  /** Upper-casing never produces a zero literal from a token that is not one. */
  lemma UpperNotZeroLiteral(s: string)
    requires !IsZeroLiteral(s)
    ensures !IsZeroLiteral(Upper(s))
  {
    var u := Upper(s);
    UpperPointwise(s);
    if |s| == 1 {
      assert u[0] == UpperChar(s[0]);
      assert u != "N";
    }
    assert |s| == 5 ==> u[0] != 'n';
    assert |s| == 1 ==> u[0] != 'n';
  }

  /** Apart from the zero literals, decoding does not depend on letter case. */
  lemma DecodeCaseInsensitive(s: string)
    requires !IsZeroLiteral(s)
    ensures Decode(s) == Decode(Upper(s))
  {
    UpperNotZeroLiteral(s);
    UpperIdempotent(s);
  }

  /** The standard (minimal, subtractive) spelling of each decimal digit, by place. */
  function Ones(d: nat): string
    requires d < 10
  {
    if d == 0 then "" else if d == 1 then "I" else if d == 2 then "II" else if d == 3 then "III"
    else if d == 4 then "IV" else if d == 5 then "V" else if d == 6 then "VI"
    else if d == 7 then "VII" else if d == 8 then "VIII" else "IX"
  }

  function Tens(d: nat): string
    requires d < 10
  {
    if d == 0 then "" else if d == 1 then "X" else if d == 2 then "XX" else if d == 3 then "XXX"
    else if d == 4 then "XL" else if d == 5 then "L" else if d == 6 then "LX"
    else if d == 7 then "LXX" else if d == 8 then "LXXX" else "XC"
  }

  function Hundreds(d: nat): string
    requires d < 3
  {
    if d == 0 then "" else if d == 1 then "C" else "CC"
  }

  /** The standard Roman numeral for an octet value ("" for 0). */
  function ToRoman(n: nat): string
    requires n <= 255
  {
    Hundreds(n / 100) + Tens(n % 100 / 10) + Ones(n % 10)
  }

  /** Scanning `a` then `b`, where no symbol at the end of `a` is smaller than
      the first symbol of `b`, adds the two totals. */
  lemma {:induction false} TallyConcat(a: string, b: string)
    requires Tally(a).Ok? && Tally(b).Ok?
    requires |a| > 0 ==> a[|a| - 1] in RomanMap && RomanMap[a[|a| - 1]] >= LeadValue(b)
    ensures Tally(a + b) == Ok(Tally(a).value + Tally(b).value)
    decreases |a|
  {
    if |a| == 0 {
      assert a + b == b;
    } else {
      var ab := a + b;
      assert ab[0] == a[0] && ab[1..] == a[1..] + b;
      TallyErrorFree(a);
      if |a| > 1 {
        assert a[1..][|a[1..]| - 1] == a[|a| - 1];
        TallyConcat(a[1..], b);
        assert (a[1..] + b)[0] == a[1..][0];
      } else {
        assert a[1..] + b == b;
      }
    }
  }

  /** A scan that succeeds also succeeds on every suffix, and its first character is a symbol. */
  lemma TallyErrorFree(a: string)
    requires |a| > 0 && Tally(a).Ok?
    ensures a[0] in RomanMap && Tally(a[1..]).Ok?
  {
  }

  lemma OnesFacts(d: nat)
    requires d < 10
    ensures Tally(Ones(d)) == Ok(d)
    ensures LeadValue(Ones(d)) <= 5
  {
    if d < 5 {
      assert Tally("II") == Ok(2);
      assert Tally("III") == Ok(3);
    } else {
      assert Tally("VI") == Ok(6);
      assert Tally("VII") == Ok(7);
    }
  }

  lemma TensFacts(d: nat)
    requires d < 10
    ensures Tally(Tens(d)) == Ok(10 * d)
    ensures LeadValue(Tens(d)) <= 50
    ensures |Tens(d)| > 0 ==> Tens(d)[|Tens(d)| - 1] in RomanMap && RomanMap[Tens(d)[|Tens(d)| - 1]] >= 10
  {
    if d < 5 {
      assert Tally("XX") == Ok(20);
      assert Tally("XXX") == Ok(30);
    } else {
      assert Tally("LX") == Ok(60);
      assert Tally("LXX") == Ok(70);
    }
  }

  lemma HundredsFacts(d: nat)
    requires d < 3
    ensures Tally(Hundreds(d)) == Ok(100 * d)
    ensures |Hundreds(d)| > 0 ==> Hundreds(d)[|Hundreds(d)| - 1] == 'C'
  {
    assert Tally("CC") == Ok(200);
  }

  /** Upper-casing leaves a string of table symbols unchanged. */
  lemma UpperKeepsSymbols(s: string)
    requires AllSymbols(s)
    ensures Upper(s) == s
  {
    UpperPointwise(s);
  }

  /** A string of table symbols is not a zero literal: 'N' and 'n' are not symbols. */
  lemma SymbolsNotZeroLiteral(s: string)
    requires AllSymbols(s)
    ensures !IsZeroLiteral(s)
  {
    if |s| > 0 {
      assert s[0] in RomanMap;
    }
  }

  lemma TallyTensOnes(t: nat, o: nat)
    requires t < 10 && o < 10
    ensures Tally(Tens(t) + Ones(o)) == Ok(10 * t + o)
    ensures LeadValue(Tens(t) + Ones(o)) <= 50
  {
    var a, b := Tens(t), Ones(o);
    TensFacts(t);
    OnesFacts(o);
    TallyConcat(a, b);
    if |a| == 0 {
      assert a + b == b;
    } else {
      assert (a + b)[0] == a[0];
    }
  }

  /** The decimal places of an octet value. */
  lemma PlaceValues(n: nat)
    requires n <= 255
    ensures n / 100 < 3 && n % 100 / 10 < 10 && n % 10 < 10
    ensures n == 100 * (n / 100) + 10 * (n % 100 / 10) + n % 10
  {
  }

  /** Hundreds, tens and ones spelled one after the other add up. */
  lemma TallyPlaces(h: nat, t: nat, o: nat)
    requires h < 3 && t < 10 && o < 10
    ensures Tally(Hundreds(h) + Tens(t) + Ones(o)) == Ok(100 * h + 10 * t + o)
  {
    var hs, rest := Hundreds(h), Tens(t) + Ones(o);
    HundredsFacts(h);
    TallyTensOnes(t, o);
    assert RomanMap['C'] == 100;
    TallyConcat(hs, rest);
    assert hs + Tens(t) + Ones(o) == hs + rest;
  }

  /** The scan of a standard numeral is its value. */
  lemma TallyStandard(n: nat)
    requires n <= 255
    ensures Tally(ToRoman(n)) == Ok(n)
  {
    PlaceValues(n);
    TallyPlaces(n / 100, n % 100 / 10, n % 10);
  }

  /** Every octet value written as a standard Roman numeral decodes back to itself. */
  lemma DecodeStandard(n: nat)
    requires n <= 255
    ensures Decode(ToRoman(n)) == Ok(n)
  {
    var s := ToRoman(n);
    TallyStandard(n);
    TallyOkIffAllSymbols(s);
    UpperKeepsSymbols(s);
    SymbolsNotZeroLiteral(s);
  }
}
