/** The worked examples of the usage text, and the edge cases of the
    decoder, as facts about the model. */
module Examples {
  import opened Results
  import opened Text
  import Roman
  import Address

  lemma ZeroLiterals()
    ensures Roman.Decode("N") == Ok(0)
    ensures Roman.Decode("n") == Ok(0)
    ensures Roman.Decode("nulla") == Ok(0)
  {
  }

  /** The zero-literal test is case-sensitive: other spellings are scanned and fail on 'A'. */
  lemma OtherSpellingsOfNulla()
    ensures Roman.Decode("NULLA") == Err(Roman.InvalidSymbol('A'))
    ensures Roman.Decode("Nulla") == Err(Roman.InvalidSymbol('A'))
  {
  }

  lemma SubtractivePairs()
    ensures Roman.Decode("IV") == Ok(4)
    ensures Roman.Decode("IX") == Ok(9)
    ensures Roman.Decode("XC") == Ok(90)
  {
  }

  lemma CXCII()
    ensures Roman.Decode("CXCII") == Ok(192)
  {
  }

  lemma LowerCaseCXCII()
    ensures Roman.Decode("cxcii") == Ok(192)
  {
  }

  lemma NonCanonicalAccepted()
    ensures Roman.Decode("IIII") == Ok(4)
  {
  }

  lemma EmptyToken()
    ensures Roman.Decode("") == Ok(0)
  {
  }

  lemma One()
    ensures Roman.Decode("I") == Ok(1)
  {
  }

  lemma TooLarge()
    ensures Roman.Decode("MMM") == Err(Roman.OutOfRange(3000))
  {
  }

  /** An address given as its segments, their values and the expected fields. */
  lemma ConvertExample(romanIP: string, parts: seq<string>, values: seq<int>, fields: seq<string>)
    requires 1 <= |parts| <= 4 && Join(parts, '.') == romanIP
    requires forall j :: 0 <= j < |parts| ==> '.' !in parts[j]
    requires |values| == |parts| && |fields| == 4
    requires forall j :: 0 <= j < |parts| ==> Roman.Decode(parts[j]) == Ok(values[j])
    requires forall j :: 0 <= j < |values| ==> fields[j] == Itoa(values[j])
    requires forall j :: |values| <= j < 4 ==> fields[j] == "0"
    ensures Address.Convert(romanIP) == Ok(Join(fields, '.'))
  {
    SplitJoin(parts, '.');
    Address.ConvertSucceeds(romanIP, parts, values, fields);
  }

  lemma DecodeCXXVII()
    ensures Roman.Decode("CXXVII") == Ok(127)
  {
  }

  lemma ItoaSmall()
    ensures Itoa(0) == "0" && Itoa(1) == "1" && Itoa(8) == "8"
    ensures Itoa(127) == "127"
  {
    assert Digits(12) == "12";
  }

  /** A four-segment address converts to the decimal spellings of its four values. */
  lemma ConvertFour(romanIP: string, a: string, b: string, c: string, d: string,
                    va: int, vb: int, vc: int, vd: int,
                    fa: string, fb: string, fc: string, fd: string, decimal: string)
    requires '.' !in a && '.' !in b && '.' !in c && '.' !in d
    requires Join([a, b, c, d], '.') == romanIP
    requires Roman.Decode(a) == Ok(va) && Roman.Decode(b) == Ok(vb)
    requires Roman.Decode(c) == Ok(vc) && Roman.Decode(d) == Ok(vd)
    requires Itoa(va) == fa && Itoa(vb) == fb && Itoa(vc) == fc && Itoa(vd) == fd
    requires Join([fa, fb, fc, fd], '.') == decimal
    ensures Address.Convert(romanIP) == Ok(decimal)
  {
    ConvertExample(romanIP, [a, b, c, d], [va, vb, vc, vd], [fa, fb, fc, fd]);
  }

  lemma JoinLocalhost()
    ensures Join(["CXXVII", "N", "N", "I"], '.') == "CXXVII.N.N.I"
  {
    assert Join(["N", "I"], '.') == "N.I";
    assert Join(["N", "N", "I"], '.') == "N.N.I";
  }

  lemma JoinLocalhostEmptySegments()
    ensures Join(["CXXVII", "", "", "I"], '.') == "CXXVII...I"
  {
    assert Join(["", "I"], '.') == ".I";
    assert Join(["", "", "I"], '.') == "..I";
  }

  lemma JoinLoopback()
    ensures Join(["127", "0", "0", "1"], '.') == "127.0.0.1"
  {
    assert Join(["0", "1"], '.') == "0.1";
    assert Join(["0", "0", "1"], '.') == "0.0.1";
  }

  lemma Localhost()
    ensures Address.Convert("CXXVII.N.N.I") == Ok("127.0.0.1")
  {
    DecodeCXXVII();
    ZeroLiterals();
    One();
    JoinLocalhost();
    ItoaSmall();
    JoinLoopback();
    ConvertFour("CXXVII.N.N.I", "CXXVII", "N", "N", "I", 127, 0, 0, 1,
                "127", "0", "0", "1", "127.0.0.1");
  }

  /** Empty segments decode to zero. */
  lemma LocalhostEmptySegments()
    ensures Address.Convert("CXXVII...I") == Ok("127.0.0.1")
  {
    DecodeCXXVII();
    EmptyToken();
    One();
    JoinLocalhostEmptySegments();
    ItoaSmall();
    JoinLoopback();
    ConvertFour("CXXVII...I", "CXXVII", "", "", "I", 127, 0, 0, 1,
                "127", "0", "0", "1", "127.0.0.1");
  }

  lemma JoinZeros()
    ensures Join(["127", "0", "0", "0"], '.') == "127.0.0.0"
    ensures Join(["0", "0", "0", "0"], '.') == "0.0.0.0"
  {
    assert Join(["0", "0"], '.') == "0.0";
    assert Join(["0", "0", "0"], '.') == "0.0.0";
  }

  /** Missing segments are filled in with zeros. */
  lemma SingleSegment()
    ensures Address.Convert("CXXVII") == Ok("127.0.0.0")
  {
    DecodeCXXVII();
    ItoaSmall();
    JoinZeros();
    ConvertExample("CXXVII", ["CXXVII"], [127], ["127", "0", "0", "0"]);
  }

  lemma JoinEights()
    ensures Join(["VIII", "VIII", "VIII", "VIII"], '.') == "VIII.VIII.VIII.VIII"
    ensures Join(["8", "8", "8", "8"], '.') == "8.8.8.8"
  {
    assert Join(["VIII", "VIII"], '.') == "VIII.VIII";
    assert Join(["VIII", "VIII", "VIII"], '.') == "VIII.VIII.VIII";
    assert Join(["8", "8"], '.') == "8.8";
    assert Join(["8", "8", "8"], '.') == "8.8.8";
  }

  lemma Eights()
    ensures Address.Convert("VIII.VIII.VIII.VIII") == Ok("8.8.8.8")
  {
    assert Roman.Decode("VIII") == Ok(8);
    ItoaSmall();
    JoinEights();
    ConvertFour("VIII.VIII.VIII.VIII", "VIII", "VIII", "VIII", "VIII", 8, 8, 8, 8,
                "8", "8", "8", "8", "8.8.8.8");
  }

  lemma JoinLatinLocalhost()
    ensures Join(["CXXVII", "nulla", "nulla", "I"], '.') == "CXXVII.nulla.nulla.I"
  {
    assert Join(["nulla", "I"], '.') == "nulla.I";
    assert Join(["nulla", "nulla", "I"], '.') == "nulla.nulla.I";
  }

  lemma LatinLocalhost()
    ensures Address.Convert("CXXVII.nulla.nulla.I") == Ok("127.0.0.1")
  {
    DecodeCXXVII();
    ZeroLiterals();
    One();
    JoinLatinLocalhost();
    ItoaSmall();
    JoinLoopback();
    ConvertFour("CXXVII.nulla.nulla.I", "CXXVII", "nulla", "nulla", "I", 127, 0, 0, 1,
                "127", "0", "0", "1", "127.0.0.1");
  }

  lemma DecodeCLXVIII()
    ensures Roman.Decode("CLXVIII") == Ok(168)
  {
  }

  lemma ItoaPrivate()
    ensures Itoa(192) == "192" && Itoa(168) == "168" && Itoa(1) == "1"
  {
    assert Digits(19) == "19";
    assert Digits(16) == "16";
  }

  lemma JoinPrivate()
    ensures Join(["CXCII", "CLXVIII", "I", "I"], '.') == "CXCII.CLXVIII.I.I"
    ensures Join(["192", "168", "1", "1"], '.') == "192.168.1.1"
  {
    assert Join(["I", "I"], '.') == "I.I";
    assert Join(["CLXVIII", "I", "I"], '.') == "CLXVIII.I.I";
    assert Join(["1", "1"], '.') == "1.1";
    assert Join(["168", "1", "1"], '.') == "168.1.1";
  }

  lemma PrivateAddress()
    ensures Address.Convert("CXCII.CLXVIII.I.I") == Ok("192.168.1.1")
  {
    CXCII();
    DecodeCLXVIII();
    One();
    ItoaPrivate();
    JoinPrivate();
    ConvertFour("CXCII.CLXVIII.I.I", "CXCII", "CLXVIII", "I", "I", 192, 168, 1, 1,
                "192", "168", "1", "1", "192.168.1.1");
  }

  /** An empty address is one empty segment, which decodes to zero. */
  lemma EmptyAddress()
    ensures Address.Convert("") == Ok("0.0.0.0")
  {
    ItoaSmall();
    JoinZeros();
    ConvertExample("", [""], [0], ["0", "0", "0", "0"]);
  }

  lemma FiveSegments()
    ensures Address.Convert("I.I.I.I.I") == Err(Address.BadSegmentCount)
  {
    Address.BadSegmentCountIff("I.I.I.I.I");
  }

  lemma SplitIMMMx()
    ensures Split("I.MMM.x", '.') == ["I", "MMM", "x"]
  {
    assert Join(["MMM", "x"], '.') == "MMM.x";
    assert Join(["I", "MMM", "x"], '.') == "I.MMM.x";
    SplitJoin(["I", "MMM", "x"], '.');
  }

  /** The first segment that fails is the one reported, with its 1-based position. */
  lemma SecondSegmentTooLarge()
    ensures Address.Convert("I.MMM.x") == Err(Address.OctetError(2, "MMM", Roman.OutOfRange(3000)))
  {
    SplitIMMMx();
    TooLarge();
    assert Roman.Decode("I") == Ok(1);
    assert Address.FirstFailure(["I", "MMM", "x"], 1);
    Address.ConvertReportsFirstFailure("I.MMM.x", 1);
  }
}
