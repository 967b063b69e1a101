/**
 * The version-code scheme of `Command.getVersionCode`: a version name
 * `major.minor.build` made of ASCII digits and dots becomes the decimal string
 * of the Java `int` expression `100000000 + major*10000 + minor*100 + build`.
 */
module VersionCode {
  import opened Results
  import opened JavaText

  /** The three ways `getVersionCode` throws `NumberFormatException`. */
  datatype VersionError =
    | IllegalCharacter        // a character that is neither a digit nor '.'
    | NotThreeParts           // the split does not give exactly three pieces
    | NotAnInt(part: string)  // `Integer.parseInt` rejects a piece

  const VersionBase: int := 100000000

  predicate VersionChars(s: string)
  {
    forall i :: 0 <= i < |s| ==> s[i] == '.' || IsAsciiDigit(s[i])
  }

  /** `version + major*10000 + minor*100 + build` in Java `int` arithmetic. */
  function Encode(major: int, minor: int, build: int): int
  {
    Add32(Add32(Add32(VersionBase, Mul32(major, 10000)), Mul32(minor, 100)), build)
  }

  /** The exact, unbounded value the encoding is meant to compute. */
  function ExactCode(major: int, minor: int, build: int): int
  {
    VersionBase + major * 10000 + minor * 100 + build
  }

  /** `getVersionCode(versionName)`: the code, or the exception it throws. */
  function VersionCodeOf(name: string): (r: Result<string, VersionError>)
    ensures r == Err(IllegalCharacter) <==> !VersionChars(name)
    ensures r == Err(NotThreeParts) <==> VersionChars(name) && |Split(name, '.')| != 3
  {
    if !VersionChars(name) then Err(IllegalCharacter)
    else
      var parts := Split(name, '.');
      if |parts| != 3 then Err(NotThreeParts)
      else
        match (ParseInt(parts[0]), ParseInt(parts[1]), ParseInt(parts[2]))
        case (None, _, _) => Err(NotAnInt(parts[0]))
        case (Some(_), None, _) => Err(NotAnInt(parts[1]))
        case (Some(_), Some(_), None) => Err(NotAnInt(parts[2]))
        case (Some(major), Some(minor), Some(build)) => Ok(IntToDecimal(Encode(major, minor, build)))
  }

  /** The version name a release engineer writes for three numbers. */
  function VersionName(major: nat, minor: nat, build: nat): string
  {
    NatToDecimal(major) + "." + NatToDecimal(minor) + "." + NatToDecimal(build)
  }

  // ---------------------------------------------------------------------------
  // Arithmetic of the encoding

  /** Within `int` range the Java expression computes the exact value. */
  lemma EncodeExact(major: nat, minor: nat, build: nat)
    requires ExactCode(major, minor, build) <= MaxInt
    ensures Encode(major, minor, build) == ExactCode(major, minor, build)
  {
    assert major * 10000 <= MaxInt && minor * 100 <= MaxInt;
  }

  /** In general the Java expression is the exact value wrapped to 32 bits once. */
  lemma EncodeWraps(major: int, minor: int, build: int)
    ensures Encode(major, minor, build) == Wrap32(ExactCode(major, minor, build))
  {
    var a, b := major * 10000, minor * 100;
    var e1 := Add32(VersionBase, Mul32(major, 10000));
    assert e1 == Wrap32(VersionBase + a) by {
      WrapInner(a, VersionBase);
    }
    var e2 := Add32(e1, Mul32(minor, 100));
    assert e2 == Wrap32(VersionBase + a + b) by {
      WrapInner(VersionBase + a, Wrap32(b));
      WrapInner(b, VersionBase + a);
    }
    assert Add32(e2, build) == Wrap32(VersionBase + a + b + build) by {
      WrapInner(VersionBase + a + b, build);
    }
  }

  /** With minor and build below 100 distinct triples get distinct codes. */
  lemma ExactCodeInjective(major: nat, minor: nat, build: nat, major': nat, minor': nat, build': nat)
    requires minor < 100 && build < 100 && minor' < 100 && build' < 100
    requires ExactCode(major, minor, build) == ExactCode(major', minor', build')
    ensures major == major' && minor == minor' && build == build'
  {
    var k := (major * 100 + minor) - (major' * 100 + minor');
    assert k * 100 == build' - build;
    HundredMultiple(k);
    var j := major - major';
    assert j * 100 == minor' - minor;
    HundredMultiple(j);
  }

  lemma HundredMultiple(k: int)
    requires -100 < k * 100 < 100
    ensures k == 0
  {
  }

  // ---------------------------------------------------------------------------
  // Splitting well-formed names

  lemma SplitThree(a: string, b: string, c: string)
    requires '.' !in a && '.' !in b && '.' !in c
    ensures SplitAll(a + "." + b + "." + c, '.') == [a, b, c]
  {
    assert a + "." + b + "." + c == a + ['.'] + (b + ['.'] + c);
    SplitAllPrefix(a, '.', b + ['.'] + c);
    SplitAllPrefix(b, '.', c);
    SplitAllNoSep(c, '.');
  }

  lemma DigitsHaveNoDot(s: string)
    requires AllDigits(s)
    ensures '.' !in s
  {
    forall i | 0 <= i < |s| ensures s[i] != '.' {
      assert IsAsciiDigit(s[i]);
    }
  }

  lemma ThreeDigitPartsSplit(a: string, b: string, c: string)
    requires AllDigits(a) && AllDigits(b) && AllDigits(c) && |c| > 0
    ensures VersionChars(a + "." + b + "." + c)
    ensures Split(a + "." + b + "." + c, '.') == [a, b, c]
  {
    var s := a + "." + b + "." + c;
    forall i | 0 <= i < |s| ensures s[i] == '.' || IsAsciiDigit(s[i]) {
      if i < |a| { assert s[i] == a[i]; }
      else if i == |a| { }
      else if i < |a| + 1 + |b| { assert s[i] == b[i - |a| - 1]; }
      else if i == |a| + 1 + |b| { }
      else { assert s[i] == c[i - |a| - |b| - 2]; }
    }
    DigitsHaveNoDot(a);
    DigitsHaveNoDot(b);
    DigitsHaveNoDot(c);
    SplitThree(a, b, c);
    assert s[|a|] == '.';
  }

  // ---------------------------------------------------------------------------
  // What getVersionCode returns

  /** Three non-empty digit strings whose code fits an `int` give exactly that code. */
  lemma ValidVersionName(a: string, b: string, c: string)
    requires |a| > 0 && |b| > 0 && |c| > 0
    requires AllDigits(a) && AllDigits(b) && AllDigits(c)
    requires ExactCode(DecimalValue(a), DecimalValue(b), DecimalValue(c)) <= MaxInt
    ensures VersionCodeOf(a + "." + b + "." + c)
         == Ok(NatToDecimal(ExactCode(DecimalValue(a), DecimalValue(b), DecimalValue(c))))
  {
    ThreeDigitPartsSplit(a, b, c);
    var x, y, z := DecimalValue(a), DecimalValue(b), DecimalValue(c);
    assert x * 10000 >= x && y * 100 >= y;
    EncodeExact(x, y, z);
  }

  /**
   * Without the range condition the result is the exact value wrapped to a
   * Java `int`, printed with a minus sign when it wrapped negative.
   */
  lemma WrappingVersionName(a: string, b: string, c: string)
    requires |a| > 0 && |b| > 0 && |c| > 0
    requires AllDigits(a) && AllDigits(b) && AllDigits(c)
    requires DecimalValue(a) <= MaxInt && DecimalValue(b) <= MaxInt && DecimalValue(c) <= MaxInt
    ensures VersionCodeOf(a + "." + b + "." + c)
         == Ok(IntToDecimal(Wrap32(ExactCode(DecimalValue(a), DecimalValue(b), DecimalValue(c)))))
  {
    ThreeDigitPartsSplit(a, b, c);
    EncodeWraps(DecimalValue(a), DecimalValue(b), DecimalValue(c));
  }

  /** The code of the name written for three numbers is the decimal of their encoding. */
  lemma NumericVersionName(major: nat, minor: nat, build: nat)
    requires ExactCode(major, minor, build) <= MaxInt
    ensures VersionCodeOf(VersionName(major, minor, build)) == Ok(NatToDecimal(ExactCode(major, minor, build)))
  {
    DecimalRoundTrip(major);
    DecimalRoundTrip(minor);
    DecimalRoundTrip(build);
    ValidVersionName(NatToDecimal(major), NatToDecimal(minor), NatToDecimal(build));
  }

  /** Within the ranges minor < 100 and build < 100 the code identifies the version. */
  lemma VersionCodeInjective(major: nat, minor: nat, build: nat, major': nat, minor': nat, build': nat)
    requires minor < 100 && build < 100 && minor' < 100 && build' < 100
    requires ExactCode(major, minor, build) <= MaxInt && ExactCode(major', minor', build') <= MaxInt
    requires VersionCodeOf(VersionName(major, minor, build)) == VersionCodeOf(VersionName(major', minor', build'))
    ensures major == major' && minor == minor' && build == build'
  {
    NumericVersionName(major, minor, build);
    NumericVersionName(major', minor', build');
    NatToDecimalInjective(ExactCode(major, minor, build), ExactCode(major', minor', build'));
    ExactCodeInjective(major, minor, build, major', minor', build');
  }

  // ---------------------------------------------------------------------------
  // Names getVersionCode rejects

  /** A name with an empty component throws: through `parseInt`, or the split comes up short. */
  lemma EmptyComponentRejected(a: string, b: string, c: string)
    requires AllDigits(a) && AllDigits(b) && AllDigits(c)
    requires a == "" || b == "" || c == ""
    ensures VersionCodeOf(a + "." + b + "." + c).Err?
  {
    var s := a + "." + b + "." + c;
    if c == "" {
      DigitsHaveNoDot(a);
      DigitsHaveNoDot(b);
      SplitThree(a, b, c);
      assert s[|a|] == '.';
      assert |Split(s, '.')| < 3;
    } else {
      ThreeDigitPartsSplit(a, b, c);
    }
  }

  /** The last piece of the full split is non-empty when the text does not end in the separator. */
  lemma {:induction false} SplitAllLastNonEmpty(s: string, sep: char)
    requires |s| > 0 && s[|s| - 1] != sep
    ensures SplitAll(s, sep)[|SplitAll(s, sep)| - 1] != ""
  {
    if |s| > 1 {
      SplitAllLastNonEmpty(s[1..], sep);
    }
  }

  /**
   * A name made of digits and dots throws `NotThreeParts` when it has fewer
   * than two dots, or more than two and does not end in a dot.
   */
  lemma WrongPartCountRejected(s: string)
    requires VersionChars(s)
    requires CountChar(s, '.') < 2 || (CountChar(s, '.') > 2 && |s| > 0 && s[|s| - 1] != '.')
    ensures VersionCodeOf(s) == Err(NotThreeParts)
  {
    if CountChar(s, '.') > 2 {
      CountCharZero(s, '.');
      SplitAllLastNonEmpty(s, '.');
      assert Split(s, '.') == SplitAll(s, '.');
    }
  }

  /**
   * Trailing dots are dropped by `split`, so a name ending in a dot encodes
   * like the same name without it. For the empty name both sides are
   * `NotThreeParts`: "." splits into no pieces and "" into one.
   */
  lemma TrailingDotIgnored(s: string)
    ensures VersionCodeOf(s + ".") == VersionCodeOf(s)
  {
    var t := s + ".";
    assert VersionChars(t) <==> VersionChars(s) by {
      assert forall i :: 0 <= i < |s| ==> t[i] == s[i];
      assert t[|s|] == '.';
    }
    assert '.' in t by { assert t[|s|] == '.'; }
    var parts := SplitAll(s, '.');
    assert t == s + ['.'];
    SplitAllAppendSep(s, '.');
    assert SplitAll(t, '.') == parts + [""];
    assert (parts + [""])[..|parts|] == parts;
    assert DropTrailingEmpty(parts + [""]) == DropTrailingEmpty(parts);
    if '.' !in s {
      SplitAllNoSep(s, '.');
      if s == "" {
        assert DropTrailingEmpty([s]) == [];
        assert |Split(t, '.')| == 0 && Split(s, '.') == [""];
      } else {
        assert DropTrailingEmpty([s]) == [s];
        assert Split(t, '.') == Split(s, '.');
      }
    } else {
      assert Split(t, '.') == Split(s, '.');
    }
  }

  // ---------------------------------------------------------------------------
  // Consequences of the above for particular names

  lemma ExampleCode()
    ensures VersionCodeOf("1.2.3") == Ok("100010203")
  {
    assert "1" + "." + "2" + "." + "3" == "1.2.3";
    ExampleDigits();
    ValidVersionName("1", "2", "3");
    ExampleDecimal();
  }

  lemma ExampleDigits()
    ensures DecimalValue("1") == 1 && DecimalValue("2") == 2 && DecimalValue("3") == 3
    ensures ExactCode(1, 2, 3) == 100010203
  {
  }

  lemma ExampleDecimal()
    ensures NatToDecimal(100010203) == "100010203"
  {
    assert NatToDecimal(1) == "1";
    assert NatToDecimal(10) == "10";
    assert NatToDecimal(100) == "100";
    assert NatToDecimal(1000) == "1000";
    assert NatToDecimal(10001) == "10001";
    assert NatToDecimal(100010) == "100010";
    assert NatToDecimal(1000102) == "1000102";
    assert NatToDecimal(10001020) == "10001020";
  }

  /** "1.2.3." is accepted, although it has four dot-separated pieces. */
  lemma TrailingDotExample()
    ensures VersionCodeOf("1.2.3.") == Ok("100010203")
  {
    TrailingDotIgnored("1.2.3");
    assert "1.2.3" + "." == "1.2.3.";
    ExampleCode();
  }

  /** Outside the minor < 100 range two versions share a code. */
  lemma CollisionOutsideRange()
    ensures VersionCodeOf("1.100.0") == VersionCodeOf("2.0.0") == Ok("100020000")
  {
    CollisionFirst();
    CollisionSecond();
  }

  lemma CollisionFirst()
    ensures VersionCodeOf("1.100.0") == Ok("100020000")
  {
    HundredValue();
    ValidVersionName("1", "100", "0");
    assert "1" + "." + "100" + "." + "0" == "1.100.0";
    assert ExactCode(1, 100, 0) == 100020000;
    CollisionDecimal();
  }

  lemma CollisionSecond()
    ensures VersionCodeOf("2.0.0") == Ok("100020000")
  {
    HundredValue();
    ValidVersionName("2", "0", "0");
    assert "2" + "." + "0" + "." + "0" == "2.0.0";
    assert ExactCode(2, 0, 0) == 100020000;
    CollisionDecimal();
  }

  lemma HundredValue()
    ensures DecimalValue("1") == 1 && DecimalValue("2") == 2 && DecimalValue("0") == 0
    ensures DecimalValue("100") == 100
  {
    assert "100"[..2] == "10" && "10"[..1] == "1";
    assert DecimalValue("10") == 10;
  }

  lemma CollisionDecimal()
    ensures NatToDecimal(100020000) == "100020000"
  {
    assert NatToDecimal(1) == "1";
    assert NatToDecimal(10) == "10";
    assert NatToDecimal(100) == "100";
    assert NatToDecimal(1000) == "1000";
    assert NatToDecimal(10002) == "10002";
    assert NatToDecimal(100020) == "100020";
    assert NatToDecimal(1000200) == "1000200";
    assert NatToDecimal(10002000) == "10002000";
  }

  /** A large major number wraps the `int` sum to a negative code. */
  lemma OverflowExample()
    ensures VersionCodeOf("214748.0.0") == Ok("-2047487296")
  {
    OverflowWrapped();
    OverflowDecimal();
  }

  lemma OverflowWrapped()
    ensures VersionCodeOf("214748.0.0") == Ok(IntToDecimal(-2047487296))
  {
    assert "214748" + "." + "0" + "." + "0" == "214748.0.0";
    OverflowMajorValue();
    OverflowCode();
    WrappingVersionName("214748", "0", "0");
  }

  lemma OverflowCode()
    ensures Wrap32(ExactCode(214748, 0, 0)) == -2047487296
  {
    assert ExactCode(214748, 0, 0) == 2247480000;
  }

  lemma OverflowMajorValue()
    ensures DecimalValue("214748") == 214748 && DecimalValue("0") == 0
  {
    assert "214748"[..5] == "21474" && "21474"[..4] == "2147" && "2147"[..3] == "214";
    assert "214"[..2] == "21" && "21"[..1] == "2";
    assert DecimalValue("2") == 2;
    assert DecimalValue("21") == 21;
    assert DecimalValue("214") == 214;
    assert DecimalValue("2147") == 2147;
    assert DecimalValue("21474") == 21474;
  }

  lemma OverflowDecimal()
    ensures IntToDecimal(-2047487296) == "-2047487296"
  {
    OverflowDigits();
  }

  lemma OverflowDigits()
    ensures NatToDecimal(2047487296) == "2047487296"
  {
    assert NatToDecimal(2) == "2";
    assert NatToDecimal(20) == "20";
    assert NatToDecimal(204) == "204";
    assert NatToDecimal(2047) == "2047";
    assert NatToDecimal(20474) == "20474";
    assert NatToDecimal(204748) == "204748";
    assert NatToDecimal(2047487) == "2047487";
    assert NatToDecimal(20474872) == "20474872";
    assert NatToDecimal(204748729) == "204748729";
  }
}
