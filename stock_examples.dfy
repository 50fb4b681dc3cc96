/** Worked examples of `Number(...)` and `sumStock` on concrete inputs. */
module StockExamples {
  import opened Wrappers
  import opened JsValue
  import opened Clean
  import opened Stock

  /** `Number("2.5")` is 2.5. */
  lemma NumberOfFraction()
    ensures StringToNumber("2.5") == Finite(2.5)
  {
    TrimOfTrimmed("2.5");
    FractionParses();
  }

  lemma FractionParses()
    ensures ParseNumeric("2.5") == Finite(2.5)
  {
    assert ParseUnsignedDecimal("2.5") == Some(2.5) by {
      assert IndexOfExponent("2.5") == 3;
      assert IndexOfPoint("2.5") == 1;
      assert "2.5"[..3] == "2.5";
      assert "2.5"[..1] == "2" && "2.5"[2..] == "5";
      assert DigitsValue("2", 10) == 2;
      assert DigitsValue("5", 10) == 5;
      assert Pow10(1) == 10;
    }
  }

  /** `Number("1e+2")` is 100. */
  lemma NumberOfExponent()
    ensures StringToNumber("1e+2") == Finite(100.0)
  {
    TrimOfTrimmed("1e+2");
    ExponentParses();
  }

  lemma ExponentParses()
    ensures ParseNumeric("1e+2") == Finite(100.0)
  {
    assert ParseUnsignedDecimal("1e+2") == Some(100.0) by {
      assert IndexOfExponent("1e+2") == 1;
      assert "1e+2"[..1] == "1" && "1e+2"[2..] == "+2";
      assert ParseExponent("+2") == Some(2) by {
        assert "+2"[1..] == "2";
        assert DigitsValue("2", 10) == 2;
      }
      assert IndexOfPoint("1") == 1;
      assert DigitsValue("1", 10) == 1;
      assert Pow10(2) == 100;
    }
  }

  /** `Number("0x1F")` is 31: a hexadecimal prefix is honoured. */
  lemma NumberOfHex()
    ensures StringToNumber("0x1F") == Finite(31.0)
  {
    TrimOfTrimmed("0x1F");
    HexParses();
  }

  lemma HexParses()
    ensures ParseNumeric("0x1F") == Finite(31.0)
  {
    assert "0x1F"[2..] == "1F";
    assert AllDigitsIn("1F", 16);
    assert DigitsValue("1F", 16) == 31 by {
      assert "1F"[..1] == "1";
      assert DigitsValue("1", 16) == 1;
    }
  }

  /** `Number("-3")` is -3. */
  lemma NumberOfNegative()
    ensures StringToNumber("-3") == Finite(-3.0)
  {
    TrimOfTrimmed("-3");
    NegativeParses();
  }

  lemma NegativeParses()
    ensures ParseNumeric("-3") == Finite(-3.0)
  {
    assert "-3"[1..] == "3";
    assert ParseUnsignedDecimal("3") == Some(3.0) by {
      assert DecimalText(3) == "3";
      ParseNatText(3);
    }
  }

  /** `Number("-Infinity")` is negative infinity. */
  lemma NumberOfInfinity()
    ensures StringToNumber("-Infinity") == Infinite(true)
  {
    TrimOfTrimmed("-Infinity");
    InfinityParses();
  }

  lemma InfinityParses()
    ensures ParseNumeric("-Infinity") == Infinite(true)
  {
    assert "-Infinity"[1..] == "Infinity";
  }

  lemma SumStockExamples()
    ensures SumStock(Obj(map["inventory_levels" := Arr([])])) == Some(0.0)
    ensures SumStock(Obj(map[])) == None
    ensures SumStock(Null) == None
    ensures SumStock(Obj(map["inventory_levels" := Str("5")])) == None
  {
  }

  /** The worked example: the string "3", the unparsable string "bad" and the number 2 sum to 5. */
  lemma SumStockMixed()
    ensures SumStock(Obj(map["inventory_levels" := Arr([
      Obj(map["stock" := Str("3")]), Obj(map["stock" := Str("bad")]), Obj(map["stock" := Num("2")])])]))
      == Some(5.0)
  {
    var a := Obj(map["stock" := Str("3")]);
    var b := Obj(map["stock" := Str("bad")]);
    var c := Obj(map["stock" := Num("2")]);
    MixedContributions(a, b, c);
    SumStockOfThree(a, b, c);
  }

  lemma SumStockOfThree(a: Value, b: Value, c: Value)
    requires Contribution(a) == 3.0 && Contribution(b) == 0.0 && Contribution(c) == 2.0
    ensures SumStock(Obj(map["inventory_levels" := Arr([a, b, c])])) == Some(5.0)
  {
    ReduceThree(a, b, c);
    SumStockOfLevels([a, b, c]);
  }

  lemma SumStockOfLevels(levels: seq<Value>)
    ensures SumStock(Obj(map["inventory_levels" := Arr(levels)])) == Some(FoldSum(Contribution, 0.0, levels))
  {
    var variant := Obj(map["inventory_levels" := Arr(levels)]);
    assert Get(variant, "inventory_levels") == Arr(levels);
  }

  lemma MixedContributions(a: Value, b: Value, c: Value)
    requires a == Obj(map["stock" := Str("3")])
    requires b == Obj(map["stock" := Str("bad")])
    requires c == Obj(map["stock" := Num("2")])
    ensures Contribution(a) == 3.0 && Contribution(b) == 0.0 && Contribution(c) == 2.0
  {
    assert DecimalText(3) == "3";
    IntegerStockContributes(3, a);
    BadStockContributesNothing(b);
    assert DecimalText(2) == "2";
    IntegerStockContributes(2, c);
  }

  /** Folding three levels adds their contributions left to right. */
  lemma ReduceThree(x: Value, y: Value, z: Value)
    ensures FoldSum(Contribution, 0.0, [x, y, z]) == Contribution(x) + Contribution(y) + Contribution(z)
  {
    var levels := [x, y, z];
    FoldIsSum(Contribution, 0.0, levels);
    assert levels[..2] == [x, y];
    assert SumOf(Contribution, levels) == SumOf(Contribution, [x, y]) + Contribution(z);
    assert [x, y][..1] == [x];
    assert SumOf(Contribution, [x, y]) == SumOf(Contribution, [x]) + Contribution(y);
    assert [x][..0] == [];
    assert SumOf(Contribution, [x]) == Contribution(x);
  }

  lemma BadStockContributesNothing(b: Value)
    requires b == Obj(map["stock" := Str("bad")])
    ensures Contribution(b) == 0.0
  {
    assert Get(b, "stock") == Str("bad");
    NumberOfJunk();
  }

  /** `Number("1 2")` is NaN: the inner space is not trimmed away. */
  lemma NumberOfInnerSpace()
    ensures StringToNumber("1 2") == NaN
  {
    TrimOfTrimmed("1 2");
    InnerWhitespaceIsNaN("1 2", 1);
  }

  lemma NumberOfJunk()
    ensures StringToNumber("bad") == NaN
  {
    TrimOfTrimmed("bad");
    ParseOfJunk();
  }

  lemma ParseOfJunk()
    ensures ParseNumeric("bad") == NaN
  {
    assert ParseUnsignedDecimal("bad") == None by {
      assert IndexOfExponent("bad") == 3;
      assert IndexOfPoint("bad") == 3;
      assert !IsDigitIn("bad"[0], 10);
    }
  }
}
