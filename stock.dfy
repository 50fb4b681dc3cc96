/**
 * `sumStock`: the stock of a product variant is the sum of the `stock`
 * fields of its inventory levels, each converted with `Number(...)`, with
 * every value that is not a finite number counting as 0.
 *
 * Numbers are exact rationals here; see the README for what that leaves out.
 */
module Stock {
  import opened Wrappers
  import opened JsValue
  import opened Clean

  // ---------------------------------------------------------------------
  // Numbers: the outcome of `Number(v)`

  /** A JavaScript number as `Number.isFinite` sees it. */
  datatype JsNumber = Finite(value: real) | Infinite(negative: bool) | NaN

  // ---------------------------------------------------------------------
  // Digits

  predicate IsDecimalDigit(c: char) {
    '0' <= c <= '9'
  }

  /** Whether `c` is a digit in base `base` (2, 8, 10 or 16). */
  predicate IsDigitIn(c: char, base: nat) {
    if base == 16 then IsDecimalDigit(c) || 'a' <= c <= 'f' || 'A' <= c <= 'F'
    else '0' <= c && (c as int) < ('0' as int) + base
  }

  function DigitValue(c: char): (d: nat)
    ensures IsDecimalDigit(c) ==> d == c as int - '0' as int
  {
    if IsDecimalDigit(c) then c as int - '0' as int
    else if 'a' <= c <= 'f' then c as int - 'a' as int + 10
    else if 'A' <= c <= 'F' then c as int - 'A' as int + 10
    else 0
  }

  predicate AllDigitsIn(s: string, base: nat) {
    forall i | 0 <= i < |s| :: IsDigitIn(s[i], base)
  }

  /** The value of a digit string in base `base`, most significant digit first. */
  function DigitsValue(s: string, base: nat): nat {
    if s == [] then 0 else DigitsValue(s[..|s| - 1], base) * base + DigitValue(s[|s| - 1])
  }

  function Pow10(n: nat): (r: nat)
    ensures r >= 1
  {
    if n == 0 then 1 else 10 * Pow10(n - 1)
  }

  // ---------------------------------------------------------------------
  // `Number(string)`: the StringNumericLiteral grammar of ECMAScript

  /** The index of the first `e` or `E` in `s`, or `|s|`. */
  function IndexOfExponent(s: string): (i: nat)
    ensures i <= |s|
    ensures i < |s| ==> s[i] == 'e' || s[i] == 'E'
    ensures forall j | 0 <= j < i :: s[j] != 'e' && s[j] != 'E'
  {
    if s == [] then 0
    else if s[0] == 'e' || s[0] == 'E' then 0
    else 1 + IndexOfExponent(s[1..])
  }

  /** The index of the first `.` in `s`, or `|s|`. */
  function IndexOfPoint(s: string): (i: nat)
    ensures i <= |s|
    ensures i < |s| ==> s[i] == '.'
    ensures forall j | 0 <= j < i :: s[j] != '.'
  {
    if s == [] then 0
    else if s[0] == '.' then 0
    else 1 + IndexOfPoint(s[1..])
  }

  /** A signed exponent: `[+-]? digits`. */
  function ParseExponent(s: string): Option<int> {
    var neg := s != [] && s[0] == '-';
    var digits := if s != [] && (s[0] == '+' || s[0] == '-') then s[1..] else s;
    if digits != [] && AllDigitsIn(digits, 10) then
      var e: int := DigitsValue(digits, 10);
      Some(if neg then -e else e)
    else None
  }

  /** `m` times ten to the power `e`. */
  function Scale(m: real, e: int): real {
    if e >= 0 then m * (Pow10(e) as real) else m / (Pow10(-e) as real)
  }

  /**
   * An unsigned decimal literal: `digits [. digits] [exponent]` or
   * `. digits [exponent]`, with at least one digit before the exponent.
   */
  function ParseUnsignedDecimal(s: string): Option<real> {
    var i := IndexOfExponent(s);
    var mantissa := s[..i];
    var exponent := if i < |s| then ParseExponent(s[i + 1..]) else Some(0);
    var j := IndexOfPoint(mantissa);
    var whole := mantissa[..j];
    var fraction := if j < |mantissa| then mantissa[j + 1..] else [];
    if exponent.Some? && |whole| + |fraction| > 0
       && AllDigitsIn(whole, 10) && AllDigitsIn(fraction, 10)
    then
      var m := DigitsValue(whole, 10) as real + DigitsValue(fraction, 10) as real / Pow10(|fraction|) as real;
      Some(Scale(m, exponent.value))
    else None
  }

  /** The base named by a `0x`, `0o` or `0b` prefix letter, or 0 for none. */
  function RadixOf(c: char): nat {
    if c == 'x' || c == 'X' then 16
    else if c == 'o' || c == 'O' then 8
    else if c == 'b' || c == 'B' then 2
    else 0
  }

  /** A trimmed numeric literal: "" is 0, then `0x`/`0o`/`0b` integers, signed Infinity and signed decimals. */
  function ParseNumeric(s: string): JsNumber {
    if s == [] then Finite(0.0)
    else if |s| > 2 && s[0] == '0' && RadixOf(s[1]) != 0 then
      var digits := s[2..];
      if AllDigitsIn(digits, RadixOf(s[1])) then Finite(DigitsValue(digits, RadixOf(s[1])) as real) else NaN
    else
      var neg := s[0] == '-';
      var body := if s[0] == '+' || s[0] == '-' then s[1..] else s;
      if body == "Infinity" then Infinite(neg)
      else match ParseUnsignedDecimal(body)
        case Some(r) => Finite(if neg then -r else r)
        case None => NaN
  }

  /** `Number(s)` for a string: surrounding whitespace is ignored. */
  function StringToNumber(s: string): JsNumber {
    ParseNumeric(Trim(s))
  }

  /** Whitespace inside the text, as in "1 2", makes it NaN: only the ends are trimmed. */
  lemma InnerWhitespaceIsNaN(s: string, k: nat)
    requires k < |Trim(s)| && IsWs(Trim(s)[k])
    ensures StringToNumber(s) == NaN
  {
    NumericRejectsWhitespace(Trim(s), k);
  }

  lemma NumericRejectsWhitespace(t: string, k: nat)
    requires k < |t| && IsWs(t[k])
    ensures ParseNumeric(t) == NaN
  {
    if |t| > 2 && t[0] == '0' && RadixOf(t[1]) != 0 {
      assert t[2..][k - 2] == t[k];
    } else {
      var body := if t[0] == '+' || t[0] == '-' then t[1..] else t;
      var kb := if t[0] == '+' || t[0] == '-' then k - 1 else k;
      assert body[kb] == t[k];
      assert body != "Infinity" by {
        if |body| == 8 {
          assert !IsWs("Infinity"[kb]);
        }
      }
      DecimalRejectsWhitespace(body, kb);
    }
  }

  lemma DecimalRejectsWhitespace(b: string, k: nat)
    requires k < |b| && IsWs(b[k])
    ensures ParseUnsignedDecimal(b) == None
  {
    var i := IndexOfExponent(b);
    var mantissa := b[..i];
    if k < i {
      var j := IndexOfPoint(mantissa);
      assert mantissa[k] == b[k];
      if k < j {
        assert mantissa[..j][k] == b[k];
      } else {
        assert mantissa[j + 1..][k - j - 1] == b[k];
      }
    } else {
      var e := b[i + 1..];
      assert e[k - i - 1] == b[k];
      var digits := if e != [] && (e[0] == '+' || e[0] == '-') then e[1..] else e;
      if e != [] && (e[0] == '+' || e[0] == '-') {
        assert digits[k - i - 2] == b[k];
      }
    }
  }

  /**
   * `Number(v)`. A number converts to itself; since it is held by its
   * `String(n)` text, that text is parsed back. Arrays and objects go
   * through their string form, so `[5]` is 5 and `{}` is NaN (an own
   * `toString` key, on which JavaScript throws, is ignored as in `ToStr`).
   */
  function ToNumber(v: Value): JsNumber {
    match v
    case Undefined => NaN
    case Null => Finite(0.0)
    case Bool(b) => Finite(if b then 1.0 else 0.0)
    case Num(t) => StringToNumber(t)
    case Str(s) => StringToNumber(s)
    case Arr(_) => StringToNumber(ToStr(v))
    case Obj(_) => StringToNumber(ToStr(v))
  }

  // ---------------------------------------------------------------------
  // Integers written in decimal, and their round trip through `Number`

  function DigitChar(d: nat): (c: char)
    requires d < 10
    ensures IsDecimalDigit(c) && DigitValue(c) == d
  {
    ('0' as int + d) as char
  }

  /** The decimal digits of `n`, without leading zeros. */
  function NatText(n: nat): (r: string)
    ensures r != [] && AllDigitsIn(r, 10)
    ensures r[0] == '0' ==> n == 0 && |r| == 1
    decreases n
  {
    if n < 10 then [DigitChar(n)] else NatText(n / 10) + [DigitChar(n % 10)]
  }

  /** `String(n)` for an integer `n`. */
  function DecimalText(n: int): string {
    if n < 0 then "-" + NatText(-n) else NatText(n)
  }

  lemma {:induction false} NatTextValue(n: nat)
    ensures DigitsValue(NatText(n), 10) == n
    decreases n
  {
    if n >= 10 {
      var r := NatText(n);
      NatTextValue(n / 10);
      assert r[..|r| - 1] == NatText(n / 10);
    }
  }

  lemma NatTextHasNoLetters(n: nat)
    ensures IndexOfExponent(NatText(n)) == |NatText(n)|
    ensures IndexOfPoint(NatText(n)) == |NatText(n)|
  {
    var r := NatText(n);
    NoMarkerInDigits(r);
  }

  lemma {:induction false} NoMarkerInDigits(r: string)
    requires AllDigitsIn(r, 10)
    ensures IndexOfExponent(r) == |r| && IndexOfPoint(r) == |r|
  {
    if r != [] {
      NoMarkerInDigits(r[1..]);
    }
  }

  /** `Number(String(n)) == n` for every integer written in decimal. */
  lemma NumberOfDecimalText(n: int)
    ensures StringToNumber(DecimalText(n)) == Finite(n as real)
  {
    DecimalTextTrimmed(n);
    ParseDecimalText(n);
  }

  lemma DecimalTextTrimmed(n: int)
    ensures Trim(DecimalText(n)) == DecimalText(n)
  {
    var t := DecimalText(n);
    var digits := NatText(if n < 0 then -n else n);
    assert IsDecimalDigit(digits[|digits| - 1]);
    assert t[|t| - 1] == digits[|digits| - 1];
    assert t[0] == '-' || IsDecimalDigit(t[0]);
    TrimOfTrimmed(t);
  }

  lemma ParseDecimalText(n: int)
    ensures ParseNumeric(DecimalText(n)) == Finite(n as real)
  {
    var m: nat := if n < 0 then -n else n;
    var digits := NatText(m);
    var t := DecimalText(n);
    assert (if t[0] == '+' || t[0] == '-' then t[1..] else t) == digits;
    assert digits != "Infinity" by {
      assert IsDecimalDigit(digits[0]);
    }
    ParseNatText(m);
  }

  lemma ParseNatText(m: nat)
    ensures ParseUnsignedDecimal(NatText(m)) == Some(m as real)
  {
    var digits := NatText(m);
    NatTextHasNoLetters(m);
    NatTextValue(m);
    assert digits[..|digits|] == digits;
  }

  /** Whitespace around a number is ignored, and whitespace alone is 0. */
  lemma NumberIgnoresWhitespace(s: string)
    ensures StringToNumber(Trim(s)) == StringToNumber(s)
    ensures NonWs(s) == [] ==> StringToNumber(s) == Finite(0.0)
  {
    TrimShape(s);
    TrimOfTrimmed(Trim(s));
    if NonWs(s) == [] && Trim(s) != [] {
      FirstOfTrimmed(Trim(s));
    }
  }

  // ---------------------------------------------------------------------
  // Summing the inventory levels

  /** `Number.isFinite(s) ? s : 0` for `s = Number(it?.stock)`. */
  function Contribution(it: Value): real {
    match ToNumber(Get(it, "stock"))
    case Finite(r) => r
    case _ => 0.0
  }

  /** `xs.reduce((acc, x) => acc + f(x), acc)`: a left fold adding up `f` of each element. */
  function FoldSum<T>(f: T -> real, acc: real, xs: seq<T>): real
    decreases |xs|
  {
    if xs == [] then acc else FoldSum(f, acc + f(xs[0]), xs[1..])
  }

  /** The reference sum of `f` over `xs`, peeling off the last element. */
  function SumOf<T>(f: T -> real, xs: seq<T>): real {
    if xs == [] then 0.0 else SumOf(f, xs[..|xs| - 1]) + f(xs[|xs| - 1])
  }

  /** The reference total of a list of inventory levels. */
  function Total(levels: seq<Value>): real {
    SumOf(Contribution, levels)
  }

  /**
   * `sumStock(variant)`: null (None) unless `variant?.inventory_levels` is
   * an array, and then the fold of its contributions from 0.
   */
  function SumStock(variant: Value): Option<real> {
    match Get(variant, "inventory_levels")
    case Arr(levels) => Some(FoldSum(Contribution, 0.0, levels))
    case _ => None
  }

  lemma {:induction false} SumOfPrepend<T>(f: T -> real, x: T, xs: seq<T>)
    ensures SumOf(f, [x] + xs) == f(x) + SumOf(f, xs)
    decreases |xs|
  {
    if xs != [] {
      var all := [x] + xs;
      assert all[..|all| - 1] == [x] + xs[..|xs| - 1];
      SumOfPrepend(f, x, xs[..|xs| - 1]);
    } else {
      assert [x] + xs == [x];
      assert [x][..0] == [];
    }
  }

  /** The fold from `acc` adds the reference sum to `acc`. */
  lemma {:induction false} FoldIsSum<T>(f: T -> real, acc: real, xs: seq<T>)
    ensures FoldSum(f, acc, xs) == acc + SumOf(f, xs)
    decreases |xs|
  {
    if xs != [] {
      var x, rest := xs[0], xs[1..];
      assert xs == [x] + rest;
      FoldIsSum(f, acc + f(x), rest);
      SumOfPrepend(f, x, rest);
    }
  }

  lemma {:induction false} SumOfAppend<T>(f: T -> real, a: seq<T>, b: seq<T>)
    ensures SumOf(f, a + b) == SumOf(f, a) + SumOf(f, b)
    decreases |b|
  {
    if b == [] {
      assert a + b == a;
    } else {
      assert (a + b)[..|a + b| - 1] == a + b[..|b| - 1];
      SumOfAppend(f, a, b[..|b| - 1]);
    }
  }

  lemma {:induction false} SumOfNonNegative<T>(f: T -> real, xs: seq<T>)
    requires forall i | 0 <= i < |xs| :: f(xs[i]) >= 0.0
    ensures SumOf(f, xs) >= 0.0
    decreases |xs|
  {
    if xs != [] {
      SumOfNonNegative(f, xs[..|xs| - 1]);
    }
  }

  /** `sumStock` is null exactly when there is no inventory array, and otherwise the reference total. */
  lemma SumStockSpec(variant: Value)
    ensures SumStock(variant).None? <==> !Get(variant, "inventory_levels").Arr?
    ensures Get(variant, "inventory_levels").Arr? ==>
      SumStock(variant) == Some(Total(Get(variant, "inventory_levels").items))
  {
    if Get(variant, "inventory_levels").Arr? {
      FoldIsSum(Contribution, 0.0, Get(variant, "inventory_levels").items);
    }
  }

  /** Each level adds its own contribution, in order. */
  lemma SumStockSplits(variant: Value, a: seq<Value>, b: seq<Value>)
    requires Get(variant, "inventory_levels") == Arr(a + b)
    ensures SumStock(variant) == Some(Total(a) + Total(b))
  {
    SumStockSpec(variant);
    SumOfAppend(Contribution, a, b);
  }

  /** A level whose stock is missing, unparsable or infinite adds nothing. */
  lemma UnparsableAddsNothing(levels: seq<Value>, x: Value)
    requires !ToNumber(Get(x, "stock")).Finite?
    ensures Total(levels + [x]) == Total(levels)
  {
    assert (levels + [x])[..|levels|] == levels;
  }

  /** When no level has a negative stock the sum is not negative. */
  lemma TotalNonNegative(levels: seq<Value>)
    requires forall i | 0 <= i < |levels| :: Contribution(levels[i]) >= 0.0
    ensures Total(levels) >= 0.0
  {
    SumOfNonNegative(Contribution, levels);
  }

  /** A level whose stock is the integer `n`, written as a JSON number or as a string of digits. */
  lemma IntegerStockContributes(n: int, x: Value)
    requires Get(x, "stock") == Num(DecimalText(n)) || Get(x, "stock") == Str(DecimalText(n))
    ensures Contribution(x) == n as real
  {
    NumberOfDecimalText(n);
  }
}
