/**
 The discount derivation behind `calculate_discount_tool`: a customer
 identifier of any shape is reduced to its digits, and a percentage is read
 off their tail.
 */
module DiscountTool {
  import opened Decimal

  /** The tool's `customer_suffix` argument: absent (`None`) or a string. */
  datatype Suffix = Absent | Text(s: string)

  /**
   The JSON object the tool returns: `{"discount_percent": n}`,
   `{"error": "no_digits_found", "customer_suffix": s}` or
   `{"error": "internal", "message": m}`.
   */
  datatype DiscountResult =
    | Discount(percent: nat)
    | NoDigitsFound(customerSuffix: string)
    | Internal(message: string)

  /** `str(customer_suffix or "")`: a missing or empty argument is the empty string. */
  function Coerce(x: Suffix): string {
    match x
    case Absent => ""
    case Text(s) => s
  }

  /**
   The digits the percentage is parsed from: the last two when there are at
   least three of them, otherwise all of them zero-filled to three characters.
   */
  function Tail(d: string): (t: string)
    requires AllDigits(d) && d != []
    ensures AllDigits(t) && t != []
    ensures |t| == if |d| >= 3 then 2 else 3
  {
    if |d| >= 3 then d[|d| - 2..]
    else ZFillValue(d, 3); ZFill(d, 3)
  }

  /**
   The body of `calculate_discount_tool`.  It never reports an internal
   error and every percentage is below 100; `DeriveClosedForm` gives its
   whole behaviour.
   */
  function Derive(x: Suffix): (r: DiscountResult)
    ensures !r.Internal?
    ensures r.Discount? ==> r.percent <= 99
  {
    var s := Coerce(x);
    var digits := Digits(s);
    if digits == [] then NoDigitsFound(s)
    else
      TailValue(digits);
      match ParseDecimal(Tail(digits))
      case Parsed(n) => Discount(n)
      case ValueError(msg) => Internal(msg)
  }

  /** The tail read as a number is the value of the digits modulo 100. */
  lemma TailValue(d: string)
    requires AllDigits(d) && d != []
    ensures Value(Tail(d)) == Value(d) % 100
  {
    if |d| >= 3 {
      LastTwoDigitsValue(d);
    } else {
      ZFillValue(d, 3);
      ShortValue(d);
    }
  }

  /**
   Reference definition: no digits gives the error echoing the coerced
   string, and otherwise the percentage is the value of all the digits
   modulo 100.
   */
  lemma DeriveClosedForm(x: Suffix)
    ensures Derive(x) ==
      if Digits(Coerce(x)) == [] then NoDigitsFound(Coerce(x))
      else Discount(Value(Digits(Coerce(x))) % 100)
  {
    var d := Digits(Coerce(x));
    if d != [] {
      TailValue(d);
    }
  }

  /** A missing or empty argument reports that no digits were found. */
  lemma EmptyInput()
    ensures Derive(Absent) == NoDigitsFound("")
    ensures Derive(Text("")) == NoDigitsFound("")
  {
  }

  /** The no-digits error occurs exactly when the coerced string has no digit, and echoes it. */
  lemma NoDigitsIff(x: Suffix)
    ensures Derive(x).NoDigitsFound? <==> NoDigits(Coerce(x))
    ensures Derive(x).NoDigitsFound? ==> Derive(x).customerSuffix == Coerce(x)
  {
    DigitsEmptyIff(Coerce(x));
    DeriveClosedForm(x);
  }

  /**
   With three or more digits the percentage is the value of the last two.
   */
  lemma ThreeOrMoreDigits(s: string)
    requires |Digits(s)| >= 3
    ensures Derive(Text(s)) == Discount(Value(Digits(s)[|Digits(s)| - 2..]))
  {
    DeriveClosedForm(Text(s));
    LastTwoDigitsValue(Digits(s));
  }

  /**
   With one or two digits, the zero padding adds nothing: the percentage is
   the value of the digits themselves.
   */
  lemma OneOrTwoDigits(s: string)
    requires 1 <= |Digits(s)| <= 2
    ensures Derive(Text(s)) == Discount(Value(Digits(s)))
  {
    DeriveClosedForm(Text(s));
    ShortValue(Digits(s));
  }

  /**
   Every success is the value of the last min(2, |digits|) digits.
   */
  lemma LastAtMostTwoDigits(x: Suffix)
    requires Derive(x).Discount?
    ensures var d := Digits(Coerce(x));
      var k := if |d| < 2 then |d| else 2;
      d != [] && Derive(x).percent == Value(d[|d| - k..])
  {
    var d := Digits(Coerce(x));
    DeriveClosedForm(x);
    if |d| >= 2 {
      LastTwoDigitsValue(d);
    } else {
      assert d[|d| - |d|..] == d;
    }
  }

  /**
   Inserting characters that are not digits anywhere in the input leaves the
   result unchanged, except that the no-digits error echoes the longer string.
   Read backwards, removing them does the same.
   */
  lemma InsertNonDigits(a: string, w: string, b: string)
    requires NoDigits(w)
    ensures Digits(a + w + b) == Digits(a + b)
    ensures Derive(Text(a + b)).NoDigitsFound? ==> Derive(Text(a + w + b)) == NoDigitsFound(a + w + b)
    ensures !Derive(Text(a + b)).NoDigitsFound? ==> Derive(Text(a + w + b)) == Derive(Text(a + b))
  {
    var longer, shorter := a + w + b, a + b;
    assert Digits(longer) == Digits(shorter) by {
      DigitsConcat(a, w);
      DigitsConcat(a + w, b);
      DigitsConcat(a, b);
      DigitsEmptyIff(w);
    }
    DeriveClosedForm(Text(longer));
    DeriveClosedForm(Text(shorter));
  }

  /** The result depends on the input only through its ordered digits. */
  lemma SameDigitsSameResult(x: Suffix, y: Suffix)
    requires Digits(Coerce(x)) == Digits(Coerce(y))
    ensures Derive(x).Discount? <==> Derive(y).Discount?
    ensures Derive(x).Discount? ==> Derive(x) == Derive(y)
  {
  }

  /** The digits of `a + d + b` when only `d` holds digits. */
  lemma DigitsOnly(a: string, d: string, b: string)
    requires NoDigits(a) && AllDigits(d) && NoDigits(b)
    ensures Digits(a + d + b) == d
  {
    DigitsConcat(a + d, b);
    DigitsConcat(a, d);
    DigitsEmptyIff(a);
    DigitsEmptyIff(b);
    DigitsOfAllDigits(d);
  }

  lemma MixedDigits()
    ensures Digits("abc123xyz") == "123"
  {
    assert "abc123xyz" == "abc" + "123" + "xyz";
    DigitsOnly("abc", "123", "xyz");
  }

  /** `"abc123xyz"` has digits `"123"`; the last two give 23. */
  lemma ExampleMixed()
    ensures Derive(Text("abc123xyz")) == Discount(23)
  {
    var s := "abc123xyz";
    MixedDigits();
    var d := Digits(s);
    assert d[|d| - 2..] == "23";
    assert Value("23") == 23 by {
      assert "23"[..1] == "2";
    }
    ThreeOrMoreDigits(s);
  }

  /** `"4567"`: the last two digits give 67. */
  lemma ExampleFourDigits()
    ensures Derive(Text("4567")) == Discount(67)
  {
    var s := "4567";
    DigitsOfAllDigits(s);
    assert s[2..] == "67";
    assert Value("67") == 67 by {
      assert "67"[..1] == "6";
    }
    ThreeOrMoreDigits(s);
  }

  /** `"7"` is padded to `"007"`, which is 7. */
  lemma ExampleOneDigit()
    ensures Derive(Text("7")) == Discount(7)
  {
    DigitsOfAllDigits("7");
    OneOrTwoDigits("7");
  }

  /** `"99"` is padded to `"099"`, which is 99. */
  lemma ExampleTwoDigits()
    ensures Derive(Text("99")) == Discount(99)
  {
    DigitsOfAllDigits("99");
    OneOrTwoDigits("99");
    assert "99"[..1] == "9";
  }
}
