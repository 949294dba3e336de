/** The input guard of `MathController`: a path segment is numeric when,
    after every ',' is turned into '.', it matches the Java regular
    expression `[-+]?[0-9]*\.?[0-9]+` as a whole. `Pattern` states the
    language the expression denotes, part by part; `Recognise` is a
    character-by-character recogniser for it; the two are proved equal. */
module MathController {
  import opened Wrappers
  import opened JavaText

  // ----- The language of [-+]?[0-9]*\.?[0-9]+ -----

  /** `[0-9]+` */
  predicate Digits1(s: string) {
    |s| > 0 && AllDigits(s)
  }

  /** `\.?[0-9]+` */
  predicate FractionPart(s: string) {
    Digits1(s) || (|s| > 0 && s[0] == '.' && Digits1(s[1..]))
  }

  /** `[0-9]*\.?[0-9]+`: some split into a run of digits and a fraction part. */
  predicate Unsigned(s: string) {
    exists j | 0 <= j <= |s| :: AllDigits(s[..j]) && FractionPart(s[j..])
  }

  predicate IsSign(c: char) {
    c == '+' || c == '-'
  }

  /** `[-+]?[0-9]*\.?[0-9]+` */
  predicate Pattern(s: string) {
    Unsigned(s) || (|s| > 0 && IsSign(s[0]) && Unsigned(s[1..]))
  }

  // ----- A recogniser -----

  datatype State = Start | Signed | Whole | Point | Fraction | Reject

  function Step(q: State, c: char): State {
    match q
    case Start => if IsSign(c) then Signed else if IsDigit(c) then Whole else if c == '.' then Point else Reject
    case Signed => if IsDigit(c) then Whole else if c == '.' then Point else Reject
    case Whole => if IsDigit(c) then Whole else if c == '.' then Point else Reject
    case Point => if IsDigit(c) then Fraction else Reject
    case Fraction => if IsDigit(c) then Fraction else Reject
    case Reject => Reject
  }

  function Run(q: State, s: string): State
    decreases |s|
  {
    if s == [] then q else Run(Step(q, s[0]), s[1..])
  }

  predicate Accepting(q: State) {
    q == Whole || q == Fraction
  }

  predicate Recognise(s: string) {
    Accepting(Run(Start, s))
  }

  // ----- The recogniser accepts exactly the language -----

  lemma {:induction false} RejectStays(s: string)
    ensures Run(Reject, s) == Reject
    decreases |s|
  {
    if s != [] {
      RejectStays(s[1..]);
    }
  }

  lemma {:induction false} FractionAccepts(s: string)
    ensures Accepting(Run(Fraction, s)) <==> AllDigits(s)
    decreases |s|
  {
    if s != [] {
      if IsDigit(s[0]) {
        FractionAccepts(s[1..]);
        assert AllDigits(s) <==> AllDigits(s[1..]);
      } else {
        RejectStays(s[1..]);
      }
    }
  }

  lemma PointAccepts(s: string)
    ensures Accepting(Run(Point, s)) <==> Digits1(s)
  {
    if s != [] {
      if IsDigit(s[0]) {
        FractionAccepts(s[1..]);
        assert AllDigits(s) <==> AllDigits(s[1..]);
      } else {
        RejectStays(s[1..]);
      }
    }
  }

  /** A string starting with a digit is unsigned-numeric exactly when the
      rest is empty or is itself unsigned-numeric. */
  lemma UnsignedAfterDigit(s: string)
    requires |s| > 0 && IsDigit(s[0])
    ensures Unsigned(s) <==> s[1..] == [] || Unsigned(s[1..])
  {
    var t := s[1..];
    if Unsigned(s) {
      var j :| 0 <= j <= |s| && AllDigits(s[..j]) && FractionPart(s[j..]);
      if j == 0 {
        assert Digits1(s);
        if t != [] {
          assert AllDigits(t[..0]) && t[0..] == t && FractionPart(t);
        }
      } else {
        assert t[..j - 1] == s[1..j] && t[j - 1..] == s[j..];
        assert AllDigits(t[..j - 1]) && FractionPart(t[j - 1..]);
      }
    }
    if t == [] {
      assert s == [s[0]] && s[..0] == [] && s[0..] == s;
      assert AllDigits(s[..0]) && FractionPart(s[0..]);
    } else if Unsigned(t) {
      var j :| 0 <= j <= |t| && AllDigits(t[..j]) && FractionPart(t[j..]);
      assert s[..j + 1] == [s[0]] + t[..j] && s[j + 1..] == t[j..];
      assert AllDigits(s[..j + 1]) && FractionPart(s[j + 1..]);
    }
  }

  /** A string starting with '.' is unsigned-numeric exactly when the rest is
      a non-empty run of digits. */
  lemma UnsignedAfterPoint(s: string)
    requires |s| > 0 && s[0] == '.'
    ensures Unsigned(s) <==> Digits1(s[1..])
  {
    if Unsigned(s) {
      var j :| 0 <= j <= |s| && AllDigits(s[..j]) && FractionPart(s[j..]);
      assert j == 0;
      assert s[j..] == s;
    }
    if Digits1(s[1..]) {
      assert s[..0] == [] && s[0..] == s;
      assert AllDigits(s[..0]) && FractionPart(s[0..]);
    }
  }

  /** A string starting with anything but a digit or '.' is not
      unsigned-numeric; nor is the empty string. */
  lemma UnsignedHead(s: string)
    requires Unsigned(s)
    ensures |s| > 0 && (IsDigit(s[0]) || s[0] == '.')
  {
    var j :| 0 <= j <= |s| && AllDigits(s[..j]) && FractionPart(s[j..]);
    if j > 0 {
      assert s[..j][0] == s[0];
    } else {
      assert s[j..] == s;
    }
  }

  lemma {:induction false} WholeAccepts(s: string)
    ensures Accepting(Run(Whole, s)) <==> s == [] || Unsigned(s)
    decreases |s|
  {
    if s != [] {
      if IsDigit(s[0]) {
        WholeAccepts(s[1..]);
        UnsignedAfterDigit(s);
      } else if s[0] == '.' {
        PointAccepts(s[1..]);
        UnsignedAfterPoint(s);
      } else {
        RejectStays(s[1..]);
        if Unsigned(s) {
          UnsignedHead(s);
        }
      }
    }
  }

  lemma SignedAccepts(s: string)
    ensures Accepting(Run(Signed, s)) <==> Unsigned(s)
  {
    if s == [] {
      if Unsigned(s) {
        UnsignedHead(s);
      }
    } else if IsDigit(s[0]) {
      WholeAccepts(s[1..]);
      UnsignedAfterDigit(s);
    } else if s[0] == '.' {
      PointAccepts(s[1..]);
      UnsignedAfterPoint(s);
    } else {
      RejectStays(s[1..]);
      if Unsigned(s) {
        UnsignedHead(s);
      }
    }
  }

  /** The recogniser accepts exactly the strings the expression matches. */
  lemma RecogniseIsPattern(s: string)
    ensures Recognise(s) <==> Pattern(s)
  {
    if s == [] {
      if Unsigned(s) {
        UnsignedHead(s);
      }
    } else if IsSign(s[0]) {
      SignedAccepts(s[1..]);
      if Unsigned(s) {
        UnsignedHead(s);
      }
    } else {
      assert Step(Start, s[0]) == Step(Signed, s[0]);
      SignedAccepts(s);
    }
  }

  // ----- isNumeric -----

  /** `replaceAll(",", ".")`: the same string with every ',' turned into '.'. */
  function Normalize(s: string): (r: string)
    ensures |r| == |s|
    ensures forall i | 0 <= i < |s| :: r[i] == (if s[i] == ',' then '.' else s[i])
  {
    if s == [] then [] else [if s[0] == ',' then '.' else s[0]] + Normalize(s[1..])
  }

  /** `isNumeric(s)`: false on null; otherwise the normalised string
      matches the expression. */
  function IsNumeric(s: Option<string>): (r: bool)
    ensures r <==> s.Some? && Pattern(Normalize(s.value))
  {
    match s
    case None => false
    case Some(v) =>
      RecogniseIsPattern(Normalize(v));
      Recognise(Normalize(v))
  }

  lemma NormalizeIdempotent(s: string)
    ensures Normalize(Normalize(s)) == Normalize(s)
    ensures IsNumeric(Some(Normalize(s))) == IsNumeric(Some(s))
  {
  }

  /** Every accepted string is non-empty and ends with a digit. */
  lemma AcceptedEndsWithDigit(s: string)
    requires IsNumeric(Some(s))
    ensures |s| > 0 && IsDigit(s[|s| - 1])
  {
    var t := Normalize(s);
    UnsignedTail(t);
    if |t| > 0 && IsSign(t[0]) && Unsigned(t[1..]) {
      UnsignedTail(t[1..]);
      assert t[1..][|t| - 2] == t[|t| - 1];
    }
  }

  lemma UnsignedTail(s: string)
    ensures Unsigned(s) ==> |s| > 0 && IsDigit(s[|s| - 1])
  {
    if Unsigned(s) {
      var j :| 0 <= j <= |s| && AllDigits(s[..j]) && FractionPart(s[j..]);
      var f := s[j..];
      assert f[|f| - 1] == s[|s| - 1];
      if !Digits1(f) {
        assert f[1..][|f| - 2] == f[|f| - 1];
      }
    }
  }

  predicate IsSeparator(c: char) {
    c == '.' || c == ','
  }

  lemma {:induction false} PointRejectsPoint(q: State, s: string, i: int)
    requires q == Point || q == Fraction || q == Reject
    requires 0 <= i < |s| && s[i] == '.'
    ensures Run(q, s) == Reject
    decreases |s|
  {
    var q' := Step(q, s[0]);
    if i == 0 {
      RejectStays(s[1..]);
    } else {
      PointRejectsPoint(q', s[1..], i - 1);
    }
  }

  lemma {:induction false} TwoPointsReject(q: State, s: string, i: int, j: int)
    requires 0 <= i < j < |s| && s[i] == '.' && s[j] == '.'
    ensures Run(q, s) == Reject
    decreases |s|
  {
    var q' := Step(q, s[0]);
    if i == 0 {
      assert q' == Point || q' == Reject;
      PointRejectsPoint(q', s[1..], j - 1);
    } else {
      TwoPointsReject(q', s[1..], i - 1, j - 1);
    }
  }

  /** Two separators, be they '.' or ',', make the input non-numeric. */
  lemma TwoSeparatorsRejected(s: string, i: int, j: int)
    requires 0 <= i < j < |s| && IsSeparator(s[i]) && IsSeparator(s[j])
    ensures !IsNumeric(Some(s))
  {
    TwoPointsReject(Start, Normalize(s), i, j);
    RecogniseIsPattern(Normalize(s));
  }

  /** The empty string, "1." and "-" are rejected, as is null. */
  lemma RejectedExamples()
    ensures !IsNumeric(None)
    ensures !IsNumeric(Some("")) && !IsNumeric(Some("1.")) && !IsNumeric(Some("-"))
  {
    assert Normalize("") == "";
    assert Normalize("1.") == "1.";
    assert Normalize("-") == "-";
    assert !Recognise("") && !Recognise("1.") && !Recognise("-");
  }

  /** ".5" and "+0,75" are accepted. */
  lemma AcceptedExamples()
    ensures IsNumeric(Some(".5")) && IsNumeric(Some("+0,75"))
  {
    assert Normalize(".5") == ".5";
    assert Normalize("+0,75") == "+0.75";
    assert Recognise(".5") && Recognise("+0.75");
  }

  /** "1,2,3" and "1.2,3" carry two separators and are rejected. */
  lemma SeparatorExamples()
    ensures !IsNumeric(Some("1,2,3")) && !IsNumeric(Some("1.2,3"))
  {
    TwoSeparatorsRejected("1,2,3", 1, 3);
    TwoSeparatorsRejected("1.2,3", 1, 3);
  }

  /** The check at the top of `sum`: either argument failing `isNumeric`
      makes it throw before anything is converted. When both pass, it goes on
      to parse the normalised strings, each of which matches the expression. */
  datatype SumCheck = Rejected | Proceed(first: string, second: string)

  function SumGuard(firstNumber: Option<string>, secondNumber: Option<string>): (r: SumCheck)
    ensures r.Rejected? <==> !IsNumeric(firstNumber) || !IsNumeric(secondNumber)
    ensures r.Proceed? ==> Pattern(r.first) && Pattern(r.second)
    ensures r.Proceed? ==>
      && firstNumber.Some? && secondNumber.Some?
      && r.first == Normalize(firstNumber.value) && r.second == Normalize(secondNumber.value)
  {
    if !IsNumeric(firstNumber) || !IsNumeric(secondNumber) then Rejected
    else Proceed(ConvertInput(firstNumber).value, ConvertInput(secondNumber).value)
  }

  /** What `convertToDouble` hands to `Double.parseDouble`: the normalised
      string when it is numeric, nothing (the method returns 0) otherwise. */
  function ConvertInput(strNumber: Option<string>): (r: Option<string>)
    ensures r.Some? <==> IsNumeric(strNumber)
    ensures r.Some? ==> r.value == Normalize(strNumber.value) && Pattern(r.value)
  {
    match strNumber
    case None => None
    case Some(v) =>
      var number := Normalize(v);
      NormalizeIdempotent(v);
      if IsNumeric(Some(number)) then Some(number) else None
  }
}
