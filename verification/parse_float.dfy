/** The decimal and scientific number scanner of parse_float.c.

    parse_float walks the characters of a NUL-terminated string once, in one
    of three modes: before the decimal point, after it, and in the exponent
    (entered on 'e' or 'E', which is only recognised after a point). It keeps
    a sign flag, the mantissa digits as one integer, a precision divisor that
    gains a factor of ten per fraction digit, an exponent sign flag and the
    exponent digits as one integer. Any character the mode does not accept
    trips the digit assertion, which aborts the program.

    The accumulators are exact naturals here and the result an exact real,
    so the float rounding of the original is not modelled. */
module ParseFloat {
  import opened Optional

  datatype Mode = BeforeDec | AfterDec | Exponent

  type Pos = n: nat | 0 < n witness 1

  /** The loop's variables: mode, neg, exp_neg, res, prec and exp. */
  datatype Scan = Scan(mode: Mode, neg: bool, expNeg: bool, res: nat, prec: Pos, exp: nat)

  /** The initial values: no sign, mantissa 0, precision 1, exponent 0. */
  const Start: Scan := Scan(BeforeDec, false, false, 0, 1, 0)

  predicate IsDigit(c: char) {
    '0' <= c <= '9'
  }

  /** c - ASCII_ZERO for a digit. */
  function DigitValue(c: char): (d: nat)
    requires IsDigit(c)
    ensures d < 10
  {
    c as int - '0' as int
  }

  /** One pass of the loop body on character c. first tells whether c is the
      first character of the string and prev is the character before it
      (read only in the exponent). None is a failed digit assertion. */
  function Step(st: Scan, c: char, first: bool, prev: char): Option<Scan> {
    match st.mode
    case BeforeDec =>
      if c == '.' then Some(st.(mode := AfterDec))
      else if first && c == '-' then Some(st.(neg := true))
      else if IsDigit(c) then Some(st.(res := st.res * 10 + DigitValue(c)))
      else None
    case AfterDec =>
      if c == 'e' || c == 'E' then Some(st.(mode := Exponent))
      else if IsDigit(c) then Some(st.(res := st.res * 10 + DigitValue(c), prec := st.prec * 10))
      else None
    case Exponent =>
      if (prev == 'e' || prev == 'E') && c == '-' then Some(st.(expNeg := true))
      else if IsDigit(c) then Some(st.(exp := st.exp * 10 + DigitValue(c)))
      else None
  }

  /** The scan of a whole string, or the index of the character whose digit
      assertion fails. */
  datatype Parse = Ok(st: Scan) | Fail(at: nat)

  /** The loop run over every character of s (s holds no terminator). */
  function Run(s: string): (p: Parse)
    ensures p.Fail? ==> p.at < |s|
    decreases |s|
  {
    if s == [] then Ok(Start)
    else
      var n := |s| - 1;
      match Run(s[..n])
      case Fail(at) => Fail(at)
      case Ok(st) =>
        match Step(st, s[n], n == 0, if n == 0 then '\0' else s[n - 1])
        case None => Fail(n)
        case Some(st') => Ok(st')
  }

  /** exp10 on a natural exponent. */
  function Pow10(n: nat): Pos {
    if n == 0 then 1 else 10 * Pow10(n - 1)
  }

  /** The arithmetic after the loop, done exactly: the sign, the division by
      prec and the scaling by ten to the (signed) exponent. */
  function Value(st: Scan): real {
    var m := if st.neg then -(st.res as real) else st.res as real;
    Scale(m / (st.prec as real), st.expNeg, st.exp)
  }

  /** v times ten to the power k, or divided by it when neg. */
  function Scale(v: real, neg: bool, k: nat): real {
    if neg then v / (Pow10(k) as real) else v * (Pow10(k) as real)
  }

  /** What a call does: return a value, or abort on the assertion. */
  datatype Result = Returns(value: real) | Aborts(at: nat)

  /** The length of the string proper, up to its terminating NUL. */
  function Len(s: string): (n: nat)
    ensures n <= |s|
    ensures forall k :: 0 <= k < n ==> s[k] != '\0'
    ensures n < |s| ==> s[n] == '\0'
    decreases |s|
  {
    if s == [] || s[0] == '\0' then 0 else 1 + Len(s[1..])
  }

  /** parse_float on the characters of str before its first NUL. */
  function Outcome(str: string): Result {
    match Run(str[..Len(str)])
    case Ok(st) => Returns(Value(st))
    case Fail(at) => Aborts(at)
  }

  lemma RunStep(s: string, i: nat)
    requires i < |s|
    ensures Run(s[..i + 1]) ==
      match Run(s[..i])
      case Fail(at) => Fail(at)
      case Ok(st) =>
        match Step(st, s[i], i == 0, if i == 0 then '\0' else s[i - 1])
        case None => Fail(i)
        case Some(st') => Ok(st')
  {
    assert s[..i + 1][..i] == s[..i];
  }

  /** The loop goes on exactly while it is before the terminator. */
  lemma LenStep(str: string, i: nat)
    requires i <= Len(str) && i < |str| && str[i] != '\0'
    ensures i < Len(str)
  {
  }

  /** A failure on the first i + 1 characters is the outcome. */
  lemma AbortAt(str: string, i: nat)
    requires i < Len(str) && Run(str[..i + 1]) == Fail(i)
    ensures Outcome(str) == Aborts(i)
  {
    Prefixes(str, Len(str), i);
    FailPersists(str[..Len(str)], i + 1);
  }

  /** Once a prefix fails, every longer string fails at the same character. */
  lemma {:induction false} FailPersists(s: string, k: nat)
    requires k <= |s| && Run(s[..k]).Fail?
    ensures Run(s) == Run(s[..k])
    decreases |s| - k
  {
    if k < |s| {
      RunStep(s, k);
      FailPersists(s, k + 1);
    } else {
      assert s[..k] == s;
    }
  }

  /** parse_float: the loop over the characters up to the terminator,
      followed by the final arithmetic. */
  method ParseFloatStr(str: string) returns (r: Result)
    ensures r == Outcome(str)
  {
    var neg, expNeg := false, false;
    var res: nat, exp: nat := 0, 0;
    var prec: Pos := 1;
    var mode := BeforeDec;
    var i := 0;
    while i < |str| && str[i] != '\0'
      invariant i <= Len(str)
      invariant Run(str[..i]) == Ok(Scan(mode, neg, expNeg, res, prec, exp))
      decreases |str| - i
    {
      var c := str[i];
      LenStep(str, i);
      ghost var next := Step(Scan(mode, neg, expNeg, res, prec, exp), c, i == 0, if i == 0 then '\0' else str[i - 1]);
      RunStep(str, i);
      assert Run(str[..i + 1]) == if next.None? then Fail(i) else Ok(next.value);
      if IsDigit(c) {
        StepDigit(Scan(mode, neg, expNeg, res, prec, exp), c, i == 0, if i == 0 then '\0' else str[i - 1]);
      }
      match mode {
        case BeforeDec =>
          if c == '.' {
            mode := AfterDec;
          } else if i == 0 && c == '-' {
            neg := true;
          } else if IsDigit(c) {
            res := res * 10 + (c as int - '0' as int);
          } else {
            AbortAt(str, i);
            return Aborts(i);
          }
        case AfterDec =>
          if c == 'e' || c == 'E' {
            mode := Exponent;
          } else if IsDigit(c) {
            res := res * 10 + (c as int - '0' as int);
            prec := prec * 10;
          } else {
            AbortAt(str, i);
            return Aborts(i);
          }
        case Exponent =>
          var prev := if i == 0 then '\0' else str[i - 1];
          if (prev == 'e' || prev == 'E') && c == '-' {
            expNeg := true;
          } else if IsDigit(c) {
            exp := exp * 10 + (c as int - '0' as int);
          } else {
            AbortAt(str, i);
            return Aborts(i);
          }
      }
      i := i + 1;
    }
    assert str[..Len(str)] == str[..i];
    var v: real := res as real;
    if neg {
      v := v * -1.0;
    }
    v := v / (prec as real);
    if expNeg {
      v := v / (Pow10(exp) as real);
    } else {
      v := v * (Pow10(exp) as real);
    }
    r := Returns(v);
  }

  // ---------------------------------------------------------------------
  // The reference: the literals the scanner accepts and what they denote.

  predicate Digits(s: string) {
    forall i :: 0 <= i < |s| ==> IsDigit(s[i])
  }

  /** The number a digit string spells in decimal. */
  function Number(s: string): nat
    requires Digits(s)
    decreases |s|
  {
    if s == [] then 0 else Number(s[..|s| - 1]) * 10 + DigitValue(s[|s| - 1])
  }

  /** 'e' or 'E', an optional minus sign and the exponent digits. */
  datatype Exp = Exp(marker: char, neg: bool, digits: string)

  /** The decimal point, the fraction digits and an optional exponent. */
  datatype Frac = Frac(digits: string, exp: Option<Exp>)

  /** An optional minus sign, the integer digits and an optional fraction.
      Every part may be empty: "", "-", "." and "1.e-" are literals too. */
  datatype Literal = Literal(neg: bool, whole: string, frac: Option<Frac>)

  const Empty: Literal := Literal(false, [], None)

  predicate WellFormed(lit: Literal) {
    Digits(lit.whole) &&
    match lit.frac
    case None => true
    case Some(f) =>
      Digits(f.digits) &&
      match f.exp
      case None => true
      case Some(e) => (e.marker == 'e' || e.marker == 'E') && Digits(e.digits)
  }

  function Render(lit: Literal): string {
    (if lit.neg then "-" else "") + lit.whole + (if lit.frac.None? then "" else RenderFrac(lit.frac.value))
  }

  function RenderFrac(f: Frac): string {
    "." + f.digits + (if f.exp.None? then "" else RenderExp(f.exp.value))
  }

  function RenderExp(e: Exp): string {
    [e.marker] + (if e.neg then "-" else "") + e.digits
  }

  function FracDigits(lit: Literal): string {
    if lit.frac.None? then [] else lit.frac.value.digits
  }

  function ExpOf(lit: Literal): Option<Exp> {
    if lit.frac.None? then None else lit.frac.value.exp
  }

  /** The decimal meaning of a literal: sign times (integer part plus
      fraction digits over ten to their count), times or over ten to the
      exponent. Empty digit strings count as 0. */
  function LitValue(lit: Literal): real
    requires WellFormed(lit)
  {
    var fd := FracDigits(lit);
    var mag := Number(lit.whole) as real + Number(fd) as real / Pow10(|fd|) as real;
    var signed := if lit.neg then -mag else mag;
    match ExpOf(lit)
    case None => signed
    case Some(e) => Scale(signed, e.neg, Number(e.digits))
  }

  /** The scanner's variables after reading exactly Render(lit). */
  function StateOf(lit: Literal): Scan
    requires WellFormed(lit)
  {
    var fd := FracDigits(lit);
    Scan(if lit.frac.None? then BeforeDec else if ExpOf(lit).None? then AfterDec else Exponent,
         lit.neg,
         ExpOf(lit).Some? && ExpOf(lit).value.neg,
         Number(lit.whole + fd),
         Pow10(|fd|),
         if ExpOf(lit).None? then 0 else Number(ExpOf(lit).value.digits))
  }

  /** The grammar, one character at a time: the literal that c extends lit
      to, if any. A minus sign starts a literal or follows the exponent
      marker; a point ends the integer part; a marker ends the fraction. */
  function Grow(lit: Literal, c: char): Option<Literal> {
    match lit.frac
    case None =>
      if c == '.' then Some(lit.(frac := Some(Frac([], None))))
      else if c == '-' && !lit.neg && lit.whole == [] then Some(lit.(neg := true))
      else if IsDigit(c) then Some(lit.(whole := lit.whole + [c]))
      else None
    case Some(f) =>
      match f.exp
      case None =>
        if c == 'e' || c == 'E' then Some(lit.(frac := Some(f.(exp := Some(Exp(c, false, []))))))
        else if IsDigit(c) then Some(lit.(frac := Some(f.(digits := f.digits + [c]))))
        else None
      case Some(e) =>
        if c == '-' && !e.neg && e.digits == [] then Some(lit.(frac := Some(f.(exp := Some(e.(neg := true))))))
        else if IsDigit(c) then Some(lit.(frac := Some(f.(exp := Some(e.(digits := e.digits + [c]))))))
        else None
  }

  /** The literal read from s, character by character, if s is one. */
  function Parsed(s: string): Option<Literal>
    decreases |s|
  {
    if s == [] then Some(Empty)
    else
      match Parsed(s[..|s| - 1])
      case None => None
      case Some(lit) => Grow(lit, s[|s| - 1])
  }

  function LastChar(s: string): char {
    if s == [] then '\0' else s[|s| - 1]
  }

  lemma NumberSnoc(s: string, c: char)
    requires Digits(s) && IsDigit(c)
    ensures Digits(s + [c]) && Number(s + [c]) == Number(s) * 10 + DigitValue(c)
  {
    assert (s + [c])[..|s|] == s;
  }

  /** A grown literal renders as the old one plus c and is well formed. */
  lemma GrowRender(lit: Literal, c: char)
    requires WellFormed(lit) && Grow(lit, c).Some?
    ensures WellFormed(Grow(lit, c).value)
    ensures Render(Grow(lit, c).value) == Render(lit) + [c]
  {
    var l' := Grow(lit, c).value;
    if lit.frac.None? {
      GrowWhole(lit, c);
    } else {
      var f, f' := lit.frac.value, l'.frac.value;
      if f.exp.None? {
        GrowFrac(f, c);
      } else {
        var e, e' := f.exp.value, f'.exp.value;
        GrowExp(e, c);
        assert f'.digits == f.digits;
        Extend("." + f.digits, RenderExp(e), RenderExp(e'), c);
      }
      Extend((if lit.neg then "-" else "") + lit.whole, RenderFrac(f), RenderFrac(f'), c);
    }
  }

  /** Appending to the last part of a concatenation. */
  lemma Extend(a: string, x: string, y: string, c: char)
    requires y == x + [c]
    ensures a + y == (a + x) + [c]
  {
  }

  lemma GrowWhole(lit: Literal, c: char)
    requires WellFormed(lit) && lit.frac.None? && Grow(lit, c).Some?
    ensures WellFormed(Grow(lit, c).value)
    ensures Render(Grow(lit, c).value) == Render(lit) + [c]
  {
    var sign := if lit.neg then "-" else "";
    var lead := sign + lit.whole;
    assert Render(lit) == lead + "";
    if c == '.' {
      assert Render(Grow(lit, c).value) == lead + ("." + [] + "");
    } else if c == '-' && !lit.neg && lit.whole == [] {
      assert Render(Grow(lit, c).value) == "-" + [] + "";
    } else {
      Extend(sign, lit.whole, lit.whole + [c], c);
      assert Render(Grow(lit, c).value) == sign + (lit.whole + [c]) + "";
    }
  }

  lemma GrowFrac(f: Frac, c: char)
    requires Digits(f.digits) && f.exp.None?
    requires c == 'e' || c == 'E' || IsDigit(c)
    ensures c == 'e' || c == 'E' ==> RenderFrac(f.(exp := Some(Exp(c, false, [])))) == RenderFrac(f) + [c]
    ensures IsDigit(c) ==> Digits(f.digits + [c]) && RenderFrac(f.(digits := f.digits + [c])) == RenderFrac(f) + [c]
  {
    assert RenderFrac(f) == "." + f.digits + "";
    if IsDigit(c) {
      Extend(".", f.digits, f.digits + [c], c);
      assert RenderFrac(f.(digits := f.digits + [c])) == "." + (f.digits + [c]) + "";
    } else {
      assert RenderExp(Exp(c, false, [])) == [c];
    }
  }

  lemma GrowExp(e: Exp, c: char)
    requires Digits(e.digits)
    requires (c == '-' && !e.neg && e.digits == []) || IsDigit(c)
    ensures c == '-' && !e.neg && e.digits == [] ==> RenderExp(e.(neg := true)) == RenderExp(e) + [c]
    ensures IsDigit(c) ==> Digits(e.digits + [c]) && RenderExp(e.(digits := e.digits + [c])) == RenderExp(e) + [c]
  {
    if IsDigit(c) {
      Extend([e.marker] + (if e.neg then "-" else ""), e.digits, e.digits + [c], c);
    }
  }

  /** The loop body on the scanner state of a literal, with first and prev
      read off its rendering, agrees with the grammar: it fails exactly when
      c extends no literal, and otherwise reaches the extended literal's state. */
  lemma StepGrow(lit: Literal, c: char)
    requires WellFormed(lit)
    ensures Grow(lit, c).None? ==> Step(StateOf(lit), c, Render(lit) == [], LastChar(Render(lit))) == None
    ensures Grow(lit, c).Some? ==>
      WellFormed(Grow(lit, c).value) &&
      Step(StateOf(lit), c, Render(lit) == [], LastChar(Render(lit))) == Some(StateOf(Grow(lit, c).value))
  {
    if lit.frac.None? {
      StepWhole(lit, c);
    } else if lit.frac.value.exp.None? {
      StepFrac(lit, c);
    } else {
      StepExp(lit, c);
    }
  }

  lemma StepWhole(lit: Literal, c: char)
    requires WellFormed(lit) && lit.frac.None?
    ensures Grow(lit, c).None? ==> Step(StateOf(lit), c, Render(lit) == [], LastChar(Render(lit))) == None
    ensures Grow(lit, c).Some? ==>
      WellFormed(Grow(lit, c).value) &&
      Step(StateOf(lit), c, Render(lit) == [], LastChar(Render(lit))) == Some(StateOf(Grow(lit, c).value))
  {
    var st := StateOf(lit);
    var first := Render(lit) == [];
    var prev := LastChar(Render(lit));
    assert first <==> !lit.neg && lit.whole == [] by {
      assert Render(lit) == (if lit.neg then "-" else "") + lit.whole + "";
    }
    assert lit.whole + [] == lit.whole;
    assert st.mode == BeforeDec && st.res == Number(lit.whole) && st.prec == 1;
    if c == '.' {
      var l' := lit.(frac := Some(Frac([], None)));
      assert Grow(lit, c) == Some(l');
      assert StateOf(l') == st.(mode := AfterDec);
      assert Step(st, c, first, prev) == Some(st.(mode := AfterDec));
    } else if first && c == '-' {
      var l' := lit.(neg := true);
      assert Grow(lit, c) == Some(l');
      assert StateOf(l') == st.(neg := true);
      assert Step(st, c, first, prev) == Some(st.(neg := true));
    } else if IsDigit(c) {
      WholeDigit(lit, c);
      StepDigit(st, c, first, prev);
    } else {
      assert Grow(lit, c) == None;
      assert Step(st, c, first, prev) == None;
    }
  }

  lemma StepFrac(lit: Literal, c: char)
    requires WellFormed(lit) && lit.frac.Some? && lit.frac.value.exp.None?
    ensures Grow(lit, c).None? ==> Step(StateOf(lit), c, Render(lit) == [], LastChar(Render(lit))) == None
    ensures Grow(lit, c).Some? ==>
      WellFormed(Grow(lit, c).value) &&
      Step(StateOf(lit), c, Render(lit) == [], LastChar(Render(lit))) == Some(StateOf(Grow(lit, c).value))
  {
    var f := lit.frac.value;
    var st := StateOf(lit);
    var first, prev := Render(lit) == [], LastChar(Render(lit));
    assert st.mode == AfterDec && st.res == Number(lit.whole + f.digits) && st.prec == Pow10(|f.digits|);
    if c == 'e' || c == 'E' {
      var l' := lit.(frac := Some(f.(exp := Some(Exp(c, false, [])))));
      assert Grow(lit, c) == Some(l');
      assert StateOf(l') == st.(mode := Exponent);
      assert Step(st, c, first, prev) == Some(st.(mode := Exponent));
    } else if IsDigit(c) {
      FracDigit(lit, c);
      StepDigit(st, c, first, prev);
    } else {
      assert Grow(lit, c) == None;
      assert Step(st, c, first, prev) == None;
    }
  }

  lemma StepExp(lit: Literal, c: char)
    requires WellFormed(lit) && lit.frac.Some? && lit.frac.value.exp.Some?
    ensures Grow(lit, c).None? ==> Step(StateOf(lit), c, Render(lit) == [], LastChar(Render(lit))) == None
    ensures Grow(lit, c).Some? ==>
      WellFormed(Grow(lit, c).value) &&
      Step(StateOf(lit), c, Render(lit) == [], LastChar(Render(lit))) == Some(StateOf(Grow(lit, c).value))
  {
    var e := lit.frac.value.exp.value;
    var st := StateOf(lit);
    var prev := LastChar(Render(lit));
    ExpPrev(lit);
    assert st.mode == Exponent;
    if c == '-' && !e.neg && e.digits == [] {
      ExpMinus(lit);
      assert Step(st, c, false, prev) == Some(st.(expNeg := true));
    } else if IsDigit(c) {
      ExpDigit(lit, c);
      StepDigit(st, c, false, prev);
    } else {
      assert Grow(lit, c) == None;
      assert Step(st, c, false, prev) == None;
    }
  }

  /** A digit is accumulated in every mode. */
  lemma StepDigit(st: Scan, c: char, first: bool, prev: char)
    requires IsDigit(c)
    ensures Step(st, c, first, prev) == Some(
      match st.mode
      case BeforeDec => st.(res := st.res * 10 + DigitValue(c))
      case AfterDec => st.(res := st.res * 10 + DigitValue(c), prec := st.prec * 10)
      case Exponent => st.(exp := st.exp * 10 + DigitValue(c)))
  {
  }

  /** In the exponent, the previous character is the marker exactly when
      neither a sign nor a digit followed it yet. */
  lemma ExpPrev(lit: Literal)
    requires WellFormed(lit) && lit.frac.Some? && lit.frac.value.exp.Some?
    ensures Render(lit) != []
    ensures var e := lit.frac.value.exp.value;
      (LastChar(Render(lit)) == 'e' || LastChar(Render(lit)) == 'E') <==> !e.neg && e.digits == []
  {
    var f := lit.frac.value;
    var e := f.exp.value;
    assert Render(lit) == (if lit.neg then "-" else "") + lit.whole + ("." + f.digits + RenderExp(e));
    assert LastChar(Render(lit)) == LastChar(RenderExp(e));
  }

  lemma ExpMinus(lit: Literal)
    requires WellFormed(lit) && lit.frac.Some? && lit.frac.value.exp.Some?
    requires !lit.frac.value.exp.value.neg && lit.frac.value.exp.value.digits == []
    ensures Grow(lit, '-').Some? && WellFormed(Grow(lit, '-').value)
    ensures StateOf(Grow(lit, '-').value) == StateOf(lit).(expNeg := true)
  {
    var f := lit.frac.value;
    var e := f.exp.value;
    assert Grow(lit, '-') == Some(lit.(frac := Some(f.(exp := Some(e.(neg := true))))));
  }

  /** A digit in each mode: the grown literal's state is the old state
      with the digit shifted into res (and prec scaled) or into exp. */
  lemma WholeDigit(lit: Literal, c: char)
    requires WellFormed(lit) && lit.frac.None? && IsDigit(c)
    ensures Grow(lit, c).Some? && WellFormed(Grow(lit, c).value)
    ensures StateOf(Grow(lit, c).value) == StateOf(lit).(res := StateOf(lit).res * 10 + DigitValue(c))
  {
    var l' := lit.(whole := lit.whole + [c]);
    assert Grow(lit, c) == Some(l');
    NumberSnoc(lit.whole, c);
    assert lit.whole + [] == lit.whole && l'.whole + [] == l'.whole;
  }

  lemma FracDigit(lit: Literal, c: char)
    requires WellFormed(lit) && lit.frac.Some? && lit.frac.value.exp.None? && IsDigit(c)
    ensures Grow(lit, c).Some? && WellFormed(Grow(lit, c).value)
    ensures StateOf(Grow(lit, c).value) ==
      StateOf(lit).(res := StateOf(lit).res * 10 + DigitValue(c), prec := StateOf(lit).prec * 10)
  {
    var f := lit.frac.value;
    var l' := lit.(frac := Some(f.(digits := f.digits + [c])));
    assert Grow(lit, c) == Some(l');
    NumberSnoc(lit.whole + f.digits, c);
    assert lit.whole + (f.digits + [c]) == (lit.whole + f.digits) + [c];
  }

  lemma ExpDigit(lit: Literal, c: char)
    requires WellFormed(lit) && lit.frac.Some? && lit.frac.value.exp.Some? && IsDigit(c)
    ensures Grow(lit, c).Some? && WellFormed(Grow(lit, c).value)
    ensures StateOf(Grow(lit, c).value) == StateOf(lit).(exp := StateOf(lit).exp * 10 + DigitValue(c))
  {
    var e := lit.frac.value.exp.value;
    assert Grow(lit, c) == Some(lit.(frac := Some(lit.frac.value.(exp := Some(e.(digits := e.digits + [c]))))));
    NumberSnoc(e.digits, c);
  }

  /** The scanner run over s succeeds exactly when s is a literal, and then
      holds that literal's state. */
  lemma {:induction false} RunParsed(s: string)
    ensures Run(s).Ok? <==> Parsed(s).Some?
    ensures Parsed(s).Some? ==>
      WellFormed(Parsed(s).value) && Render(Parsed(s).value) == s && Run(s).st == StateOf(Parsed(s).value)
    decreases |s|
  {
    if s != [] {
      RunParsed(s[..|s| - 1]);
      RunParsedStep(s);
    }
  }

  /** The scanner and the grammar agree on s. */
  ghost predicate Sync(s: string) {
    (Run(s).Ok? <==> Parsed(s).Some?) &&
    (Parsed(s).Some? ==>
      WellFormed(Parsed(s).value) && Render(Parsed(s).value) == s && Run(s).st == StateOf(Parsed(s).value))
  }

  /** One more character: agreement on s without its last character carries over to s. */
  lemma RunParsedStep(s: string)
    requires s != [] && Sync(s[..|s| - 1])
    ensures Sync(s)
  {
    var n := |s| - 1;
    if Parsed(s[..n]).Some? {
      var lit := Parsed(s[..n]).value;
      SyncState(s, lit);
      SyncRender(s, lit);
    } else {
      SyncFail(s);
    }
  }

  lemma SyncFail(s: string)
    requires s != [] && Parsed(s[..|s| - 1]).None? && Run(s[..|s| - 1]).Fail?
    ensures Parsed(s).None? && Run(s).Fail?
  {
  }

  /** The scanner's step and the grammar's step on the last character. */
  lemma SyncState(s: string, lit: Literal)
    requires s != [] && WellFormed(lit) && Render(lit) == s[..|s| - 1]
    requires Parsed(s[..|s| - 1]) == Some(lit) && Run(s[..|s| - 1]) == Ok(StateOf(lit))
    ensures Run(s).Ok? <==> Parsed(s).Some?
    ensures Parsed(s).Some? ==> WellFormed(Parsed(s).value) && Run(s).st == StateOf(Parsed(s).value)
    ensures Parsed(s) == Grow(lit, s[|s| - 1])
  {
    var n := |s| - 1;
    Before(Render(lit), s);
    assert Parsed(s) == Grow(lit, s[n]);
    StepGrow(lit, s[n]);
  }

  /** What the loop sees before the last character of s: whether it is the
      first one, and the character before it. */
  lemma Before(a: string, s: string)
    requires s != [] && a == s[..|s| - 1]
    ensures (|s| - 1 == 0) == (a == [])
    ensures (if |s| - 1 == 0 then '\0' else s[|s| - 2]) == LastChar(a)
  {
  }

  /** The grown literal renders as s. */
  lemma SyncRender(s: string, lit: Literal)
    requires s != [] && WellFormed(lit)
    requires Parsed(s[..|s| - 1]) == Some(lit) && Render(lit) == s[..|s| - 1]
    ensures Parsed(s).Some? ==> Render(Parsed(s).value) == s
  {
    var n := |s| - 1;
    assert Parsed(s) == Grow(lit, s[n]);
    if Grow(lit, s[n]).Some? {
      GrowRender(lit, s[n]);
      Snoc(Render(lit), s);
    }
  }

  lemma Snoc(a: string, s: string)
    requires s != [] && a == s[..|s| - 1]
    ensures a + [s[|s| - 1]] == s
  {
    assert a + [s[|s| - 1]] == s[..|s| - 1] + s[|s| - 1..];
  }

  /** The literal with the last character of its rendering removed. */
  function Truncate(lit: Literal): Literal
    requires Render(lit) != []
  {
    match lit.frac
    case None =>
      if lit.whole != [] then lit.(whole := lit.whole[..|lit.whole| - 1]) else lit.(neg := false)
    case Some(f) =>
      match f.exp
      case None =>
        if f.digits != [] then lit.(frac := Some(f.(digits := f.digits[..|f.digits| - 1])))
        else lit.(frac := None)
      case Some(e) =>
        if e.digits != [] then lit.(frac := Some(f.(exp := Some(e.(digits := e.digits[..|e.digits| - 1])))))
        else if e.neg then lit.(frac := Some(f.(exp := Some(e.(neg := false)))))
        else lit.(frac := Some(f.(exp := None)))
  }

  /** The character Truncate removes. */
  function Removed(lit: Literal): char
    requires Render(lit) != []
  {
    match lit.frac
    case None => if lit.whole != [] then lit.whole[|lit.whole| - 1] else '-'
    case Some(f) =>
      match f.exp
      case None => if f.digits != [] then f.digits[|f.digits| - 1] else '.'
      case Some(e) => if e.digits != [] then e.digits[|e.digits| - 1] else if e.neg then '-' else e.marker
  }

  /** Removing the last character and growing by it again gives lit back. */
  lemma TruncateGrow(lit: Literal)
    requires WellFormed(lit) && Render(lit) != []
    ensures WellFormed(Truncate(lit))
    ensures Render(Truncate(lit)) + [LastChar(Render(lit))] == Render(lit)
    ensures Grow(Truncate(lit), LastChar(Render(lit))) == Some(lit)
  {
    GrowBack(lit);
    GrowRender(Truncate(lit), Removed(lit));
    LastOfSnoc(Render(Truncate(lit)), Removed(lit));
  }

  lemma LastOfSnoc(a: string, c: char)
    ensures LastChar(a + [c]) == c
  {
  }

  /** A non-empty literal is its truncation grown by the removed character. */
  lemma GrowBack(lit: Literal)
    requires WellFormed(lit) && Render(lit) != []
    ensures WellFormed(Truncate(lit)) && Grow(Truncate(lit), Removed(lit)) == Some(lit)
  {
    match lit.frac
    case None =>
      if lit.whole != [] {
        ButLast(lit.whole);
      } else {
        assert lit.neg;
      }
    case Some(f) =>
      match f.exp {
        case None =>
          if f.digits != [] {
            ButLast(f.digits);
          }
        case Some(e) =>
          if e.digits != [] {
            ButLast(e.digits);
          }
      }
  }

  /** A non-empty digit string is its prefix and its last digit. */
  lemma ButLast(s: string)
    requires s != [] && Digits(s)
    ensures Digits(s[..|s| - 1]) && IsDigit(s[|s| - 1]) && s[..|s| - 1] + [s[|s| - 1]] == s
  {
  }

  /** Every literal is read back whole: parsing its rendering gives it back. */
  lemma {:induction false} ParsedRender(lit: Literal)
    requires WellFormed(lit)
    ensures Parsed(Render(lit)) == Some(lit)
    decreases |Render(lit)|
  {
    var s := Render(lit);
    if s != [] {
      var t := Truncate(lit);
      TruncateGrow(lit);
      ParsedRender(t);
      assert s[..|s| - 1] == Render(t);
    } else {
      assert lit == Empty;
    }
  }

  /** The scanner's exact result is the literal's decimal meaning. */
  lemma ValueOfLiteral(lit: Literal)
    requires WellFormed(lit)
    ensures Value(StateOf(lit)) == LitValue(lit)
  {
    var st := StateOf(lit);
    SignedMantissa(lit);
    if ExpOf(lit).None? {
      assert !st.expNeg && Pow10(st.exp) == 1;
    }
  }

  /** The signed value before the exponent is applied. */
  lemma SignedMantissa(lit: Literal)
    requires WellFormed(lit)
    ensures var st := StateOf(lit);
      var fd := FracDigits(lit);
      var mag := Number(lit.whole) as real + Number(fd) as real / Pow10(|fd|) as real;
      (if st.neg then -(st.res as real) else st.res as real) / (st.prec as real) == (if lit.neg then -mag else mag)
  {
    Mantissa(lit);
    SignedDivide(StateOf(lit).res as real, StateOf(lit).prec as real, lit.neg);
  }

  /** The accumulated digits divided by prec are the whole part plus the fraction. */
  lemma Mantissa(lit: Literal)
    requires WellFormed(lit)
    ensures var fd := FracDigits(lit);
      StateOf(lit).res as real / Pow10(|fd|) as real ==
      Number(lit.whole) as real + Number(fd) as real / Pow10(|fd|) as real
  {
    var fd := FracDigits(lit);
    NumberAppend(lit.whole, fd);
    Shifted(StateOf(lit).res, Number(lit.whole), Number(fd), Pow10(|fd|));
  }

  lemma SignedDivide(x: real, p: real, neg: bool)
    requires p > 0.0
    ensures (if neg then -x else x) / p == if neg then -(x / p) else x / p
  {
  }

  lemma Cast(x: int, y: int, z: int)
    ensures (x * y + z) as real == x as real * y as real + z as real
  {
  }

  /** A number whose last digits are f, read with p as their place value. */
  lemma Shifted(r: int, w: int, f: int, p: int)
    requires p > 0 && r == w * p + f
    ensures r as real / p as real == w as real + f as real / p as real
  {
    Cast(w, p, f);
    Divide(r as real, w as real, f as real, p as real);
  }

  /** Reading the digits of a and then those of b. */
  lemma {:induction false} NumberAppend(a: string, b: string)
    requires Digits(a) && Digits(b)
    ensures Digits(a + b) && Number(a + b) == Number(a) * Pow10(|b|) + Number(b)
    decreases |b|
  {
    if b == [] {
      assert a + b == a;
    } else {
      var b' := b[..|b| - 1];
      var d := DigitValue(b[|b| - 1]);
      NumberAppend(a, b');
      assert (a + b)[..|a + b| - 1] == a + b';
      assert Number(a + b) == Number(a + b') * 10 + d;
      Shift(Number(a), Pow10(|b'|), Number(b'), d);
    }
  }

  lemma Shift(x: int, p: int, n: int, d: int)
    ensures (x * p + n) * 10 + d == x * (10 * p) + (n * 10 + d)
  {
  }

  lemma Divide(x: real, w: real, f: real, p: real)
    requires p > 0.0 && x == w * p + f
    ensures x / p == w + f / p
  {
  }

  /** Soundness: when parse_float returns, the string up to its NUL is a
      literal and the value is that literal's meaning. */
  lemma ParseSound(str: string)
    requires Outcome(str).Returns?
    ensures Parsed(str[..Len(str)]).Some?
    ensures WellFormed(Parsed(str[..Len(str)]).value)
    ensures Render(Parsed(str[..Len(str)]).value) == str[..Len(str)]
    ensures Outcome(str).value == LitValue(Parsed(str[..Len(str)]).value)
  {
    RunParsed(str[..Len(str)]);
    ValueOfLiteral(Parsed(str[..Len(str)]).value);
  }

  /** Completeness: parse_float returns on every literal, with its meaning. */
  lemma ParseComplete(lit: Literal)
    requires WellFormed(lit)
    ensures Outcome(Render(lit)) == Returns(LitValue(lit))
  {
    var s := Render(lit);
    ParsedRender(lit);
    ParsedText(s);
    assert Len(s) == |s|;
    assert s[..Len(s)] == s;
    RunParsed(s);
    ValueOfLiteral(lit);
  }

  /** A literal holds no NUL: every character the grammar accepts is printable. */
  lemma {:induction false} ParsedText(s: string)
    requires Parsed(s).Some?
    ensures forall k :: 0 <= k < |s| ==> s[k] != '\0'
    decreases |s|
  {
    if s != [] {
      var n := |s| - 1;
      ParsedText(s[..n]);
      assert Grow(Parsed(s[..n]).value, s[n]).Some?;
      assert forall k :: 0 <= k < n ==> s[k] == s[..n][k];
    }
  }

  /** An abort happens at the first character that extends no literal. */
  lemma ParseAborts(str: string)
    requires Outcome(str).Aborts?
    ensures Outcome(str).at < Len(str)
    ensures Parsed(str[..Outcome(str).at]).Some?
    ensures Grow(Parsed(str[..Outcome(str).at]).value, str[Outcome(str).at]).None?
  {
    var at := Outcome(str).at;
    var t := str[..Len(str)][..at + 1];
    RunPrefixFail(str[..Len(str)], at);
    Prefixes(str, Len(str), at);
    AbortStep(t);
  }

  /** Taking a prefix of a prefix. */
  lemma Prefixes(str: string, n: nat, at: nat)
    requires at < n <= |str|
    ensures str[..n][..at + 1][..at] == str[..at] && str[..n][..at + 1][at] == str[at]
    ensures str[..n][..at] == str[..at] && str[..n][..at + 1] == str[..at + 1]
  {
  }

  /** A run whose last character fails after a successful prefix: the prefix
      is a literal that the character extends to none. */
  lemma AbortStep(t: string)
    requires t != [] && Run(t).Fail? && Run(t[..|t| - 1]).Ok?
    ensures Parsed(t[..|t| - 1]).Some? && Grow(Parsed(t[..|t| - 1]).value, t[|t| - 1]).None?
  {
    RunParsed(t[..|t| - 1]);
    SyncState(t, Parsed(t[..|t| - 1]).value);
  }

  /** A run that fails at index at already succeeded on the first at characters. */
  lemma {:induction false} RunPrefixFail(s: string, at: nat)
    requires Run(s) == Fail(at)
    ensures at < |s| && Run(s[..at]).Ok? && Run(s[..at + 1]) == Fail(at)
    decreases |s|
  {
    var n := |s| - 1;
    if Run(s[..n]).Fail? {
      RunPrefixFail(s[..n], at);
      assert s[..n][..at] == s[..at] && s[..n][..at + 1] == s[..at + 1];
    } else {
      assert s[..n + 1] == s;
    }
  }

  // ---------------------------------------------------------------------
  // The test table of main, and its comparison.

  /** EQUALS_CUTOFF. */
  const Cutoff: real := 0.000001

  /** FEQUALS as written: only a - b is bounded, with no absolute value. */
  predicate FEqualsAsWritten(a: real, b: real) {
    a - b < Cutoff
  }

  /** The comparison accepts every result that undershoots the expected
      value, however far off: parse_float returning 0 for "11.3" would pass. */
  lemma FEqualsOneSided(a: real, b: real)
    requires a <= b
    ensures FEqualsAsWritten(a, b)
    ensures a < b - Cutoff ==> !FEqualsAsWritten(b, a)
  {
  }

  /** FEQUALS as evidently intended: a and b within the cutoff of each other. */
  predicate FEquals(a: real, b: real) {
    -Cutoff < a - b < Cutoff
  }

  /** The intended comparison is symmetric and bounds the error on both sides. */
  lemma FEqualsClose(a: real, b: real)
    ensures FEquals(a, b) <==> FEquals(b, a)
    ensures FEquals(a, b) <==> b - Cutoff < a < b + Cutoff
    ensures FEquals(a, a)
  {
  }

  // The positive half of main's table, in its order; each negative row is
  // one of these with a leading minus sign.
  const Plain := Literal(false, "11", Some(Frac("3", None)))
  const Precise := Literal(false, "119", Some(Frac("312", None)))
  const Large := Literal(false, "114", Some(Frac("3", None)))
  const NoWhole := Literal(false, "", Some(Frac("3", None)))
  const NoFraction := Literal(false, "114", Some(Frac("", None)))
  const Raised := Literal(false, "11", Some(Frac("3", Some(Exp('e', false, "2")))))
  const Scaled := Literal(false, "119", Some(Frac("312", Some(Exp('e', true, "2")))))
  const Huge := Literal(false, "114", Some(Frac("3", Some(Exp('e', false, "12")))))
  const Tiny := Literal(false, "", Some(Frac("3", Some(Exp('e', true, "3")))))
  const Bare := Literal(false, "114", Some(Frac("", Some(Exp('e', false, "1")))))

  /** The literal with a leading minus sign. */
  function Negated(lit: Literal): Literal {
    lit.(neg := true)
  }

  /** A leading minus sign keeps a literal well formed and prefixes its text. */
  lemma NegatedText(lit: Literal)
    requires WellFormed(lit) && !lit.neg
    ensures WellFormed(Negated(lit)) && Render(Negated(lit)) == "-" + Render(lit)
  {
  }

  /** A leading minus sign negates the value of a literal. */
  lemma NegatedValue(lit: Literal)
    requires WellFormed(lit) && !lit.neg
    ensures WellFormed(Negated(lit)) && LitValue(Negated(lit)) == -LitValue(lit)
  {
    var fd := FracDigits(lit);
    assert FracDigits(Negated(lit)) == fd && ExpOf(Negated(lit)) == ExpOf(lit);
    var mag := Number(lit.whole) as real + Number(fd) as real / Pow10(|fd|) as real;
    match ExpOf(lit)
    case None =>
    case Some(e) => ScaleNegated(mag, e.neg, Number(e.digits));
  }

  lemma ScaleNegated(v: real, neg: bool, k: nat)
    ensures Scale(-v, neg, k) == -Scale(v, neg, k)
  {
    var p := Pow10(k) as real;
    if neg {
      SignedDivide(v, p, true);
    } else {
      assert -v * p == -(v * p);
    }
  }

  lemma PlainValue()
    ensures WellFormed(Plain) && LitValue(Plain) == 11.3
  {
    assert "11"[..1] == "1" && "1"[..0] == [] && "3"[..0] == [];
  }

  lemma PreciseValue()
    ensures WellFormed(Precise) && LitValue(Precise) == 119.312
  {
    assert "119"[..2] == "11" && "11"[..1] == "1" && "1"[..0] == [];
    assert "312"[..2] == "31" && "31"[..1] == "3" && "3"[..0] == [];
    assert Number("119") == 119 && Number("312") == 312 && Pow10(3) == 1000;
  }

  lemma LargeValue()
    ensures WellFormed(Large) && LitValue(Large) == 114.3
  {
    assert "114"[..2] == "11" && "11"[..1] == "1" && "1"[..0] == [] && "3"[..0] == [];
    assert Number("114") == 114 && Number("3") == 3 && Pow10(1) == 10;
  }

  lemma NoWholeValue()
    ensures WellFormed(NoWhole) && LitValue(NoWhole) == 0.3
  {
    assert "3"[..0] == [];
    assert Number("3") == 3;
    assert NoWhole.whole == [] && FracDigits(NoWhole) == "3" && ExpOf(NoWhole) == None;
    assert Number(NoWhole.whole) == 0 && Pow10(1) == 10;
    assert LitValue(NoWhole) == 0.0 + 3.0 / 10.0;
  }

  lemma NoFractionValue()
    ensures WellFormed(NoFraction) && LitValue(NoFraction) == 114.0
  {
    assert "114"[..2] == "11" && "11"[..1] == "1" && "1"[..0] == [];
    assert Number("114") == 114 && FracDigits(NoFraction) == [] && Number([]) == 0 && Pow10(0) == 1;
  }

  lemma RaisedValue()
    ensures WellFormed(Raised) && LitValue(Raised) == 1130.0
  {
    assert "11"[..1] == "1" && "1"[..0] == [] && "3"[..0] == [] && "2"[..0] == [];
    assert Number("11") == 11 && Number("3") == 3 && Number("2") == 2 && Pow10(2) == 100;
  }

  lemma ScaledValue()
    ensures WellFormed(Scaled) && LitValue(Scaled) == 1.19312
  {
    assert "119"[..2] == "11" && "11"[..1] == "1" && "1"[..0] == [];
    assert "312"[..2] == "31" && "31"[..1] == "3" && "3"[..0] == [] && "2"[..0] == [];
    assert Number("119") == 119 && Number("312") == 312 && Number("2") == 2;
  }

  lemma HugeValue()
    ensures WellFormed(Huge) && LitValue(Huge) == 114300000000000.0
  {
    assert "114"[..2] == "11" && "11"[..1] == "1" && "1"[..0] == [] && "3"[..0] == [];
    assert "12"[..1] == "1";
    assert Number("114") == 114 && Number("3") == 3 && Number("12") == 12;
    assert Pow10(12) == 1000000000000;
  }

  lemma TinyValue()
    ensures WellFormed(Tiny) && LitValue(Tiny) == 0.0003
  {
    assert "3"[..0] == [];
    assert Number("3") == 3 && Number(Tiny.whole) == 0 && Pow10(1) == 10 && Pow10(3) == 1000;
    assert FracDigits(Tiny) == "3" && ExpOf(Tiny) == Some(Exp('e', true, "3"));
    assert LitValue(Tiny) == Scale(0.0 + 3.0 / 10.0, true, 3);
  }

  lemma BareValue()
    ensures WellFormed(Bare) && LitValue(Bare) == 1140.0
  {
    assert "114"[..2] == "11" && "11"[..1] == "1" && "1"[..0] == [];
    assert Number("114") == 114 && Number("1") == 1 && FracDigits(Bare) == [] && Number([]) == 0;
    assert Pow10(0) == 1 && Pow10(1) == 10;
  }

  /** One row of main's table passes: the call returns, and the intended
      comparison accepts its result against the expected solution. */
  predicate RowPasses(str: string, expected: real) {
    Outcome(str).Returns? && FEquals(Outcome(str).value, expected)
  }

  /** A literal and its negation, of known value v, both parse to their
      values exactly, so both of their rows pass. */
  lemma RowPair(lit: Literal, v: real)
    requires WellFormed(lit) && !lit.neg && LitValue(lit) == v
    ensures Outcome(Render(lit)) == Returns(v) && RowPasses(Render(lit), v)
    ensures Render(Negated(lit)) == "-" + Render(lit)
    ensures Outcome(Render(Negated(lit))) == Returns(-v) && RowPasses(Render(Negated(lit)), -v)
  {
    ParseComplete(lit);
    NegatedText(lit);
    NegatedValue(lit);
    ParseComplete(Negated(lit));
  }

  lemma PlainText()
    ensures Render(Plain) == "11.3"
  {
  }

  /** Two rows of main's table: "11.3" and "-11.3" parse to exactly their
      solutions. */
  lemma MainPlain()
    ensures Render(Plain) == "11.3" && Render(Negated(Plain)) == "-" + Render(Plain)
    ensures Outcome(Render(Plain)) == Returns(11.3) && Outcome(Render(Negated(Plain))) == Returns(-11.3)
  {
    PlainText();
    PlainValue();
    RowPair(Plain, 11.3);
  }

  lemma PreciseText()
    ensures Render(Precise) == "119.312"
  {
  }

  /** Two rows of main's table: "119.312" and "-119.312" parse to exactly their
      solutions. */
  lemma MainPrecise()
    ensures Render(Precise) == "119.312" && Render(Negated(Precise)) == "-" + Render(Precise)
    ensures Outcome(Render(Precise)) == Returns(119.312) && Outcome(Render(Negated(Precise))) == Returns(-119.312)
  {
    PreciseText();
    PreciseValue();
    RowPair(Precise, 119.312);
  }

  lemma LargeText()
    ensures Render(Large) == "114.3"
  {
  }

  /** Two rows of main's table: "114.3" and "-114.3" parse to exactly their
      solutions. */
  lemma MainLarge()
    ensures Render(Large) == "114.3" && Render(Negated(Large)) == "-" + Render(Large)
    ensures Outcome(Render(Large)) == Returns(114.3) && Outcome(Render(Negated(Large))) == Returns(-114.3)
  {
    LargeText();
    LargeValue();
    RowPair(Large, 114.3);
  }

  lemma NoWholeText()
    ensures Render(NoWhole) == ".3"
  {
  }

  /** Two rows of main's table: ".3" and "-.3" parse to exactly their
      solutions. */
  lemma MainNoWhole()
    ensures Render(NoWhole) == ".3" && Render(Negated(NoWhole)) == "-" + Render(NoWhole)
    ensures Outcome(Render(NoWhole)) == Returns(0.3) && Outcome(Render(Negated(NoWhole))) == Returns(-0.3)
  {
    NoWholeText();
    NoWholeValue();
    RowPair(NoWhole, 0.3);
  }

  lemma NoFractionText()
    ensures Render(NoFraction) == "114."
  {
  }

  /** Two rows of main's table: "114." and "-114." parse to exactly their
      solutions. */
  lemma MainNoFraction()
    ensures Render(NoFraction) == "114." && Render(Negated(NoFraction)) == "-" + Render(NoFraction)
    ensures Outcome(Render(NoFraction)) == Returns(114.0) && Outcome(Render(Negated(NoFraction))) == Returns(-114.0)
  {
    NoFractionText();
    NoFractionValue();
    RowPair(NoFraction, 114.0);
  }

  lemma RaisedText()
    ensures Render(Raised) == "11.3e2"
  {
  }

  /** Two rows of main's table: "11.3e2" and "-11.3e2" parse to exactly their
      solutions. */
  lemma MainRaised()
    ensures Render(Raised) == "11.3e2" && Render(Negated(Raised)) == "-" + Render(Raised)
    ensures Outcome(Render(Raised)) == Returns(1130.0) && Outcome(Render(Negated(Raised))) == Returns(-1130.0)
  {
    RaisedText();
    RaisedValue();
    RowPair(Raised, 1130.0);
  }

  lemma ScaledText()
    ensures Render(Scaled) == "119.312e-2"
  {
  }

  /** Two rows of main's table: "119.312e-2" and "-119.312e-2" parse to exactly their
      solutions. */
  lemma MainScaled()
    ensures Render(Scaled) == "119.312e-2" && Render(Negated(Scaled)) == "-" + Render(Scaled)
    ensures Outcome(Render(Scaled)) == Returns(1.19312) && Outcome(Render(Negated(Scaled))) == Returns(-1.19312)
  {
    ScaledText();
    ScaledValue();
    RowPair(Scaled, 1.19312);
  }

  lemma HugeText()
    ensures Render(Huge) == "114.3e12"
  {
  }

  /** Two rows of main's table: "114.3e12" and "-114.3e12" parse to exactly their
      solutions. */
  lemma MainHuge()
    ensures Render(Huge) == "114.3e12" && Render(Negated(Huge)) == "-" + Render(Huge)
    ensures Outcome(Render(Huge)) == Returns(114300000000000.0) && Outcome(Render(Negated(Huge))) == Returns(-114300000000000.0)
  {
    HugeText();
    HugeValue();
    RowPair(Huge, 114300000000000.0);
  }

  lemma TinyText()
    ensures Render(Tiny) == ".3e-3"
  {
  }

  /** Two rows of main's table: ".3e-3" and "-.3e-3" parse to exactly their
      solutions. */
  lemma MainTiny()
    ensures Render(Tiny) == ".3e-3" && Render(Negated(Tiny)) == "-" + Render(Tiny)
    ensures Outcome(Render(Tiny)) == Returns(0.0003) && Outcome(Render(Negated(Tiny))) == Returns(-0.0003)
  {
    TinyText();
    TinyValue();
    RowPair(Tiny, 0.0003);
  }

  lemma BareText()
    ensures Render(Bare) == "114.e1"
  {
  }

  /** Two rows of main's table: "114.e1" and "-114.e1" parse to exactly their
      solutions. */
  lemma MainBare()
    ensures Render(Bare) == "114.e1" && Render(Negated(Bare)) == "-" + Render(Bare)
    ensures Outcome(Render(Bare)) == Returns(1140.0) && Outcome(Render(Negated(Bare))) == Returns(-1140.0)
  {
    BareText();
    BareValue();
    RowPair(Bare, 1140.0);
  }

  /** main's assertion, in its intended form, holds on all twenty rows. */
  lemma MainAssertions()
    ensures RowPasses(Render(Plain), 11.3) && RowPasses(Render(Negated(Plain)), -11.3)
    ensures RowPasses(Render(Precise), 119.312) && RowPasses(Render(Negated(Precise)), -119.312)
    ensures RowPasses(Render(Large), 114.3) && RowPasses(Render(Negated(Large)), -114.3)
    ensures RowPasses(Render(NoWhole), 0.3) && RowPasses(Render(Negated(NoWhole)), -0.3)
    ensures RowPasses(Render(NoFraction), 114.0) && RowPasses(Render(Negated(NoFraction)), -114.0)
    ensures RowPasses(Render(Raised), 1130.0) && RowPasses(Render(Negated(Raised)), -1130.0)
    ensures RowPasses(Render(Scaled), 1.19312) && RowPasses(Render(Negated(Scaled)), -1.19312)
    ensures RowPasses(Render(Huge), 114300000000000.0) && RowPasses(Render(Negated(Huge)), -114300000000000.0)
    ensures RowPasses(Render(Tiny), 0.0003) && RowPasses(Render(Negated(Tiny)), -0.0003)
    ensures RowPasses(Render(Bare), 1140.0) && RowPasses(Render(Negated(Bare)), -1140.0)
  {
    MainPlain();
    MainPrecise();
    MainLarge();
    MainNoWhole();
    MainNoFraction();
    MainRaised();
    MainScaled();
    MainHuge();
    MainTiny();
    MainBare();
  }

  /** An exponent is only recognised after a decimal point: in "1e5" the
      'e' meets the integer-part digit assertion. */
  lemma ExponentNeedsPoint()
    ensures Outcome("1e5") == Aborts(1)
  {
    var s := "1e5";
    assert Len(s) == 3;
    assert s[..3] == s && s[..3][..2] == "1e" && "1e"[..1] == "1" && "1"[..0] == [];
    assert Run("1") == Ok(Start.(res := 1));
    assert Run("1e") == Fail(1);
  }
}
