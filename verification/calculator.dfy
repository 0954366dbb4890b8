/** The calculator's arithmetic state machine: the four state fields of the `Calculator`
    component and its button handlers, each a total function from the state before the
    press to the state after it (React applies a handler's updates only once it returns,
    so every handler reads the state as it was before the press). */
module Calculator {
  import opened Numerals

  /** The operator keys; `Equals` is the `=` key, which also fills the operator slot. */
  datatype Op = Add | Sub | Mul | Div | Equals

  datatype Option<T> = None | Some(value: T)

  datatype State = State(
    displayValue: string,
    operator: Option<Op>,
    previousValue: Option<string>,
    waitingForNewValue: bool)

  /** The state the component starts in, and the state `Clear` returns to. */
  const Initial: State := State("0", None, None, false)

  /** An operator is pending exactly when a first operand has been stored. */
  predicate Paired(s: State) {
    s.operator.None? <==> s.previousValue.None?
  }

  /** What holds of every state the handlers can reach from `Initial`. */
  predicate Valid(s: State) {
    && Paired(s)
    && IsLiteral(s.displayValue)
    && (s.previousValue.Some? ==> IsLiteral(s.previousValue.value))
    && (s.waitingForNewValue ==> s.operator.Some?)
  }

  // ---------------------------------------------------------------------------
  // Handlers

  /** The AC/C key. */
  function Clear(s: State): (r: State)
    ensures r == Initial && Valid(r)
  {
    Initial
  }

  /** The +/- key: negates the number shown, unless it reads as zero. */
  function ToggleSign(s: State): (r: State)
    ensures r.operator == s.operator && r.previousValue == s.previousValue
    ensures r.waitingForNewValue == s.waitingForNewValue
    ensures Parse(s.displayValue) == 0.0 ==> r == s
    ensures Parse(s.displayValue) != 0.0 ==> IsLiteral(r.displayValue)
    ensures Parse(r.displayValue) == -Truncate(Parse(s.displayValue))
  {
    var value := Parse(s.displayValue);
    if value == 0.0 then
      TruncateInt(0);
      s
    else
      var negated := -value;
      ParseShowNegated(value, negated);
      s.(displayValue := Show(negated))
  }

  /** The % key: divides the number shown by 100. */
  function InputPercent(s: State): (r: State)
    ensures r.operator == s.operator && r.previousValue == s.previousValue
    ensures r.waitingForNewValue == s.waitingForNewValue
    ensures IsLiteral(r.displayValue)
    ensures Parse(r.displayValue) == Truncate(Parse(s.displayValue) / 100.0)
  {
    var value := Parse(s.displayValue);
    ParseShow(value / 100.0);
    s.(displayValue := Show(value / 100.0))
  }

  /** A digit key. Right after an operator the digit starts a new number; otherwise it is
      appended, a lone `0` being replaced rather than extended. */
  function InputDigit(s: State, d: char): (r: State)
    ensures r.operator == s.operator && r.previousValue == s.previousValue
    ensures !r.waitingForNewValue
    ensures s.waitingForNewValue || s.displayValue == "0" ==> r.displayValue == [d]
    ensures !s.waitingForNewValue && s.displayValue != "0"
      ==> r.displayValue == s.displayValue + [d]
  {
    if s.waitingForNewValue then
      s.(displayValue := [d], waitingForNewValue := false)
    else
      s.(displayValue := if s.displayValue == "0" then [d] else s.displayValue + [d])
  }

  /** The decimal point key. Right after an operator it starts `0.`; otherwise it appends a
      point unless the number already has one. */
  function InputDot(s: State): (r: State)
    ensures r.operator == s.operator && r.previousValue == s.previousValue
    ensures !r.waitingForNewValue
    ensures '.' in r.displayValue
    ensures s.waitingForNewValue ==> r.displayValue == "0."
    ensures !s.waitingForNewValue && '.' in s.displayValue ==> r == s
    ensures !s.waitingForNewValue && '.' !in s.displayValue
      ==> r.displayValue == s.displayValue + "."
  {
    if s.waitingForNewValue then
      assert "0."[1] == '.';
      s.(displayValue := "0.", waitingForNewValue := false)
    else if '.' !in s.displayValue then
      assert (s.displayValue + ".")[|s.displayValue|] == '.';
      s.(displayValue := s.displayValue + ".")
    else
      s
  }

  /** Applies a pending operator to the stored and the shown number. Division by zero gives
      zero; `=` and no operator at all pass the second operand through. */
  function Calculate(first: real, second: real, op: Option<Op>): (r: real)
    ensures op == Some(Add) ==> r - second == first
    ensures op == Some(Sub) ==> r + second == first
    ensures op == Some(Mul) ==> r == first * second
    ensures op == Some(Div) && second != 0.0 ==> r * second == first
    ensures op == Some(Div) && second == 0.0 ==> r == 0.0
    ensures op == Some(Equals) || op == None ==> r == second
  {
    match op
    case Some(Add) => first + second
    case Some(Sub) => first - second
    case Some(Mul) => first * second
    case Some(Div) => if second == 0.0 then 0.0 else first / second
    case _ => second
  }

  /** An operator key (`+`, `-`, `×`, `÷` or `=`). The first press after a clear stores
      the number shown; later presses apply the pending operator to the stored number and
      the number shown, and show and store the result. Either way the next digit starts a
      new number and `next` becomes the pending operator. */
  function PerformOperation(s: State, next: Op): (r: State)
    ensures r.operator == Some(next) && r.waitingForNewValue
    ensures r.previousValue.Some?
    ensures s.previousValue.None? || s.operator.Some? ==> IsLiteral(r.previousValue.value)
    ensures s.previousValue.None? ==>
      && r.displayValue == s.displayValue
      && Parse(r.previousValue.value) == Truncate(Parse(s.displayValue))
    ensures s.previousValue.Some? && s.operator.None? ==>
      && r.displayValue == s.displayValue
      && r.previousValue == s.previousValue
    ensures s.previousValue.Some? && s.operator.Some? ==>
      && r.previousValue == Some(r.displayValue)
      && Parse(r.displayValue)
         == Truncate(Calculate(Parse(s.previousValue.value), Parse(s.displayValue), s.operator))
  {
    var input := Parse(s.displayValue);
    if s.previousValue.None? then
      ParseShow(input);
      State(s.displayValue, Some(next), Some(Show(input)), true)
    else if s.operator.Some? then
      var current := if s.previousValue.value == "" then 0.0 else Parse(s.previousValue.value);
      var result := Calculate(current, input, s.operator);
      assert current == Parse(s.previousValue.value) by {
        assert DigitRun("") == 0 && ""[..0] == "";
      }
      ParseShow(result);
      State(Show(result), Some(next), Some(Show(result)), true)
    else
      State(s.displayValue, Some(next), s.previousValue, true)
  }

  // ---------------------------------------------------------------------------
  // Properties of single handlers

  /** A second press of the point key changes nothing. */
  lemma InputDotIdempotent(s: State)
    ensures InputDot(InputDot(s)) == InputDot(s)
  {
  }

  /** The point key never makes a second decimal point: after it the display has exactly
      one, provided it had at most one before. */
  lemma InputDotSinglePoint(s: State)
    requires Occurrences(s.displayValue, '.') <= 1
    ensures Occurrences(InputDot(s).displayValue, '.') == 1
  {
    var d := s.displayValue;
    if s.waitingForNewValue {
      assert "0."[1..][1..] == [];
    } else if '.' !in d {
      OccurrencesAbsent(d, '.');
      OccurrencesAppend(d, '.', '.');
      assert d + ['.'] == d + ".";
    } else {
      PointCounted(d);
    }
  }

  lemma {:induction false} PointCounted(d: string)
    requires '.' in d
    ensures Occurrences(d, '.') >= 1
  {
    if d[0] != '.' {
      assert '.' in d[1..] by {
        var i :| 0 <= i < |d| && d[i] == '.';
        assert d[1..][i - 1] == '.';
      }
      PointCounted(d[1..]);
    }
  }

  /** A point typed into a number being entered leaves its value alone (`12.` reads as 12);
      typed right after an operator it starts a number reading as zero. */
  lemma InputDotKeepsValue(s: State)
    requires IsLiteral(s.displayValue)
    ensures IsLiteral(InputDot(s).displayValue)
    ensures s.waitingForNewValue ==> Parse(InputDot(s).displayValue) == 0.0
    ensures !s.waitingForNewValue ==> Parse(InputDot(s).displayValue) == Parse(s.displayValue)
  {
    if s.waitingForNewValue {
      UnsignedValueOfFixed("0", "");
      LiteralOfFixed("0", "");
      assert "0" + "." + "" == "0.";
    } else if '.' !in s.displayValue {
      ParseAppendPoint(s.displayValue);
      LiteralAppendPoint(s.displayValue);
    }
  }

  /** Pressing +/- twice gives back the number shown, cut to `FractionDigits` fractional
      digits: exactly the number, and in `Show`'s canonical spelling, when `Show` prints it
      exactly. */
  lemma ToggleSignTwice(s: State)
    ensures Parse(ToggleSign(ToggleSign(s)).displayValue) == Truncate(Parse(s.displayValue))
    ensures IsRepresentable(Parse(s.displayValue))
      ==> Parse(ToggleSign(ToggleSign(s)).displayValue) == Parse(s.displayValue)
    ensures IsRepresentable(Parse(s.displayValue)) && Parse(s.displayValue) != 0.0
      ==> ToggleSign(ToggleSign(s)).displayValue == Show(Parse(s.displayValue))
  {
    var v := Parse(s.displayValue);
    var t := ToggleSign(s);
    CutTwice(v, Parse(ToggleSign(t).displayValue));
    if IsRepresentable(v) && v != 0.0 {
      ToggleSignTwiceSpelling(s);
    }
  }

  /** Negating the cut of a negated cut gives the cut back. */
  lemma CutTwice(v: real, x: real)
    requires x == -Truncate(-Truncate(v))
    ensures x == Truncate(v)
  {
    TruncateNegate(Truncate(v));
    TruncateIdempotent(v);
  }

  lemma ToggleSignTwiceSpelling(s: State)
    requires IsRepresentable(Parse(s.displayValue)) && Parse(s.displayValue) != 0.0
    ensures ToggleSign(ToggleSign(s)).displayValue == Show(Parse(s.displayValue))
  {
    var v := Parse(s.displayValue);
    var t := ToggleSign(s);
    assert Parse(t.displayValue) == -v;
    assert ToggleSign(t).displayValue == Show(-(-v));
    assert -(-v) == v;
  }

  /** `=` right after `=` stores and shows the number on the display again, unchanged
      apart from spelling: the pending `=` passes its second operand through. */
  lemma EqualsRepeated(s: State)
    requires s.operator == Some(Equals) && s.previousValue.Some?
    ensures PerformOperation(s, Equals).displayValue == Show(Parse(s.displayValue))
    ensures PerformOperation(s, Equals).previousValue == Some(Show(Parse(s.displayValue)))
  {
  }

  // ---------------------------------------------------------------------------
  // Key presses

  /** The buttons of the keypad. */
  datatype Key = ClearKey | SignKey | PercentKey | DigitKey(digit: char) | DotKey | OperatorKey(op: Op)

  /** The digit buttons carry the digits `0`..`9`. */
  predicate OnKeypad(k: Key) {
    k.DigitKey? ==> IsDigit(k.digit)
  }

  /** The state after one press of `k`. */
  function Step(s: State, k: Key): State {
    match k
    case ClearKey => Clear(s)
    case SignKey => ToggleSign(s)
    case PercentKey => InputPercent(s)
    case DigitKey(d) => InputDigit(s, d)
    case DotKey => InputDot(s)
    case OperatorKey(op) => PerformOperation(s, op)
  }

  /** The state after pressing `keys` in order. */
  function Run(s: State, keys: seq<Key>): State
    decreases |keys|
  {
    if keys == [] then s else Run(Step(s, keys[0]), keys[1..])
  }

  lemma {:induction false} RunAppend(s: State, keys: seq<Key>, k: Key)
    ensures Run(s, keys + [k]) == Step(Run(s, keys), k)
    decreases |keys|
  {
    if keys == [] {
      assert keys + [k] == [k];
    } else {
      assert (keys + [k])[0] == keys[0];
      assert (keys + [k])[1..] == keys[1..] + [k];
      RunAppend(Step(s, keys[0]), keys[1..], k);
    }
  }

  /** AC after any sequence of presses gives the start-up state. */
  lemma ClearResetsAnyRun(s: State, keys: seq<Key>)
    ensures Run(s, keys + [ClearKey]) == Initial
  {
    RunAppend(s, keys, ClearKey);
  }

  /** Every handler keeps "an operator is pending exactly when a first operand is stored":
      only the operator keys touch either field and they set both, and AC clears both. */
  lemma StepKeepsPaired(s: State, k: Key)
    requires Paired(s)
    ensures Paired(Step(s, k))
  {
  }

  lemma {:induction false} RunKeepsPaired(s: State, keys: seq<Key>)
    requires Paired(s)
    ensures Paired(Run(s, keys))
    decreases |keys|
  {
    if keys != [] {
      StepKeepsPaired(s, keys[0]);
      RunKeepsPaired(Step(s, keys[0]), keys[1..]);
    }
  }

  /** Every keypad press keeps the state valid: the display stays a numeric literal (never
      empty, never two points), the stored operand too, and the pairing above holds. */
  lemma StepKeepsValid(s: State, k: Key)
    requires Valid(s) && OnKeypad(k)
    ensures Valid(Step(s, k))
  {
    match k
    case DigitKey(d) =>
      if !s.waitingForNewValue && s.displayValue != "0" {
        LiteralAppendDigit(s.displayValue, d);
      }
    case DotKey =>
      InputDotKeepsValue(s);
    case _ =>
  }

  lemma {:induction false} RunKeepsValid(s: State, keys: seq<Key>)
    requires Valid(s)
    requires forall i :: 0 <= i < |keys| ==> OnKeypad(keys[i])
    ensures Valid(Run(s, keys))
    decreases |keys|
  {
    if keys != [] {
      StepKeepsValid(s, keys[0]);
      RunKeepsValid(Step(s, keys[0]), keys[1..]);
    }
  }

  /** Whatever is pressed from start-up, the display holds a literal with at most one
      decimal point. */
  lemma ReachableDisplay(keys: seq<Key>)
    requires forall i :: 0 <= i < |keys| ==> OnKeypad(keys[i])
    ensures IsLiteral(Run(Initial, keys).displayValue)
    ensures Occurrences(Run(Initial, keys).displayValue, '.') <= 1
  {
    RunKeepsValid(Initial, keys);
    LiteralPoints(Run(Initial, keys).displayValue);
  }

  // ---------------------------------------------------------------------------
  // Typing a number

  function DigitKeys(ds: string): (keys: seq<Key>)
    ensures |keys| == |ds|
    ensures forall i :: 0 <= i < |ds| ==> keys[i] == DigitKey(ds[i])
  {
    seq(|ds|, i requires 0 <= i < |ds| => DigitKey(ds[i]))
  }

  function DropLeadingZeros(ds: string): string {
    if |ds| > 0 && ds[0] == '0' then DropLeadingZeros(ds[1..]) else ds
  }

  /** The digits `ds` with leading zeros left out, or `0` if nothing else remains. */
  function WithoutLeadingZeros(ds: string): string {
    var t := DropLeadingZeros(ds);
    if t == [] then "0" else t
  }

  lemma {:induction false} DropLeadingZerosAppend(a: string, d: char)
    ensures DropLeadingZeros(a + [d])
         == if DropLeadingZeros(a) == [] then (if d == '0' then [] else [d])
            else DropLeadingZeros(a) + [d]
  {
    if |a| > 0 && a[0] == '0' {
      assert (a + [d])[1..] == a[1..] + [d];
      DropLeadingZerosAppend(a[1..], d);
    } else if a == [] {
      assert a + [d] == [d];
      if d == '0' {
        assert [d][1..] == [];
      }
    }
  }

  lemma {:induction false} DropLeadingZerosValue(ds: string)
    requires AllDigits(ds)
    ensures AllDigits(DropLeadingZeros(ds))
    ensures DigitsValue(DropLeadingZeros(ds)) == DigitsValue(ds)
  {
    if |ds| > 0 && ds[0] == '0' {
      var t := ds[1..];
      assert ds == ['0'] + t;
      DigitsValueConcat(['0'], t);
      assert ['0'][..0] == [];
      DropLeadingZerosValue(t);
    }
  }

  /** Digits typed into a fresh number show as their concatenation with leading zeros
      suppressed, read as the number the digits denote, and change nothing else. */
  lemma {:induction false} TypeDigits(s: State, ds: string)
    requires AllDigits(ds) && |ds| > 0
    requires s.waitingForNewValue || s.displayValue == "0"
    ensures Run(s, DigitKeys(ds)).displayValue == WithoutLeadingZeros(ds)
    ensures Parse(Run(s, DigitKeys(ds)).displayValue) == DigitsValue(ds) as real
    ensures !Run(s, DigitKeys(ds)).waitingForNewValue
    ensures Run(s, DigitKeys(ds)).operator == s.operator
    ensures Run(s, DigitKeys(ds)).previousValue == s.previousValue
    decreases |ds|
  {
    var a, d := ds[..|ds| - 1], ds[|ds| - 1];
    assert ds == a + [d];
    assert DigitKeys(ds) == DigitKeys(a) + [DigitKey(d)];
    RunAppend(s, DigitKeys(a), DigitKey(d));
    DropLeadingZerosAppend(a, d);
    if a == [] {
      assert DigitKeys(a) == [];
      assert DropLeadingZeros([]) == [];
    } else {
      TypeDigits(s, a);
      var t := DropLeadingZeros(a);
      if t != [] {
        assert t[0] != '0' by {
          NoLeadingZero(a);
        }
      }
    }
    WithoutLeadingZerosValue(ds);
  }

  lemma {:induction false} NoLeadingZero(ds: string)
    requires DropLeadingZeros(ds) != []
    ensures DropLeadingZeros(ds)[0] != '0'
  {
    if |ds| > 0 && ds[0] == '0' {
      NoLeadingZero(ds[1..]);
    }
  }

  lemma WithoutLeadingZerosValue(ds: string)
    requires AllDigits(ds)
    ensures Parse(WithoutLeadingZeros(ds)) == DigitsValue(ds) as real
  {
    DropLeadingZerosValue(ds);
    var t := DropLeadingZeros(ds);
    if t == [] {
      ParseNat(0);
    } else {
      ParseDigits(t);
    }
  }
}
