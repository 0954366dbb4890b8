/** Concrete key sequences and what the display shows after them. */
module Scenarios {
  import opened Numerals
  import opened Calculator

  /** The first operator key after start-up stores the whole number on the display. */
  lemma FirstOperator(n: nat, next: Op)
    ensures Step(State(Digits(n), None, None, false), OperatorKey(next))
         == State(Digits(n), Some(next), Some(Digits(n)), true)
  {
    OperatorKeyStep(State(Digits(n), None, None, false), next);
    ParseNat(n);
    ShowNat(n);
  }

  /** An operator key applies the pending operator to two whole numbers and shows and stores
      a whole-number result. */
  lemma NextOperator(stored: nat, shown: nat, op: Op, next: Op, result: nat)
    requires Calculate(stored as real, shown as real, Some(op)) == result as real
    ensures Step(State(Digits(shown), Some(op), Some(Digits(stored)), false), OperatorKey(next))
         == State(Digits(result), Some(next), Some(Digits(result)), true)
  {
    var s := State(Digits(shown), Some(op), Some(Digits(stored)), false);
    OperatorKeyStep(s, next);
    ParseNat(stored);
    ParseNat(shown);
    ShowNat(result);
  }

  lemma OperatorKeyStep(s: State, next: Op)
    ensures Step(s, OperatorKey(next)) == PerformOperation(s, next)
  {
  }

  /** Pressing `keys` from `s` is pressing its first key, then the rest. */
  lemma RunFirst(s: State, keys: seq<Key>, t: State)
    requires keys != [] && Step(s, keys[0]) == t
    ensures Run(s, keys) == Run(t, keys[1..])
  {
  }

  /** `5 + 3 =` shows 8. */
  lemma FivePlusThree()
    ensures Run(Initial, [DigitKey('5'), OperatorKey(Add), DigitKey('3'), OperatorKey(Equals)])
              .displayValue == "8"
  {
    var keys := [DigitKey('5'), OperatorKey(Add), DigitKey('3'), OperatorKey(Equals)];
    assert Digits(5) == "5" && Digits(3) == "3" && Digits(8) == "8";
    var s1 := State("5", None, None, false);
    var s2 := State("5", Some(Add), Some("5"), true);
    var s3 := State("3", Some(Add), Some("5"), false);
    var s4 := State("8", Some(Equals), Some("8"), true);
    assert Run(Initial, keys) == Run(s1, keys[1..]) by {
      RunFirst(Initial, keys, s1);
    }
    assert Run(s1, keys[1..]) == Run(s2, keys[2..]) by {
      FirstOperator(5, Add);
      assert keys[1..][1..] == keys[2..];
      RunFirst(s1, keys[1..], s2);
    }
    assert Run(s2, keys[2..]) == Run(s3, keys[3..]) by {
      assert keys[2..][1..] == keys[3..];
      RunFirst(s2, keys[2..], s3);
    }
    assert Run(s3, keys[3..]) == s4 by {
      NextOperator(5, 3, Add, Equals, 8);
      assert keys[3..][1..] == [];
      RunFirst(s3, keys[3..], s4);
    }
  }

  /** `6 ÷ 0 =` shows 0: division by zero is defined as zero, not an error. */
  lemma SixDividedByZero()
    ensures Run(Initial, [DigitKey('6'), OperatorKey(Div), DigitKey('0'), OperatorKey(Equals)])
              .displayValue == "0"
  {
    var keys := [DigitKey('6'), OperatorKey(Div), DigitKey('0'), OperatorKey(Equals)];
    assert Digits(6) == "6" && Digits(0) == "0";
    var s1 := State("6", None, None, false);
    var s2 := State("6", Some(Div), Some("6"), true);
    var s3 := State("0", Some(Div), Some("6"), false);
    var s4 := State("0", Some(Equals), Some("0"), true);
    assert Run(Initial, keys) == Run(s1, keys[1..]) by {
      RunFirst(Initial, keys, s1);
    }
    assert Run(s1, keys[1..]) == Run(s2, keys[2..]) by {
      FirstOperator(6, Div);
      assert keys[1..][1..] == keys[2..];
      RunFirst(s1, keys[1..], s2);
    }
    assert Run(s2, keys[2..]) == Run(s3, keys[3..]) by {
      assert keys[2..][1..] == keys[3..];
      RunFirst(s2, keys[2..], s3);
    }
    assert Run(s3, keys[3..]) == s4 by {
      NextOperator(6, 0, Div, Equals, 0);
      assert keys[3..][1..] == [];
      RunFirst(s3, keys[3..], s4);
    }
  }

  /** `2 + 3 +` shows 5: the second `+` completes the first addition. */
  lemma ChainedAdditionMidway()
    ensures Run(Initial, [DigitKey('2'), OperatorKey(Add), DigitKey('3'), OperatorKey(Add)])
         == State("5", Some(Add), Some("5"), true)
  {
    var keys := [DigitKey('2'), OperatorKey(Add), DigitKey('3'), OperatorKey(Add)];
    assert Digits(2) == "2" && Digits(3) == "3" && Digits(5) == "5";
    var s1 := State("2", None, None, false);
    var s2 := State("2", Some(Add), Some("2"), true);
    var s3 := State("3", Some(Add), Some("2"), false);
    var s4 := State("5", Some(Add), Some("5"), true);
    assert Run(Initial, keys) == Run(s1, keys[1..]) by {
      RunFirst(Initial, keys, s1);
    }
    assert Run(s1, keys[1..]) == Run(s2, keys[2..]) by {
      FirstOperator(2, Add);
      assert keys[1..][1..] == keys[2..];
      RunFirst(s1, keys[1..], s2);
    }
    assert Run(s2, keys[2..]) == Run(s3, keys[3..]) by {
      assert keys[2..][1..] == keys[3..];
      RunFirst(s2, keys[2..], s3);
    }
    assert Run(s3, keys[3..]) == s4 by {
      NextOperator(2, 3, Add, Add, 5);
      assert keys[3..][1..] == [];
      RunFirst(s3, keys[3..], s4);
    }
  }

  /** `2 + 3 + 4 =` works left to right, with no precedence: it shows 9. */
  lemma ChainedAddition()
    ensures Run(Initial, [DigitKey('2'), OperatorKey(Add), DigitKey('3'), OperatorKey(Add),
                          DigitKey('4'), OperatorKey(Equals)])
              .displayValue == "9"
  {
    var first := [DigitKey('2'), OperatorKey(Add), DigitKey('3'), OperatorKey(Add)];
    var s4 := State("5", Some(Add), Some("5"), true);
    var s5 := State("4", Some(Add), Some("5"), false);
    var s6 := State("9", Some(Equals), Some("9"), true);
    ChainedAdditionMidway();
    assert Digits(4) == "4" && Digits(5) == "5" && Digits(9) == "9";
    assert Run(Initial, first + [DigitKey('4')]) == s5 by {
      RunAppend(Initial, first, DigitKey('4'));
    }
    assert Run(Initial, first + [DigitKey('4')] + [OperatorKey(Equals)]) == s6 by {
      RunAppend(Initial, first + [DigitKey('4')], OperatorKey(Equals));
      NextOperator(5, 4, Add, Equals, 9);
    }
    assert first + [DigitKey('4')] + [OperatorKey(Equals)]
        == [DigitKey('2'), OperatorKey(Add), DigitKey('3'), OperatorKey(Add),
            DigitKey('4'), OperatorKey(Equals)];
  }

  /** `5 + ×` shows 10: a second operator key with no digit in between applies the first
      one to the number still on the display. */
  lemma OperatorTwice()
    ensures Run(Initial, [DigitKey('5'), OperatorKey(Add), OperatorKey(Mul)]).displayValue
              == "10"
  {
    var keys := [DigitKey('5'), OperatorKey(Add), OperatorKey(Mul)];
    assert Digits(5) == "5";
    var s1 := State("5", None, None, false);
    var s2 := State("5", Some(Add), Some("5"), true);
    var s3 := State("10", Some(Mul), Some("10"), true);
    assert Run(Initial, keys) == Run(s1, keys[1..]) by {
      RunFirst(Initial, keys, s1);
    }
    assert Run(s1, keys[1..]) == Run(s2, keys[2..]) by {
      FirstOperator(5, Add);
      assert keys[1..][1..] == keys[2..];
      RunFirst(s1, keys[1..], s2);
    }
    assert Run(s2, keys[2..]) == s3 by {
      assert Digits(10) == "10" by {
        assert Digits(10) == Digits(1) + [DigitChar(0)];
      }
      NextOperator(5, 5, Add, Mul, 10);
      assert keys[2..][1..] == [];
      RunFirst(s2, keys[2..], s3);
    }
  }

  /** The % key runs `InputPercent`. */
  lemma PercentKeyStep(s: State)
    ensures Step(s, PercentKey) == InputPercent(s)
  {
  }

  /** `InputPercent` on a display reading `v`, where `v / 100` is `n / 10^k` with no trailing
      fractional zero, shows the fixed-point spelling of `(n, k)`. */
  lemma InputPercentShows(s: State, n: nat, k: nat)
    requires k <= FractionDigits && (k == 0 || n % 10 != 0)
    requires Parse(s.displayValue) / 100.0 == n as real / Pow10(k) as real
    ensures InputPercent(s) == s.(displayValue := Render(Fixed(n, k)))
  {
    ShowFixed(n, k);
  }

  /** The % key on a display reading `v`, where `v / 100` is `n / 10^k` with no trailing
      fractional zero, shows the fixed-point spelling of `(n, k)`. */
  lemma PercentShows(s: State, n: nat, k: nat)
    requires k <= FractionDigits && (k == 0 || n % 10 != 0)
    requires Parse(s.displayValue) / 100.0 == n as real / Pow10(k) as real
    ensures Step(s, PercentKey) == s.(displayValue := Render(Fixed(n, k)))
  {
    PercentKeyStep(s);
    InputPercentShows(s, n, k);
  }

  /** Pressing one more key after `keys` takes the state they reach one step further. */
  lemma RunLast(s: State, keys: seq<Key>, k: Key, all: seq<Key>, t: State, u: State)
    requires all == keys + [k] && Run(s, keys) == t && Step(t, k) == u
    ensures Run(s, all) == u
  {
    RunAppend(s, keys, k);
  }

  /** A nonzero digit then `0` shows ten times the digit. */
  lemma TypeTens(d: nat)
    requires 0 < d < 10
    ensures Run(Initial, [DigitKey(DigitChar(d)), DigitKey(DigitChar(0))])
         == State(Digits(10 * d), None, None, false)
  {
    var keys := [DigitKey(DigitChar(d)), DigitKey(DigitChar(0))];
    var s1 := State(Digits(d), None, None, false);
    var s2 := State(Digits(10 * d), None, None, false);
    RunFirst(Initial, keys, s1);
    DigitsTens(d);
    assert keys[1..][1..] == [];
    RunFirst(s1, keys[1..], s2);
  }

  lemma DigitsTens(d: nat)
    requires 0 < d < 10
    ensures Digits(d) == [DigitChar(d)] != "0"
    ensures Digits(10 * d) == Digits(d) + [DigitChar(0)]
  {
  }

  /** `%` on ten times a digit shows the digit's tenths. */
  lemma PercentOfTens(s: State, d: nat)
    requires 0 < d < 10 && s.displayValue == Digits(10 * d)
    ensures Step(s, PercentKey) == s.(displayValue := Render(Fixed(d, 1)))
  {
    ParseNat(10 * d);
    assert (10 * d) as real / 100.0 == d as real / Pow10(1) as real;
    PercentShows(s, d, 1);
  }

  /** `%` on a display reading `n / 10^k` shows `n / 10^(k+2)`. */
  lemma PercentOfFraction(s: State, n: nat, k: nat)
    requires k + 2 <= FractionDigits && n % 10 != 0
    requires Parse(s.displayValue) == n as real / Pow10(k) as real
    ensures Step(s, PercentKey) == s.(displayValue := Render(Fixed(n, k + 2)))
  {
    HundredthOf(n, k);
    PercentShows(s, n, k + 2);
  }

  /** `%` on a shown fraction moves its point two places to the left. */
  lemma PercentShiftsPoint(s: State, n: nat, k: nat)
    requires 0 < k && k + 2 <= FractionDigits && n % 10 != 0
    requires s.displayValue == Render(Fixed(n, k))
    ensures Step(s, PercentKey) == s.(displayValue := Render(Fixed(n, k + 2)))
  {
    RenderFraction(n, k);
    PercentOfFraction(s, n, k);
  }

  lemma HundredthOf(n: nat, k: nat)
    ensures n as real / Pow10(k) as real / 100.0 == n as real / Pow10(k + 2) as real
  {
    var p := Pow10(k) as real;
    var q := Pow10(k + 2) as real;
    assert q == p * 100.0 by {
      Pow10Add(k, 2);
      ProductAsReal(Pow10(k), 100, Pow10(k + 2));
    }
    DivideTwice(n as real, p, 100.0, n as real / p, q);
  }

  lemma DivideTwice(x: real, a: real, b: real, y: real, ab: real)
    requires a > 0.0 && b > 0.0 && y == x / a && ab == a * b
    ensures y / b == x / ab
  {
  }

  lemma RenderHalf()
    ensures Render(Fixed(5, 1)) == "0.5"
  {
  }

  lemma RenderFiveThousandths()
    ensures Render(Fixed(5, 3)) == "0.005"
  {
  }

  /** A nonzero digit, `0`, `%` shows the digit's tenths. */
  lemma PercentOnce(d: nat)
    requires 0 < d < 10
    ensures Run(Initial, [DigitKey(DigitChar(d)), DigitKey(DigitChar(0)), PercentKey])
         == State(Render(Fixed(d, 1)), None, None, false)
  {
    var typed := [DigitKey(DigitChar(d)), DigitKey(DigitChar(0))];
    var once := [DigitKey(DigitChar(d)), DigitKey(DigitChar(0)), PercentKey];
    TypeTens(d);
    PercentOfTens(State(Digits(10 * d), None, None, false), d);
    RunLast(Initial, typed, PercentKey, once, State(Digits(10 * d), None, None, false),
            State(Render(Fixed(d, 1)), None, None, false));
  }

  /** A second `%` moves the point of the digit's tenths two more places. */
  lemma PercentAgain(d: nat)
    requires 0 < d < 10
    ensures Run(Initial, [DigitKey(DigitChar(d)), DigitKey(DigitChar(0)), PercentKey, PercentKey])
         == State(Render(Fixed(d, 3)), None, None, false)
  {
    var once := [DigitKey(DigitChar(d)), DigitKey(DigitChar(0)), PercentKey];
    var twice := [DigitKey(DigitChar(d)), DigitKey(DigitChar(0)), PercentKey, PercentKey];
    var tenths := State(Render(Fixed(d, 1)), None, None, false);
    PercentOnce(d);
    PercentShiftsPoint(tenths, d, 1);
    RunLast(Initial, once, PercentKey, twice, tenths, State(Render(Fixed(d, 3)), None, None, false));
  }

  /** `5 0 %` shows 0.5, and a second `%` shows 0.005. */
  lemma PercentTwice()
    ensures Run(Initial, [DigitKey(DigitChar(5)), DigitKey(DigitChar(0)), PercentKey])
              .displayValue == "0.5"
    ensures Run(Initial, [DigitKey(DigitChar(5)), DigitKey(DigitChar(0)), PercentKey, PercentKey])
              .displayValue == "0.005"
  {
    PercentOnce(5);
    PercentAgain(5);
    RenderHalf();
    RenderFiveThousandths();
  }
}
