/** The keypad logic of `StandardCalculator`. Numbers are an uninterpreted
    type `N`: reading the display (`parseFloat`), writing a number back
    (`String`) and the four operations are functions supplied by the caller,
    so only the control logic is modelled. */
module Calc {
  import opened Wrappers

  datatype Operator = Div | Mul | Add | Sub

  /** How numbers are read from the display, written to it and combined. */
  datatype Arith<!N> = Arith(parse: string -> N, show: N -> string, apply: (Operator, N, N) -> N)

  /** The four pieces of keypad state. */
  datatype Keypad<N> = Keypad(display: string, currentValue: Option<N>, operator: Option<Operator>, waitingForOperand: bool)

  /** The state on mounting and after "AC". */
  function Initial<N>(): Keypad<N>
  {
    Keypad("0", None, None, false)
  }

  /** A value is stored exactly when an operation is pending. */
  predicate Consistent<N>(k: Keypad<N>) {
    k.currentValue.Some? <==> k.operator.Some?
  }

  /** The number of decimal points in a display. */
  function DotCount(s: string): nat
  {
    if s == [] then 0 else DotCount(s[..|s| - 1]) + if s[|s| - 1] == '.' then 1 else 0
  }

  lemma {:induction false} DotCountZero(s: string)
    ensures DotCount(s) == 0 <==> '.' !in s
  {
    if s != [] {
      DotCountZero(s[..|s| - 1]);
      assert s == s[..|s| - 1] + [s[|s| - 1]];
    }
  }

  /** `handleDigitClick`. */
  function AfterDigit<N>(k: Keypad<N>, digit: char): Keypad<N>
  {
    if k.waitingForOperand then k.(display := [digit], waitingForOperand := false)
    else k.(display := if k.display == "0" then [digit] else k.display + [digit])
  }

  /** `performCalculation`: the pending operation applied to the stored value
      and the display, or the display alone when nothing is pending. */
  function Calculate<N>(ar: Arith<N>, k: Keypad<N>): N
  {
    if k.currentValue.None? || k.operator.None? then ar.parse(k.display)
    else ar.apply(k.operator.value, k.currentValue.value, ar.parse(k.display))
  }

  /** `handleOperatorClick(next)`. */
  function AfterOperator<N>(ar: Arith<N>, k: Keypad<N>, next: Operator): Keypad<N>
  {
    var k' :=
      if k.currentValue.None? then k.(currentValue := Some(ar.parse(k.display)))
      else if k.operator.Some? then
        var result := Calculate(ar, k);
        k.(currentValue := Some(result), display := ar.show(result))
      else k;
    k'.(waitingForOperand := true, operator := Some(next))
  }

  /** `handleEquals`. */
  function AfterEquals<N>(ar: Arith<N>, k: Keypad<N>): Keypad<N>
  {
    if k.operator.Some? then
      Keypad(ar.show(Calculate(ar, k)), None, None, true)
    else k
  }

  /** `handleDecimal`. */
  function AfterDecimal<N>(k: Keypad<N>): Keypad<N>
  {
    if '.' in k.display then k else k.(display := k.display + ".")
  }

  /** A digit typed while an operand is awaited starts a new display holding
      just that digit and ends the wait; the stored value and operator stay. */
  lemma DigitWhileWaiting<N>(k: Keypad<N>, digit: char)
    requires k.waitingForOperand
    ensures var k' := AfterDigit(k, digit);
      && k'.display == [digit] && !k'.waitingForOperand
      && k'.currentValue == k.currentValue && k'.operator == k.operator
  {
  }

  /** Otherwise the digit goes after what is shown, except that a lone "0" is
      replaced; nothing but the display changes. */
  lemma DigitAppends<N>(k: Keypad<N>, digit: char)
    requires !k.waitingForOperand
    ensures var k' := AfterDigit(k, digit);
      && k'.display[|k'.display| - 1] == digit
      && (k.display != "0" ==> |k'.display| == |k.display| + 1 && k'.display[..|k.display|] == k.display)
      && (k.display == "0" ==> k'.display == [digit])
      && k'.currentValue == k.currentValue && k'.operator == k.operator && !k'.waitingForOperand
  {
  }

  /** Typing the digits one key at a time. */
  function TypeDigits<N>(k: Keypad<N>, ds: string): Keypad<N>
  {
    if ds == [] then k else AfterDigit(TypeDigits(k, ds[..|ds| - 1]), ds[|ds| - 1])
  }

  /** Starting from a fresh display (a lone "0", or one awaiting an operand),
      typing a string of digits that does not start with '0' shows exactly
      that string. */
  lemma {:induction false} TypedNumberShown<N>(k: Keypad<N>, ds: string)
    requires k.waitingForOperand || k.display == "0"
    requires ds != [] && ds[0] != '0'
    ensures TypeDigits(k, ds).display == ds
    ensures !TypeDigits(k, ds).waitingForOperand
  {
    if |ds| > 1 {
      var pre := ds[..|ds| - 1];
      TypedNumberShown(k, pre);
      assert pre != "0";
      assert ds == pre + [ds[|ds| - 1]];
    } else {
      assert ds == [ds[0]];
      assert TypeDigits(k, ds) == AfterDigit(k, ds[0]);
    }
  }

  /** The decimal key: afterwards the display has a point, the old display is
      kept as a prefix, and at most one point was added (exactly one when there
      was none). */
  lemma DecimalEffect<N>(k: Keypad<N>)
    ensures var d := AfterDecimal(k).display;
      && '.' in d && d[..|k.display|] == k.display
      && DotCount(d) == (if DotCount(k.display) == 0 then 1 else DotCount(k.display))
      && |d| <= |k.display| + 1
  {
    DotCountZero(k.display);
    var d := AfterDecimal(k).display;
    if '.' !in k.display {
      assert d[..|d| - 1] == k.display;
    }
  }

  /** Pressing the decimal key twice is the same as pressing it once. */
  lemma DecimalIdempotent<N>(k: Keypad<N>)
    ensures AfterDecimal(AfterDecimal(k)) == AfterDecimal(k)
  {
    var d := AfterDecimal(k).display;
    if '.' !in k.display {
      assert d[|d| - 1] == '.';
    }
  }

  /** Digit and decimal keys never give a display a second point. */
  lemma {:induction false} KeysKeepOnePoint<N>(k: Keypad<N>, digit: char)
    requires DotCount(k.display) <= 1 && digit != '.'
    ensures DotCount(AfterDigit(k, digit).display) <= 1
    ensures DotCount(AfterDecimal(k).display) <= 1
  {
    DecimalEffect(k);
    var d := AfterDigit(k, digit).display;
    if !k.waitingForOperand && k.display != "0" {
      assert d[..|d| - 1] == k.display;
    } else {
      assert d[..0] == [];
    }
  }

  /** With nothing pending the calculation is just the display read as a number. */
  lemma CalculateWithoutPending<N>(ar: Arith<N>, k: Keypad<N>)
    requires k.currentValue.None? || k.operator.None?
    ensures Calculate(ar, k) == ar.parse(k.display)
  {
  }

  /** An operator key always ends awaiting an operand with the new operator
      pending. With no stored value it stores the display's number; with a
      stored value and a pending operator it stores and shows the result of
      that operation. */
  lemma OperatorEffect<N>(ar: Arith<N>, k: Keypad<N>, next: Operator)
    ensures var k' := AfterOperator(ar, k, next);
      && k'.waitingForOperand && k'.operator == Some(next) && k'.currentValue.Some?
      && (k.currentValue.None? ==> k'.currentValue == Some(ar.parse(k.display)) && k'.display == k.display)
      && (k.currentValue.Some? && k.operator.Some? ==>
            var v := ar.apply(k.operator.value, k.currentValue.value, ar.parse(k.display));
            k'.currentValue == Some(v) && k'.display == ar.show(v))
  {
  }

  /** Two operator keys in a row after a number: the second applies the first
      operator to the displayed number again, so the display's number is
      combined with itself. */
  lemma RepeatedOperatorReapplies<N>(ar: Arith<N>, k: Keypad<N>, first: Operator, second: Operator)
    requires k.currentValue.None?
    ensures var v := ar.parse(k.display);
      var k' := AfterOperator(ar, AfterOperator(ar, k, first), second);
      && k'.currentValue == Some(ar.apply(first, v, ar.parse(k.display)))
      && k'.display == ar.show(ar.apply(first, v, ar.parse(k.display)))
      && k'.operator == Some(second) && k'.waitingForOperand
  {
  }

  /** Equals with nothing pending does nothing; with an operator pending it
      shows the result, clears the stored value and operator and awaits an
      operand. */
  lemma EqualsEffect<N>(ar: Arith<N>, k: Keypad<N>)
    ensures k.operator.None? ==> AfterEquals(ar, k) == k
    ensures k.operator.Some? ==>
      var k' := AfterEquals(ar, k);
      && k'.currentValue.None? && k'.operator.None? && k'.waitingForOperand
      && (k.currentValue.Some? ==>
            k'.display == ar.show(ar.apply(k.operator.value, k.currentValue.value, ar.parse(k.display))))
      && (k.currentValue.None? ==> k'.display == ar.show(ar.parse(k.display)))
  {
  }

  /** Pressing equals twice is the same as pressing it once. */
  lemma EqualsIdempotent<N>(ar: Arith<N>, k: Keypad<N>)
    ensures AfterEquals(ar, AfterEquals(ar, k)) == AfterEquals(ar, k)
  {
  }

  /** Every key keeps a value stored exactly when an operator is pending. */
  lemma KeysKeepConsistent<N>(ar: Arith<N>, k: Keypad<N>, digit: char, next: Operator)
    requires Consistent(k)
    ensures Consistent(AfterDigit(k, digit))
    ensures Consistent(AfterOperator(ar, k, next))
    ensures Consistent(AfterEquals(ar, k))
    ensures Consistent(AfterDecimal(k))
  {
  }

  /** The calculator component: its state fields and one method per key handler. */
  class StandardCalculator<N> {
    const ar: Arith<N>
    var display: string
    var currentValue: Option<N>
    var operator: Option<Operator>
    var waitingForOperand: bool

    /** The four fields as one value. */
    function State(): Keypad<N>
      reads this
    {
      Keypad(display, currentValue, operator, waitingForOperand)
    }

    ghost predicate Valid()
      reads this
    {
      Consistent(State())
    }

    constructor (ar: Arith<N>)
      ensures this.ar == ar
      ensures State() == Initial() && Valid()
    {
      this.ar := ar;
      display := "0";
      currentValue := None;
      operator := None;
      waitingForOperand := false;
    }

    method HandleDigitClick(digit: char)
      requires Valid()
      modifies this
      ensures Valid()
      ensures State() == AfterDigit(old(State()), digit)
    {
      if waitingForOperand {
        display := [digit];
        waitingForOperand := false;
      } else {
        display := if display == "0" then [digit] else display + [digit];
      }
    }

    /** The imperative form of `Calculate` on the current state. */
    method PerformCalculation() returns (r: N)
      ensures r == Calculate(ar, State())
    {
      var inputValue := ar.parse(display);
      if currentValue.None? || operator.None? {
        return inputValue;
      }
      r := ar.apply(operator.value, currentValue.value, inputValue);
    }

    method HandleOperatorClick(nextOperator: Operator)
      requires Valid()
      modifies this
      ensures Valid()
      ensures State() == AfterOperator(ar, old(State()), nextOperator)
    {
      var inputValue := ar.parse(display);
      if currentValue.None? {
        currentValue := Some(inputValue);
      } else if operator.Some? {
        var result := PerformCalculation();
        currentValue := Some(result);
        display := ar.show(result);
      }
      waitingForOperand := true;
      operator := Some(nextOperator);
    }

    method HandleEquals()
      requires Valid()
      modifies this
      ensures Valid()
      ensures State() == AfterEquals(ar, old(State()))
    {
      if operator.Some? {
        var result := PerformCalculation();
        currentValue := None;
        display := ar.show(result);
        operator := None;
        waitingForOperand := true;
      }
    }

    method HandleClear()
      modifies this
      ensures Valid()
      ensures State() == Initial()
    {
      display := "0";
      currentValue := None;
      operator := None;
      waitingForOperand := false;
    }

    method HandleDecimal()
      requires Valid()
      modifies this
      ensures Valid()
      ensures State() == AfterDecimal(old(State()))
    {
      if '.' !in display {
        display := display + ".";
      }
    }
  }
}
