/**
 What the nine operators compute, said of the evaluation of whole nodes and in terms of the integers
 alone: sums, differences and products up to multiples of 2^64, quotients by what multiplying back
 gives, relations by the order of the integers.
 */
module OperatorLaws {
  import opened Machine
  import opened Ast
  import opened Ir
  import opened Vm

  /** The operands evaluate to integers, the left one first; `next` POLLs are then consumed. */
  ghost predicate Operands(
    fuel: nat, env: Env, l: IrNode, r: IrNode, polls: Polls, k: nat, a: int, b: int, next: nat)
  {
    var left := Eval(fuel, env, l, polls, k);
    && left.Done? && left.value.Int? && left.value.n == a
    && var right := Eval(fuel, env, r, polls, left.next);
       right.Done? && right.value.Int? && right.value.n == b && right.next == next
  }

  /** An integer of 64 bits that differs from `exact` by a multiple of 2^64. */
  predicate IsExactUpToWrapping(o: Outcome, exact: int, next: nat) {
    && o.Done? && o.next == next && o.value.Int?
    && -0x8000_0000_0000_0000 <= o.value.n < 0x8000_0000_0000_0000
    && (o.value.n - exact) % 0x1_0000_0000_0000_0000 == 0
  }

  lemma {:induction false} SumsDifferencesAndProducts(
    fuel: nat, env: Env, l: IrNode, r: IrNode, polls: Polls, k: nat, a: int, b: int, next: nat)
    requires Operands(fuel, env, l, r, polls, k, a, b, next)
    ensures IsExactUpToWrapping(Eval(fuel, env, IrNode.Binary(Add, l, r), polls, k), a + b, next)
    ensures IsExactUpToWrapping(Eval(fuel, env, IrNode.Binary(Sub, l, r), polls, k), a - b, next)
    ensures IsExactUpToWrapping(Eval(fuel, env, IrNode.Binary(Mul, l, r), polls, k), a * b, next)
  {
    OfIntegers(fuel, env, Add, l, r, polls, k, a, b, next);
    OfIntegers(fuel, env, Sub, l, r, polls, k, a, b, next);
    OfIntegers(fuel, env, Mul, l, r, polls, k, a, b, next);
    WrappedIsExact(a + b, Operate(Add, Value.Int(a), Value.Int(b), next), next);
    WrappedIsExact(a - b, Operate(Sub, Value.Int(a), Value.Int(b), next), next);
    WrappedIsExact(a * b, Operate(Mul, Value.Int(a), Value.Int(b), next), next);
  }

  lemma {:induction false} WrappedIsExact(exact: int, o: Outcome, next: nat)
    requires o == Done(Value.Int(Wrap64(exact)), next)
    ensures IsExactUpToWrapping(o, exact, next)
  {
    WrappingIsCongruent(exact);
  }

  lemma {:induction false} OfIntegers(
    fuel: nat, env: Env, op: Op, l: IrNode, r: IrNode, polls: Polls, k: nat, a: int, b: int, next: nat)
    requires Operands(fuel, env, l, r, polls, k, a, b, next)
    ensures -TWO_TO_THE_63 <= a < TWO_TO_THE_63 && -TWO_TO_THE_63 <= b < TWO_TO_THE_63
    ensures Eval(fuel, env, IrNode.Binary(op, l, r), polls, k) == Operate(op, Value.Int(a), Value.Int(b), next)
  {
  }

  lemma WrappingIsCongruent(x: int)
    ensures (Wrap64(x) - x) % TWO_TO_THE_64 == 0
  {
    var q := (x + TWO_TO_THE_63) / TWO_TO_THE_64;
    assert Wrap64(x) - x == TWO_TO_THE_64 * -q;
    RemainderIs(Wrap64(x) - x, TWO_TO_THE_64, -q, 0);
  }

  /** `q` is `a` divided by `b` and rounded toward zero: what is left is smaller than `b` and of the sign of `a`. */
  predicate IsQuotient(q: int, a: int, b: int) {
    var rest := a - q * b;
    && (if b > 0 then -b < rest < b else b < rest < -b)
    && (rest > 0 ==> a > 0) && (rest < 0 ==> a < 0)
  }

  /**
   Division faults on 0 and stops the program on the one quotient that does not fit 64 bits; any other
   is the exact one.
   */
  lemma {:induction false} QuotientsRoundTowardZero(
    fuel: nat, env: Env, l: IrNode, r: IrNode, polls: Polls, k: nat, a: int, b: int, next: nat)
    requires Operands(fuel, env, l, r, polls, k, a, b, next)
    ensures var o := Eval(fuel, env, IrNode.Binary(Div, l, r), polls, k);
            if b == 0 then o == Fault(DivByZero, next)
            else if a == -0x8000_0000_0000_0000 && b == -1 then o == Abort(next)
            else o.Done? && o.next == next && o.value.Int? && IsQuotient(o.value.n, a, b)
  {
    OfIntegers(fuel, env, Div, l, r, polls, k, a, b, next);
    if b != 0 && !(a == MIN_INT64 && b == -1) {
      TruncationIsQuotient(a, b);
      QuotientsFit(a, b);
    }
  }

  lemma NegativeDivisors(n: int, m: int)
    requires n >= 0 && m > 0
    ensures n / -m == -(n / m)
  {
    var q, q' := n / m, n / -m;
    assert m * (q + q') == n % -m - n % m;
    Multiples(m, q + q');
  }

  /** A quotient is, but for its sign, the quotient of the magnitudes. */
  lemma MagnitudeOfTheQuotient(a: int, b: int, size: int, m: int)
    requires b != 0 && size == (if a >= 0 then a else -a) && m == if b > 0 then b else -b
    ensures TruncatedDiv(a, b) == if (a >= 0) == (b > 0) then size / m else -(size / m)
  {
    NegativeDivisors(size, m);
  }

  lemma TruncationIsQuotient(a: int, b: int)
    requires b != 0
    ensures IsQuotient(TruncatedDiv(a, b), a, b)
  {
    var size, m: int, t := if a >= 0 then a else -a, if b > 0 then b else -b, TruncatedDiv(a, b);
    MagnitudeOfTheQuotient(a, b, size, m);
    var q, r := size / m, size % m;
    DivisionLeavesLess(size, m, q, r);
    SignOfTheProduct(m, q, t, a, b);
    var product := t * b;
    assert product == if a >= 0 then size - r else r - size;
  }

  lemma DivisionLeavesLess(size: int, m: int, q: int, r: int)
    requires size >= 0 && m > 0 && q == size / m && r == size % m
    ensures m * q == size - r && 0 <= r < m && r <= size
  {
    if q < 0 {
      Multiples(m, q);
    } else if q > 0 {
      Multiples(m, q);
    }
  }

  lemma SignOfTheProduct(m: int, q: int, t: int, a: int, b: int)
    requires m == (if b > 0 then b else -b) && t == if (a >= 0) == (b > 0) then q else -q
    ensures t * b == if a >= 0 then m * q else -(m * q)
  {
    Signs(m, q);
  }

  lemma Signs(m: int, q: int)
    ensures q * m == m * q && -q * m == -(m * q) && q * -m == -(m * q) && -q * -m == m * q
  {
  }

  lemma QuotientsFit(a: Int64, b: int)
    requires b != 0 && !(a == MIN_INT64 && b == -1)
    ensures Wrap64(TruncatedDiv(a, b)) == TruncatedDiv(a, b)
  {
    var size: int, m: int := if a >= 0 then a as int else -(a as int), if b > 0 then b else -b;
    MagnitudeOfTheQuotient(a, b, size, m);
    QuotientsShrink(size, m, size / m);
    SmallStays64(TruncatedDiv(a, b));
  }

  lemma QuotientsShrink(size: int, m: int, q: int)
    requires size >= 0 && m > 0 && q == size / m
    ensures 0 <= q <= size && (m >= 2 ==> 2 * q <= size) && (m == 1 ==> q == size)
  {
    var r := size % m;
    DivisionLeavesLess(size, m, q, r);
    if q <= -1 {
      Multiples(m, q);
    } else if m >= 2 && q >= 1 {
      assert m * q == 2 * q + (m - 2) * q;
      Multiples(m - 2, q);
    }
  }

  lemma SmallStays64(x: int)
    requires -TWO_TO_THE_63 <= x < TWO_TO_THE_63
    ensures Wrap64(x) == x
  {
    RemainderIs(x + TWO_TO_THE_63, TWO_TO_THE_64, 0, x + TWO_TO_THE_63);
  }

  /** The answer "true" is Left of 0, "false" is Right of 0. */
  predicate Answers(o: Outcome, holds: bool, next: nat) {
    o == Done(if holds then Value.Left(Value.Int(0)) else Value.Right(Value.Int(0)), next)
  }

  lemma {:induction false} RelationsCompareTheIntegers(
    fuel: nat, env: Env, l: IrNode, r: IrNode, polls: Polls, k: nat, a: int, b: int, next: nat)
    requires Operands(fuel, env, l, r, polls, k, a, b, next)
    ensures Answers(Eval(fuel, env, IrNode.Binary(Eq, l, r), polls, k), a == b, next)
    ensures Answers(Eval(fuel, env, IrNode.Binary(Gt, l, r), polls, k), a > b, next)
    ensures Answers(Eval(fuel, env, IrNode.Binary(Lt, l, r), polls, k), a < b, next)
    ensures Answers(Eval(fuel, env, IrNode.Binary(Ge, l, r), polls, k), a >= b, next)
    ensures Answers(Eval(fuel, env, IrNode.Binary(Le, l, r), polls, k), a <= b, next)
  {
    forall op: Op ensures Eval(fuel, env, IrNode.Binary(op, l, r), polls, k) ==
                           Operate(op, Value.Int(a), Value.Int(b), next) {
      OfIntegers(fuel, env, op, l, r, polls, k, a, b, next);
    }
  }

  /** Both operands are evaluated before either is looked at; one that is no integer is the operator's own fault. */
  lemma {:induction false} OtherOperandsFault(
    fuel: nat, env: Env, op: Op, l: IrNode, r: IrNode, polls: Polls, k: nat)
    requires var left := Eval(fuel, env, l, polls, k);
             && left.Done?
             && var right := Eval(fuel, env, r, polls, left.next);
                right.Done? && !(left.value.Int? && right.value.Int?)
    ensures var right := Eval(fuel, env, r, polls, Eval(fuel, env, l, polls, k).next);
            Eval(fuel, env, IrNode.Binary(op, l, r), polls, k) ==
            Fault(if op in {Add, Sub, Mul, Div} then MathRequiresInt else RelationRequiresInt(op), right.next)
  {
    assert op.Arithmetic() <==> op in {Add, Sub, Mul, Div};
  }

  /**
   The name POLL is the next answer of the network, whatever the environment says of it: no binding hides
   it, and two of them in a pair are two answers, the left one first.
   */
  lemma {:induction false} PollsComeInOrder(fuel: nat, env: Env, val: IrNode, polls: Polls, k: nat)
    ensures Eval(fuel, env, IrNode.Pair(IrNode.Var("POLL"), IrNode.Var("POLL")), polls, k) ==
            Done(Value.Pair(Value.Int(polls(k)), Value.Int(polls(k + 1))), k + 2)
    ensures Eval(fuel, env, val, polls, k).Done? ==>
              var next := Eval(fuel, env, val, polls, k).next;
              Eval(fuel, env, IrNode.Let("POLL", val, IrNode.Var("POLL")), polls, k) ==
              Done(Value.Int(polls(next)), next + 1)
  {
    var one := Eval(fuel, env, IrNode.Var("POLL"), polls, k);
    var two := Eval(fuel, env, IrNode.Var("POLL"), polls, k + 1);
    assert one == Done(Value.Int(polls(k)), k + 1) && two == Done(Value.Int(polls(k + 1)), k + 2);
  }

  /** Each form has its own fault for a value that it cannot take apart, and so has a name that is not bound. */
  lemma {:induction false} OtherFormsFault(
    fuel: nat, env: Env, first: IrNode, second: IrNode, third: IrNode, x: string, y: string, polls: Polls, k: nat)
    requires Eval(fuel, env, first, polls, k).Done?
    ensures var v, next := Eval(fuel, env, first, polls, k).value, Eval(fuel, env, first, polls, k).next;
            && (!v.Left? && !v.Right? ==>
                  Eval(fuel, env, IrNode.Match(first, x, second, y, third), polls, k) ==
                  Fault(MatchRequiresEither, next))
            && (!v.Pair? ==>
                  Eval(fuel, env, IrNode.Unpack(x, y, first, second), polls, k) == Fault(UnpackRequiresPair, next))
            && (!v.Closure? && Eval(fuel, env, second, polls, next).Done? ==>
                  Eval(fuel, env, IrNode.App(first, second), polls, k) ==
                  Fault(AppOnNonClosure, Eval(fuel, env, second, polls, next).next))
    ensures x !in env && x != "POLL" ==> Eval(fuel, env, IrNode.Var(x), polls, k) == Fault(UnboundVariable(x), k)
  {
    var v, next := Eval(fuel, env, first, polls, k).value, Eval(fuel, env, first, polls, k).next;
    if !v.Left? && !v.Right? {
      MatchFaults(fuel, env, first, second, third, x, y, polls, k, v, next);
    }
    if !v.Pair? {
      UnpackFaults(fuel, env, first, second, x, y, polls, k, v, next);
    }
    if !v.Closure? && Eval(fuel, env, second, polls, next).Done? {
      ApplicationFaults(fuel, env, first, second, polls, k, v, next);
    }
  }

  lemma {:induction false} MatchFaults(
    fuel: nat, env: Env, first: IrNode, second: IrNode, third: IrNode, x: string, y: string, polls: Polls, k: nat,
    v: Value, next: nat)
    requires Eval(fuel, env, first, polls, k) == Done(v, next) && !v.Left? && !v.Right?
    ensures Eval(fuel, env, IrNode.Match(first, x, second, y, third), polls, k) == Fault(MatchRequiresEither, next)
  {
  }

  lemma {:induction false} UnpackFaults(
    fuel: nat, env: Env, first: IrNode, second: IrNode, x: string, y: string, polls: Polls, k: nat, v: Value, next: nat)
    requires Eval(fuel, env, first, polls, k) == Done(v, next) && !v.Pair?
    ensures Eval(fuel, env, IrNode.Unpack(x, y, first, second), polls, k) == Fault(UnpackRequiresPair, next)
  {
  }

  lemma {:induction false} ApplicationFaults(
    fuel: nat, env: Env, first: IrNode, second: IrNode, polls: Polls, k: nat, v: Value, next: nat)
    requires Eval(fuel, env, first, polls, k) == Done(v, next) && !v.Closure?
    requires Eval(fuel, env, second, polls, next).Done?
    ensures Eval(fuel, env, IrNode.App(first, second), polls, k) ==
            Fault(AppOnNonClosure, Eval(fuel, env, second, polls, next).next)
  {
    var arg := Eval(fuel, env, second, polls, next);
    assert Call(fuel, v, arg.value, polls, arg.next) == Fault(AppOnNonClosure, arg.next);
  }
}
