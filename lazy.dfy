/** Deferred values of the lazy postfix calculator.

    A deferred value (the source's `Lazy`, a wrapped zero-argument closure) is
    modelled as the finite tree the calculator builds out of it: a leaf holds
    the integer a literal provider returns, and a node holds the binary
    operator that was registered for a token together with its two operands,
    still deferred.  Forcing a tree runs the operator, which decides by
    itself whether and how often it forces each operand.

    The only side effect any operator has is the `P` operator of the test
    driver, which appends a fixed word to an outside buffer; forcing therefore
    returns the integer together with the number of such appends ("effects").
*/
module LazyValue {

  /** The binary operators: the four built-ins and the ones the test driver
      registers ('!', ',', 'P', '$', '?', '1'). */
  datatype Op =
    | Plus        // '+' : a() + b()
    | Minus       // '-' : a() - b()
    | Multiply    // '*' : a() * b()
    | Divide      // '/' : a() / b(), truncating, traps on zero
    | Concat      // '!' : a() * 10 + b()
    | Then        // ',' : a(); return b()
    | Emit        // 'P' : appends to the buffer, returns 0, forces nothing
    | ManyTimes   // '$' : forces b exactly a() times, returns 0
    | IfThen      // '?' : a() ? b() : 0
    | ConstOne    // '1' : returns 1, forces nothing

  /** A deferred value, as the tree of closures it stands for. */
  datatype Lazy = Leaf(value: int) | Node(op: Op, a: Lazy, b: Lazy)

  /** What forcing a deferred value yields: its integer and the number of
      buffer appends it performed, or the host's division-by-zero trap. */
  datatype Forced = Value(value: int, effects: nat) | DivisionByZero

  function Abs(x: int): nat { if x < 0 then -x else x }

  function Max0(n: int): nat { if n < 0 then 0 else n }

  /** C++ integer division: the quotient is truncated toward zero. */
  function TruncDiv(x: int, y: int): int
    requires y != 0
  {
    var q := Abs(x) / Abs(y);
    if (x < 0) == (y < 0) then q else -q
  }

  /** The quotient satisfies the C++ rule: the remainder `x - q * y` is smaller
      than the divisor in magnitude and has the sign of the dividend. */
  lemma TruncDivIsTruncation(x: int, y: int)
    requires y != 0
    ensures var rem := x - TruncDiv(x, y) * y;
      Abs(rem) < Abs(y) && (rem == 0 || (rem < 0 <==> x < 0))
  {
    var q, m := Abs(x) / Abs(y), Abs(x) % Abs(y);
    assert Abs(x) == q * Abs(y) + m && 0 <= m < Abs(y);
    // In every sign case the product is the magnitude product with a sign.
    var p := TruncDiv(x, y) * y;
    NegatedProducts(q, Abs(y));
    if (x < 0) == (y < 0) {
      assert p == (if x < 0 then -(q * Abs(y)) else q * Abs(y));
    } else {
      assert p == (if x < 0 then -(q * Abs(y)) else q * Abs(y));
    }
  }

  lemma NegatedProducts(a: int, b: int)
    ensures (-a) * b == -(a * b) && a * (-b) == -(a * b) && (-a) * (-b) == a * b
  {
  }

  /** Effects `e` happen first, then the computation that produced `r`. */
  function After(e: nat, r: Forced): Forced
  {
    match r
    case DivisionByZero => DivisionByZero
    case Value(v, e2) => Value(v, e + e2)
  }

  /** Forcing one deferred value `n` times in a row, as the function that
      `operator*` returns does, discarding the values: nothing at all when
      `n <= 0`, otherwise one forcing and then the `n - 1` others; the first
      trap ends it. */
  function Repeated(n: int, once: Forced): Forced
    decreases Max0(n)
  {
    if n <= 0 then Value(0, 0)
    else match once
      case DivisionByZero => DivisionByZero
      case Value(_, e) => After(e, Repeated(n - 1, once))
  }

  /** In closed form: `max(n, 0)` times the effects of one forcing, or the
      trap as soon as there is at least one round. */
  lemma {:induction false} RepeatedClosedForm(n: int, once: Forced)
    ensures once.Value? ==> Repeated(n, once) == Value(0, Max0(n) * once.effects)
    ensures once.DivisionByZero? ==> Repeated(n, once) == (if n <= 0 then Value(0, 0) else DivisionByZero)
    decreases Max0(n)
  {
    if n > 0 && once.Value? {
      RepeatedClosedForm(n - 1, once);
      assert Max0(n) * once.effects == once.effects + Max0(n - 1) * once.effects;
    }
  }

  /** Invoking a deferred value.  Nothing is cached: every forcing of a
      subtree recomputes it and repeats its effects.  The operators other
      than 'P', '1', '?' and '$' force both operands once.  C++ leaves the
      order of the two calls in `a() + b()` and the like unspecified; the
      model forces the left one first, which changes neither the value nor
      the number of effects. */
  function Force(t: Lazy): Forced
  {
    match t
    case Leaf(v) => Value(v, 0)
    case Node(op, a, b) =>
      if op.Emit? then Value(0, 1)
      else if op.ConstOne? then Value(1, 0)
      else if op.IfThen? then
        var c := Force(a);
        if c.DivisionByZero? then DivisionByZero
        else if c.value == 0 then Value(0, c.effects)
        else
          var y := Force(b);
          if y.DivisionByZero? then DivisionByZero
          else Value(y.value, c.effects + y.effects)
      else if op.ManyTimes? then
        var n := Force(a);
        if n.DivisionByZero? then DivisionByZero
        else if n.value <= 0 then Value(0, n.effects)
        else
          var y := Force(b);
          if y.DivisionByZero? then DivisionByZero
          else Value(0, n.effects + n.value * y.effects)
      else
        var x := Force(a);
        var y := Force(b);
        if x.DivisionByZero? || y.DivisionByZero? then DivisionByZero
        else
          var e := x.effects + y.effects;
          if op.Plus? then Value(x.value + y.value, e)
          else if op.Minus? then Value(x.value - y.value, e)
          else if op.Multiply? then Value(x.value * y.value, e)
          else if op.Divide? then
            (if y.value == 0 then DivisionByZero else Value(TruncDiv(x.value, y.value), e))
          else if op.Concat? then Value(x.value * 10 + y.value, e)
          else Value(y.value, e)  // Then
  }

  /** `n * fn` followed by a call: a counting loop that forces `fn` once per
      round.  It performs exactly `max(n, 0)` forcings unless the first one
      traps, and its outcome is the recursive definition `Repeated`, whose
      closed form `RepeatedClosedForm` states. */
  method Repeat(n: int, fn: Lazy) returns (r: Forced, calls: nat)
    ensures r == Repeated(n, Force(fn))
    ensures r.Value? ==> r.value == 0 && calls == Max0(n)
    ensures r.Value? && Force(fn).Value? ==> r.effects == calls * Force(fn).effects
    ensures r.DivisionByZero? ==> calls == 1
  {
    RepeatedClosedForm(n, Force(fn));
    r := Value(0, 0);
    calls := 0;
    var i := 0;
    while i < n
      invariant 0 <= i <= Max0(n)
      invariant calls == i
      invariant r.Value? && r.value == 0 && r == Repeated(i, Force(fn))
    {
      var once := Force(fn);
      calls := calls + 1;
      if once.DivisionByZero? {
        return DivisionByZero, calls;
      }
      assert Repeated(i + 1, once) == After(once.effects, Repeated(i, once));
      r := Value(0, once.effects + r.effects);
      i := i + 1;
    }
  }

  /** 'P' forces neither operand: its result and its single effect do not
      depend on them. */
  lemma EmitForcesNothing(a: Lazy, b: Lazy, a2: Lazy, b2: Lazy)
    ensures Force(Node(Emit, a, b)) == Force(Node(Emit, a2, b2)) == Value(0, 1)
  {
  }

  /** '?' with a condition that forces to zero never forces its second
      operand: whatever that operand is, even one that traps, only the
      condition's effects happen. */
  lemma IfThenShortCircuits(c: Lazy, b: Lazy)
    requires Force(c).Value? && Force(c).value == 0
    ensures Force(Node(IfThen, c, b)) == Value(0, Force(c).effects)
  {
  }

  /** '?' with a non-zero condition yields its second operand, after the
      condition's effects. */
  lemma IfThenTaken(c: Lazy, b: Lazy)
    requires Force(c).Value? && Force(c).value != 0
    ensures Force(Node(IfThen, c, b)) == After(Force(c).effects, Force(b))
  {
  }

  /** '$' (`manytimes`) forces its count once and its second operand exactly
      `max(count, 0)` times, so the effects multiply. */
  lemma ManyTimesRepeatsEffects(n: Lazy, fn: Lazy)
    requires Force(n).Value? && Force(fn).Value?
    ensures Force(Node(ManyTimes, n, fn))
         == Value(0, Force(n).effects + Max0(Force(n).value) * Force(fn).effects)
  {
  }

  /** A '$' node behaves as the counting loop `Repeat` run on its second
      operand, after the count's own effects. */
  lemma ManyTimesIsRepeat(n: Lazy, fn: Lazy)
    requires Force(n).Value?
    ensures Force(Node(ManyTimes, n, fn)) == After(Force(n).effects, Repeated(Force(n).value, Force(fn)))
  {
    RepeatedClosedForm(Force(n).value, Force(fn));
  }

  /** A non-positive count means the second operand of '$' is never forced. */
  lemma ManyTimesSkipsOnNonPositive(n: Lazy, fn: Lazy)
    requires Force(n).Value? && Force(n).value <= 0
    ensures Force(Node(ManyTimes, n, fn)) == Value(0, Force(n).effects)
  {
  }

  /** Whether an `Emit` node occurs anywhere in the tree. */
  predicate MentionsEmit(t: Lazy)
  {
    match t
    case Leaf(_) => false
    case Node(op, a, b) => op.Emit? || MentionsEmit(a) || MentionsEmit(b)
  }

  /** The built-in operators have no side effects: a tree without `Emit`
      nodes forces without touching the buffer, however often `$` repeats. */
  lemma {:induction false} NoEmitNoEffects(t: Lazy)
    requires !MentionsEmit(t)
    ensures Force(t).Value? ==> Force(t).effects == 0
  {
    match t
    case Leaf(_) =>
    case Node(op, a, b) =>
      NoEmitNoEffects(a);
      NoEmitNoEffects(b);
  }

  /** The number of `Emit` nodes in a tree built only from literals, ','
      and 'P' nodes whose operands are literals. */
  predicate IsEmitChain(t: Lazy)
  {
    match t
    case Leaf(_) => true
    case Node(op, a, b) =>
      (op.Emit? && a.Leaf? && b.Leaf?) || (op.Then? && IsEmitChain(a) && IsEmitChain(b))
  }

  function EmitCount(t: Lazy): nat
  {
    match t
    case Leaf(_) => 0
    case Node(op, a, b) => if op.Emit? then 1 else EmitCount(a) + EmitCount(b)
  }

  /** ',' forces both operands once, so a chain of ',' over 'P' nodes
      performs exactly one append per 'P' node. */
  lemma {:induction false} EmitChainEffects(t: Lazy)
    requires IsEmitChain(t)
    ensures Force(t).Value? && Force(t).effects == EmitCount(t)
  {
    match t
    case Leaf(_) =>
    case Node(op, a, b) =>
      if op.Then? {
        EmitChainEffects(a);
        EmitChainEffects(b);
      }
  }
}
