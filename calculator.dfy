/** The calculator: a registry that maps single-character tokens to literal
    providers or binary operators, and a stack machine that turns a postfix
    string into one deferred value without forcing anything.

    The registry is first described as a value (`Registry`, with the pure
    operations `Define` and `DefineLiteral`), and the stack machine as the pure
    functions `Step`, `Run` and `ParseSpec`.  The class `LazyCalculator` then
    keeps the source's state (four dense arrays of 128 entries and the
    evaluation stack, which lives on between calls) and its methods are proved
    to behave as those functions say.
*/
module Calculator {
  import opened LazyValue

  /** The size of the token alphabet: tokens index the arrays by code. */
  const SIGNS: int := 128

  predicate IsToken(c: char) { c as int < SIGNS }

  predicate AllTokens(s: string) { forall i :: 0 <= i < |s| ==> IsToken(s[i]) }

  /** The three exception classes of the calculator. */
  datatype Error = SyntaxError | UnknownOperator | OperatorAlreadyDefined

  datatype Option<T> = None | Some(value: T)

  datatype Result<T> = Ok(value: T) | Err(error: Error)

  /** A call that returns nothing on success or throws. */
  datatype Status = Done | Failed(error: Error)

  /** The registry's four arrays.  An entry of `functions` or `literals` is
      `None` until something is stored in it (a default-constructed, empty
      `std::function`); the flags say which entries are defined. */
  datatype Registry = Registry(
    functions: seq<Option<Op>>,
    literals: seq<Option<int>>,
    isFunction: seq<bool>,
    isLiteral: seq<bool>)
  {
    predicate Valid()
    {
      |functions| == SIGNS && |literals| == SIGNS && |isFunction| == SIGNS && |isLiteral| == SIGNS
    }

    /** Every entry whose flag is set holds a behaviour. */
    predicate Consistent()
      requires Valid()
    {
      (forall i :: 0 <= i < SIGNS && isFunction[i] ==> functions[i].Some?)
      && (forall i :: 0 <= i < SIGNS && isLiteral[i] ==> literals[i].Some?)
    }

    /** The two stores of `define`: the behaviour and the function flag. */
    function StoreFunction(c: char, op: Op): (r: Registry)
      requires Valid() && IsToken(c)
      ensures r.Valid()
    {
      this.(functions := functions[c as int := Some(op)], isFunction := isFunction[c as int := true])
    }

    /** The two stores of `define_literal`. */
    function StoreLiteral(c: char, v: int): (r: Registry)
      requires Valid() && IsToken(c)
      ensures r.Valid()
    {
      this.(literals := literals[c as int := Some(v)], isLiteral := isLiteral[c as int := true])
    }

    /** `define`: refused when the token is already a function or a literal. */
    function Define(c: char, op: Op): Result<Registry>
      requires Valid() && IsToken(c)
    {
      if isFunction[c as int] || isLiteral[c as int] then Err(OperatorAlreadyDefined)
      else Ok(StoreFunction(c, op))
    }

    /** `define_literal`: refused only when the token is already a literal. */
    function DefineLiteral(c: char, v: int): Result<Registry>
      requires Valid() && IsToken(c)
    {
      if isLiteral[c as int] then Err(OperatorAlreadyDefined)
      else Ok(StoreLiteral(c, v))
    }
  }

  /** How `doOperation` dispatches a token: the literal flag is checked first.
      (A set flag over an empty entry cannot occur in a consistent registry.)
      A character outside the token range indexes past the arrays in the
      source; the functions here treat it as undefined, and the methods of
      `LazyCalculator` do not accept it. */
  datatype Entry = Literal(value: int) | Function(op: Op) | Undefined

  function Kind(r: Registry, c: char): Entry
    requires r.Valid()
  {
    var i := c as int;
    if !IsToken(c) then Undefined
    else if r.isLiteral[i] && r.literals[i].Some? then Literal(r.literals[i].value)
    else if r.isFunction[i] && r.functions[i].Some? then Function(r.functions[i].value)
    else Undefined
  }

  /** The registry right after the flag-clearing loops of the constructor. */
  function Empty(): (r: Registry)
    ensures r.Valid() && r.Consistent()
  {
    Registry(seq(SIGNS, _ => None), seq(SIGNS, _ => None), seq(SIGNS, _ => false), seq(SIGNS, _ => false))
  }

  /** The registry after the constructor's three `define_literal` calls:
      '0', '2' and '4' stand for 0, 2 and 4. */
  function DefaultLiterals(): (r: Registry)
    ensures r.Valid()
  {
    Empty().StoreLiteral('0', 0).StoreLiteral('2', 2).StoreLiteral('4', 4)
  }

  /** The registry the constructor leaves: the default literals and then the
      operators '+' '-' '*' '/'. */
  function Defaults(): (r: Registry)
    ensures r.Valid()
  {
    DefaultLiterals().StoreFunction('+', Plus).StoreFunction('-', Minus)
      .StoreFunction('*', Multiply).StoreFunction('/', Divide)
  }

  /** Both stores keep every set flag backed by a stored behaviour. */
  lemma StoresKeepConsistent(r: Registry, c: char, op: Op, v: int)
    requires r.Valid() && r.Consistent() && IsToken(c)
    ensures r.StoreFunction(c, op).Consistent() && r.StoreLiteral(c, v).Consistent()
  {
  }

  /** Storing a function for `c` changes the dispatch of `c` alone, and
      makes it that function unless a literal shadows it. */
  lemma StoreFunctionDispatch(r: Registry, c: char, op: Op)
    requires r.Valid() && IsToken(c)
    ensures !Kind(r, c).Literal? ==> Kind(r.StoreFunction(c, op), c) == Function(op)
    ensures Kind(r, c).Literal? ==> Kind(r.StoreFunction(c, op), c) == Kind(r, c)
    ensures forall d :: d != c ==> Kind(r.StoreFunction(c, op), d) == Kind(r, d)
  {
    forall d | d != c
      ensures Kind(r.StoreFunction(c, op), d) == Kind(r, d)
    {
      assert IsToken(d) ==> d as int != c as int;
    }
  }

  /** Storing a literal for `c` changes the dispatch of `c` alone, and makes
      it that literal. */
  lemma StoreLiteralDispatch(r: Registry, c: char, v: int)
    requires r.Valid() && IsToken(c)
    ensures Kind(r.StoreLiteral(c, v), c) == Literal(v)
    ensures forall d :: d != c ==> Kind(r.StoreLiteral(c, v), d) == Kind(r, d)
  {
    forall d | d != c
      ensures Kind(r.StoreLiteral(c, v), d) == Kind(r, d)
    {
      assert IsToken(d) ==> d as int != c as int;
    }
  }

  /** `define` succeeds exactly on tokens that are neither literal nor
      function; it then makes the token a function bound to `op` and changes
      the dispatch of no other token. */
  lemma DefineOnlyBindsFreshTokens(r: Registry, c: char, op: Op)
    requires r.Valid() && r.Consistent() && IsToken(c)
    ensures r.Define(c, op).Ok? <==> Kind(r, c).Undefined?
    ensures r.Define(c, op).Err? ==> r.Define(c, op).error == OperatorAlreadyDefined
    ensures r.Define(c, op).Ok? ==>
      var r2 := r.Define(c, op).value;
      Kind(r2, c) == Function(op)
      && r2.literals == r.literals && r2.isLiteral == r.isLiteral
      && (forall d :: d != c ==> Kind(r2, d) == Kind(r, d))
  {
    if r.Define(c, op).Ok? {
      var r2 := r.Define(c, op).value;
      forall d | d != c
        ensures Kind(r2, d) == Kind(r, d)
      {
        assert d as int != c as int;
      }
    }
  }

  /** `define_literal` is refused only for a token that is already a literal:
      a token defined as a function can still become a literal, and from then
      on it dispatches as that literal, because the literal flag is checked
      first.  No other token changes. */
  lemma DefineLiteralShadowsFunctions(r: Registry, c: char, v: int)
    requires r.Valid() && r.Consistent() && IsToken(c)
    ensures r.DefineLiteral(c, v).Ok? <==> !Kind(r, c).Literal?
    ensures r.DefineLiteral(c, v).Ok? ==>
      var r2 := r.DefineLiteral(c, v).value;
      Kind(r2, c) == Literal(v)
      && r2.functions == r.functions && r2.isFunction == r.isFunction
      && (forall d :: d != c ==> Kind(r2, d) == Kind(r, d))
  {
    if r.DefineLiteral(c, v).Ok? {
      var r2 := r.DefineLiteral(c, v).value;
      forall d | d != c
        ensures Kind(r2, d) == Kind(r, d)
      {
        assert d as int != c as int;
      }
    }
  }

  /** Registration is write-once: a defined token stays defined, and a stored
      function is never replaced.  This is why a deferred node may keep the
      operator it found when it was pushed, although the source's closure
      looks `functions[c]` up again only when it is forced. */
  lemma RegistrationIsWriteOnce(r: Registry, c: char, op: Op, v: int, d: char)
    requires r.Valid() && IsToken(c) && IsToken(d)
    ensures r.Define(c, op).Ok? ==> Stable(r, r.Define(c, op).value, d)
    ensures r.DefineLiteral(c, v).Ok? ==> Stable(r, r.DefineLiteral(c, v).value, d)
  {
    if r.Define(c, op).Ok? && d == c {
      assert !r.isFunction[c as int];
    }
  }

  /** What write-once registration guarantees for one token `d`. */
  predicate Stable(r: Registry, r2: Registry, d: char)
    requires r.Valid() && r2.Valid() && IsToken(d)
  {
    var i := d as int;
    (!Kind(r, d).Undefined? ==> !Kind(r2, d).Undefined?)
    && (r.isFunction[i] ==> r2.isFunction[i] && r2.functions[i] == r.functions[i])
    && (r.isLiteral[i] ==> r2.isLiteral[i] && r2.literals[i] == r.literals[i])
  }

  /** The seven tokens the constructor installs. */
  predicate IsDefaultToken(c: char)
  {
    c == '0' || c == '2' || c == '4' || c == '+' || c == '-' || c == '*' || c == '/'
  }

  /** The constructor registers the seven default tokens ... */
  lemma DefaultTokens()
    ensures Kind(Defaults(), '0') == Literal(0)
    ensures Kind(Defaults(), '2') == Literal(2)
    ensures Kind(Defaults(), '4') == Literal(4)
    ensures Kind(Defaults(), '+') == Function(Plus)
    ensures Kind(Defaults(), '-') == Function(Minus)
    ensures Kind(Defaults(), '*') == Function(Multiply)
    ensures Kind(Defaults(), '/') == Function(Divide)
  {
  }

  /** ... and no other. */
  lemma DefaultsDefineNothingElse(c: char)
    requires !IsDefaultToken(c)
    ensures Kind(Defaults(), c) == Undefined
  {
  }

  // ---------------------------------------------------------------------------
  // The stack machine as functions.  The top of the stack is the last element.

  /** A literal token pushes one deferred value. */
  function Push(stack: seq<Lazy>, t: Lazy): seq<Lazy>
  {
    stack + [t]
  }

  /** A function token pops `b` (the top) and then `a`, and pushes the
      deferred node `op(a, b)`. */
  function Combine(stack: seq<Lazy>, op: Op): seq<Lazy>
    requires |stack| >= 2
  {
    stack[..|stack| - 2] + [Node(op, stack[|stack| - 2], stack[|stack| - 1])]
  }

  /** `doOperation` for one token.  On failure the stack is as it was. */
  function Step(r: Registry, stack: seq<Lazy>, c: char): Result<seq<Lazy>>
    requires r.Valid()
  {
    match Kind(r, c)
    case Literal(v) => Ok(Push(stack, Leaf(v)))
    case Function(op) => if |stack| < 2 then Err(SyntaxError) else Ok(Combine(stack, op))
    case Undefined => Err(UnknownOperator)
  }

  /** A literal pushes exactly one deferred value; a function pops `b` (the
      top) and then `a`, pushes one deferred node over them and leaves what
      lies below untouched; an undefined token fails whatever the stack
      holds; only an operator on fewer than two elements is a syntax error. */
  lemma StepMovesTheStack(r: Registry, stack: seq<Lazy>, c: char)
    requires r.Valid()
    ensures Kind(r, c).Literal? ==> Step(r, stack, c) == Ok(stack + [Leaf(Kind(r, c).value)])
    ensures Kind(r, c).Function? && |stack| >= 2 ==>
      var n := |stack|;
      var s2 := Step(r, stack, c);
      s2.Ok? && |s2.value| == n - 1 && s2.value[..n - 2] == stack[..n - 2]
      && s2.value[n - 2] == Node(Kind(r, c).op, stack[n - 2], stack[n - 1])
    ensures Step(r, stack, c) == Err(SyntaxError) <==> Kind(r, c).Function? && |stack| < 2
    ensures Step(r, stack, c) == Err(UnknownOperator) <==> Kind(r, c).Undefined?
  {
  }

  /** The `for_each` over the input from position `i` on: stops at the first
      token that fails and reports the stack as that token left it. */
  function Run(r: Registry, stack: seq<Lazy>, s: string, i: nat): (Status, seq<Lazy>)
    requires r.Valid() && i <= |s|
    decreases |s| - i
  {
    if i == |s| then (Done, stack)
    else match Step(r, stack, s[i])
      case Err(e) => (Failed(e), stack)
      case Ok(next) => Run(r, next, s, i + 1)
  }

  /** A run advances one token at a time: a literal token pushes its
      value, and a function token over at least two elements combines the
      top two; every other token ends the run with the stack untouched. */
  lemma RunLiteral(r: Registry, stack: seq<Lazy>, s: string, i: nat, v: int)
    requires r.Valid() && i < |s| && Kind(r, s[i]) == Literal(v)
    ensures Run(r, stack, s, i) == Run(r, Push(stack, Leaf(v)), s, i + 1)
  {
  }

  lemma RunFunction(r: Registry, stack: seq<Lazy>, s: string, i: nat, op: Op)
    requires r.Valid() && i < |s| && Kind(r, s[i]) == Function(op) && |stack| >= 2
    ensures Run(r, stack, s, i) == Run(r, Combine(stack, op), s, i + 1)
  {
  }

  lemma RunStops(r: Registry, stack: seq<Lazy>, s: string, i: nat)
    requires r.Valid() && i < |s|
    ensures Kind(r, s[i]).Undefined? ==> Run(r, stack, s, i) == (Failed(UnknownOperator), stack)
    ensures Kind(r, s[i]).Function? && |stack| < 2 ==> Run(r, stack, s, i) == (Failed(SyntaxError), stack)
  {
  }

  /** `parse`: after the run exactly one element must remain; it is popped
      and returned unforced.  The second component is the stack afterwards,
      which a failed call does not clear. */
  function ParseSpec(r: Registry, stack: seq<Lazy>, s: string): (Result<Lazy>, seq<Lazy>)
    requires r.Valid()
  {
    var (status, left) := Run(r, stack, s, 0);
    if status.Failed? then (Err(status.error), left)
    else if |left| != 1 then (Err(SyntaxError), left)
    else (Ok(left[0]), [])
  }

  /** `calculate`: parse, then force the result once. */
  function CalculateSpec(r: Registry, stack: seq<Lazy>, s: string): (Result<Forced>, seq<Lazy>)
    requires r.Valid()
  {
    var (parsed, left) := ParseSpec(r, stack, s);
    match parsed
    case Ok(t) => (Ok(Force(t)), left)
    case Err(e) => (Err(e), left)
  }

  /** Parsing and calculating with a stack that is empty at entry. */
  function ParseFresh(r: Registry, s: string): Result<Lazy>
    requires r.Valid()
  {
    ParseSpec(r, [], s).0
  }

  function CalculateFresh(r: Registry, s: string): Result<Forced>
    requires r.Valid()
  {
    CalculateSpec(r, [], s).0
  }

  /** Only the height of the stack and the kind of each token decide how a
      run ends: the height after each token, or the first error. */
  function Shape(r: Registry, height: nat, s: string, i: nat): Result<nat>
    requires r.Valid() && i <= |s|
    decreases |s| - i
  {
    if i == |s| then Ok(height)
    else match Kind(r, s[i])
      case Literal(_) => Shape(r, height + 1, s, i + 1)
      case Function(_) => if height < 2 then Err(SyntaxError) else Shape(r, height - 1, s, i + 1)
      case Undefined => Err(UnknownOperator)
  }

  /** The run ends as its shape says: after `n` literals and `m` functions
      the stack has grown by `n - m`, and errors arise only from underflow
      and undefined tokens.  No deferred value is consulted, let alone
      forced. */
  lemma {:induction false} RunFollowsShape(r: Registry, stack: seq<Lazy>, s: string, i: nat)
    requires r.Valid() && i <= |s|
    ensures Run(r, stack, s, i).0.Done? <==> Shape(r, |stack|, s, i).Ok?
    ensures Run(r, stack, s, i).0.Done? ==> |Run(r, stack, s, i).1| == Shape(r, |stack|, s, i).value
    ensures Run(r, stack, s, i).0.Failed? ==> Run(r, stack, s, i).0.error == Shape(r, |stack|, s, i).error
    decreases |s| - i
  {
    if i < |s| {
      match Step(r, stack, s[i])
      case Err(_) =>
      case Ok(next) => RunFollowsShape(r, next, s, i + 1);
    }
  }

  /** `parse` succeeds exactly when the shape ends at height one, and fails
      with the shape's error or, when the final height is not one, with a
      syntax error.  So parsing never depends on, and never forces, any
      value: it only builds the tree.  On success the stack is left empty. */
  lemma ParseFollowsShape(r: Registry, stack: seq<Lazy>, s: string)
    requires r.Valid()
    ensures ParseSpec(r, stack, s).0.Ok? <==> Shape(r, |stack|, s, 0) == Ok(1)
    ensures ParseSpec(r, stack, s).0.Ok? ==> ParseSpec(r, stack, s).1 == []
    ensures ParseSpec(r, stack, s).0.Err? ==>
      ParseSpec(r, stack, s).0.error == (if Shape(r, |stack|, s, 0).Err? then Shape(r, |stack|, s, 0).error else SyntaxError)
  {
    RunFollowsShape(r, stack, s, 0);
  }

  /** An empty input leaves the stack as it is, so from an empty stack it is
      a syntax error; a lone literal token is its own result. */
  lemma ParseEdgeCases(r: Registry, c: char)
    requires r.Valid()
    ensures ParseFresh(r, "") == Err(SyntaxError)
    ensures Kind(r, c).Literal? ==> ParseFresh(r, [c]) == Ok(Leaf(Kind(r, c).value))
    ensures Kind(r, c).Function? ==> ParseFresh(r, [c]) == Err(SyntaxError)
    ensures Kind(r, c).Undefined? ==> ParseFresh(r, [c]) == Err(UnknownOperator)
  {
    if Kind(r, c).Literal? {
      var t := Push([], Leaf(Kind(r, c).value));
      assert Run(r, [], [c], 0) == Run(r, t, [c], 1);
    }
  }

  // ---------------------------------------------------------------------------
  // The calculator object.

  class LazyCalculator {
    const functions: array<Option<Op>>
    const literals: array<Option<int>>
    const isFunctionDefined: array<bool>
    const isLiteralDefined: array<bool>
    /** The evaluation stack; like the source's `mutable` member it survives
        a call that throws. */
    var stack: seq<Lazy>

    /** The registry the four arrays hold. */
    ghost function Reg(): Registry
      reads functions, literals, isFunctionDefined, isLiteralDefined
    {
      Registry(functions[..], literals[..], isFunctionDefined[..], isLiteralDefined[..])
    }

    ghost predicate Valid()
      reads functions, literals, isFunctionDefined, isLiteralDefined
    {
      isFunctionDefined != isLiteralDefined && Reg().Valid() && Reg().Consistent()
    }

    /** Clears both flag arrays and installs the default tokens. */
    constructor ()
      ensures Valid() && Reg() == Defaults() && stack == []
      ensures fresh(functions) && fresh(literals) && fresh(isFunctionDefined) && fresh(isLiteralDefined)
    {
      functions := new Option<Op>[SIGNS](_ => None);
      literals := new Option<int>[SIGNS](_ => None);
      isFunctionDefined := new bool[SIGNS];
      isLiteralDefined := new bool[SIGNS];
      new;
      var i := 0;
      while i < SIGNS
        invariant 0 <= i <= SIGNS
        invariant forall j :: 0 <= j < i ==> !isFunctionDefined[j]
        modifies isFunctionDefined
      {
        isFunctionDefined[i] := false;
        i := i + 1;
      }
      i := 0;
      while i < SIGNS
        invariant 0 <= i <= SIGNS
        invariant forall j :: 0 <= j < i ==> !isLiteralDefined[j]
        invariant forall j :: 0 <= j < SIGNS ==> !isFunctionDefined[j]
        modifies isLiteralDefined
      {
        isLiteralDefined[i] := false;
        i := i + 1;
      }
      assert functions[..] == Empty().functions;
      assert literals[..] == Empty().literals;
      assert isFunctionDefined[..] == Empty().isFunction;
      assert isLiteralDefined[..] == Empty().isLiteral;
      InstallLiterals();
      InstallAdditive();
      InstallMultiplicative();
      stack := [];
    }

    /** The constructor's three `define_literal` calls. */
    method InstallLiterals()
      requires Valid() && Reg() == Empty()
      modifies literals, isLiteralDefined
      ensures Valid() && Reg() == DefaultLiterals()
    {
      ghost var r := Empty();
      var status := DefineLiteral('0', 0);
      r := r.StoreLiteral('0', 0);
      assert Reg() == r;
      status := DefineLiteral('2', 2);
      r := r.StoreLiteral('2', 2);
      assert Reg() == r;
      status := DefineLiteral('4', 4);
      r := r.StoreLiteral('4', 4);
      assert Reg() == r;
    }

    /** The constructor's `define_function` calls for '+' and '-'. */
    method InstallAdditive()
      requires Valid() && Reg() == DefaultLiterals()
      modifies functions, isFunctionDefined
      ensures Valid() && Reg() == DefaultLiterals().StoreFunction('+', Plus).StoreFunction('-', Minus)
    {
      ghost var r := DefaultLiterals();
      var status := DefineFunction('+', Plus);
      r := r.StoreFunction('+', Plus);
      assert Reg() == r;
      status := DefineFunction('-', Minus);
    }

    /** The constructor's `define_function` calls for '*' and '/'. */
    method InstallMultiplicative()
      requires Valid() && Reg() == DefaultLiterals().StoreFunction('+', Plus).StoreFunction('-', Minus)
      modifies functions, isFunctionDefined
      ensures Valid() && Reg() == Defaults()
    {
      ghost var r := Reg();
      var status := DefineFunction('*', Multiply);
      r := r.StoreFunction('*', Multiply);
      assert Reg() == r;
      status := DefineFunction('/', Divide);
    }

    /** `doOperation`: dispatch one token against the stack. */
    method DoOperation(c: char) returns (status: Status)
      requires Valid() && IsToken(c)
      modifies this`stack
      ensures match Step(Reg(), old(stack), c)
        case Ok(next) => status == Done && stack == next
        case Err(e) => status == Failed(e) && stack == old(stack)
    {
      var i := c as int;
      if isLiteralDefined[i] {
        var lit := Leaf(literals[i].value);
        stack := stack + [lit];
      } else if isFunctionDefined[i] {
        if |stack| < 2 {
          return Failed(SyntaxError);
        }
        var b := stack[|stack| - 1];
        stack := stack[..|stack| - 1];
        var a := stack[|stack| - 1];
        stack := stack[..|stack| - 1];
        stack := stack + [Node(functions[i].value, a, b)];
      } else {
        return Failed(UnknownOperator);
      }
      status := Done;
    }

    /** `parse`: run every token, then demand a single remaining element. */
    method Parse(s: string) returns (res: Result<Lazy>)
      requires Valid() && AllTokens(s)
      modifies this`stack
      ensures (res, stack) == ParseSpec(Reg(), old(stack), s)
    {
      var i := 0;
      while i < |s|
        invariant 0 <= i <= |s|
        invariant Run(Reg(), old(stack), s, 0) == Run(Reg(), stack, s, i)
      {
        var status := DoOperation(s[i]);
        if status.Failed? {
          return Err(status.error);
        }
        i := i + 1;
      }
      if |stack| != 1 {
        return Err(SyntaxError);
      }
      res := Ok(stack[|stack| - 1]);
      stack := stack[..|stack| - 1];
    }

    /** `calculate`: the parsed value is forced exactly once. */
    method Calculate(s: string) returns (res: Result<Forced>)
      requires Valid() && AllTokens(s)
      modifies this`stack
      ensures (res, stack) == CalculateSpec(Reg(), old(stack), s)
    {
      var parsed := Parse(s);
      match parsed
      case Ok(t) => res := Ok(Force(t));
      case Err(e) => res := Err(e);
    }

    /** `parse` with the stack emptied first: the result depends on the
        registry and the input only, never on earlier calls. */
    method ParseIsolated(s: string) returns (res: Result<Lazy>)
      requires Valid() && AllTokens(s)
      modifies this`stack
      ensures res == ParseFresh(Reg(), s)
      ensures stack == ParseSpec(Reg(), [], s).1
    {
      stack := [];
      res := Parse(s);
    }

    /** `calculate` over `ParseIsolated`. */
    method CalculateIsolated(s: string) returns (res: Result<Forced>)
      requires Valid() && AllTokens(s)
      modifies this`stack
      ensures res == CalculateFresh(Reg(), s)
      ensures stack == CalculateSpec(Reg(), [], s).1
    {
      var parsed := ParseIsolated(s);
      match parsed
      case Ok(t) => res := Ok(Force(t));
      case Err(e) => res := Err(e);
    }

    /** `define`: write-once registration of a binary operator. */
    method Define(c: char, op: Op) returns (status: Status)
      requires Valid() && IsToken(c)
      modifies functions, isFunctionDefined
      ensures Valid()
      ensures match old(Reg()).Define(c, op)
        case Ok(r2) => status == Done && Reg() == r2
        case Err(e) => status == Failed(e) && Reg() == old(Reg())
    {
      var i := c as int;
      if isFunctionDefined[i] || isLiteralDefined[i] {
        return Failed(OperatorAlreadyDefined);
      }
      StoresKeepConsistent(old(Reg()), c, op, 0);
      functions[i] := Some(op);
      isFunctionDefined[i] := true;
      status := Done;
    }

    /** `define_function` forwards to `define`. */
    method DefineFunction(c: char, op: Op) returns (status: Status)
      requires Valid() && IsToken(c)
      modifies functions, isFunctionDefined
      ensures Valid()
      ensures match old(Reg()).Define(c, op)
        case Ok(r2) => status == Done && Reg() == r2
        case Err(e) => status == Failed(e) && Reg() == old(Reg())
    {
      status := Define(c, op);
    }

    /** `define_literal`: write-once registration of a literal provider. */
    method DefineLiteral(c: char, v: int) returns (status: Status)
      requires Valid() && IsToken(c)
      modifies literals, isLiteralDefined
      ensures Valid()
      ensures match old(Reg()).DefineLiteral(c, v)
        case Ok(r2) => status == Done && Reg() == r2
        case Err(e) => status == Failed(e) && Reg() == old(Reg())
    {
      var i := c as int;
      if isLiteralDefined[i] {
        return Failed(OperatorAlreadyDefined);
      }
      StoresKeepConsistent(old(Reg()), c, Plus, v);
      literals[i] := Some(v);
      isLiteralDefined[i] := true;
      status := Done;
    }
  }
}
