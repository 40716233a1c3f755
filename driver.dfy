/** What the calculator's own test program (`main`) expects, stated over the
    model.

    Each expectation is proved for every registry that binds the tokens it
    uses as the test program has bound them at that point of its run
    (`HasDefaults`, plus the operators defined so far), and the registries
    the program builds are shown to be such registries.  A proof follows the
    run token by token with `RunLiteral` and `RunFunction`, naming each
    deferred node as it is built. */
module DriverFacts {
  import opened LazyValue
  import opened Calculator

  /** The seven tokens the constructor installs, bound as it binds them. */
  predicate HasDefaults(r: Registry)
    requires r.Valid()
  {
    Kind(r, '0') == Literal(0) && Kind(r, '2') == Literal(2) && Kind(r, '4') == Literal(4)
    && Kind(r, '+') == Function(Plus) && Kind(r, '-') == Function(Minus)
    && Kind(r, '*') == Function(Multiply) && Kind(r, '/') == Function(Divide)
  }

  /** The six operators the test program defines; '&' stays undefined. */
  predicate HasDriverTokens(r: Registry)
    requires r.Valid()
  {
    Kind(r, '!') == Function(Concat) && Kind(r, ',') == Function(Then)
    && Kind(r, 'P') == Function(Emit) && Kind(r, '$') == Function(ManyTimes)
    && Kind(r, '?') == Function(IfThen) && Kind(r, '1') == Function(ConstOne)
    && Kind(r, '&') == Undefined
  }

  /** A registry plus '!', ',', 'P', '$', '?' and '1', stored in the order
      the test program defines them. */
  function WithDriverTokens(r: Registry): (r': Registry)
    requires r.Valid()
    ensures r'.Valid()
  {
    r.StoreFunction('!', Concat).StoreFunction(',', Then).StoreFunction('P', Emit)
      .StoreFunction('$', ManyTimes).StoreFunction('?', IfThen).StoreFunction('1', ConstOne)
  }

  /** The registry the test program works with once it has defined its
      operators. */
  function DriverRegistry(): (r: Registry)
    ensures r.Valid()
  {
    WithDriverTokens(Defaults())
  }

  /** The registries the test program passes through on the way: after
      defining '!', after ',' and 'P', after '$', and after '?'. */
  function ConcatStage(): (r: Registry)
    ensures r.Valid()
  {
    Defaults().StoreFunction('!', Concat)
  }

  function EmitStage(): (r: Registry)
    ensures r.Valid()
  {
    ConcatStage().StoreFunction(',', Then).StoreFunction('P', Emit)
  }

  function ManyTimesStage(): (r: Registry)
    ensures r.Valid()
  {
    EmitStage().StoreFunction('$', ManyTimes)
  }

  function IfThenStage(): (r: Registry)
    ensures r.Valid()
  {
    ManyTimesStage().StoreFunction('?', IfThen)
  }

  /** The six `define` calls of the test program all succeed, in order, and
      pass through the stages above to `DriverRegistry()`; defining '!'
      again, or '0' (a literal), is then refused whatever the operator. */
  lemma DriverDefinitions()
    ensures Defaults().Define('!', Concat) == Ok(ConcatStage())
    ensures ConcatStage().Define(',', Then) == Ok(ConcatStage().StoreFunction(',', Then))
    ensures ConcatStage().StoreFunction(',', Then).Define('P', Emit) == Ok(EmitStage())
    ensures EmitStage().Define('$', ManyTimes) == Ok(ManyTimesStage())
    ensures ManyTimesStage().Define('?', IfThen) == Ok(IfThenStage())
    ensures IfThenStage().Define('1', ConstOne) == Ok(DriverRegistry())
    ensures forall op :: DriverRegistry().Define('!', op) == Err(OperatorAlreadyDefined)
    ensures forall op :: DriverRegistry().Define('0', op) == Err(OperatorAlreadyDefined)
  {
  }

  /** The constructor's registry binds the defaults. */
  lemma DefaultsQualify()
    ensures HasDefaults(Defaults())
  {
    DefaultTokens();
  }

  /** Storing an operator for a token that is not a default one touches
      none of the defaults. */
  lemma StoreKeepsDefaults(r: Registry, c: char, op: Op)
    requires r.Valid() && HasDefaults(r) && IsToken(c) && !IsDefaultToken(c)
    ensures HasDefaults(r.StoreFunction(c, op))
  {
  }

  /** Storing the six operators touches none of the default tokens. */
  lemma DriverTokensKeepDefaults(r: Registry)
    requires r.Valid() && HasDefaults(r)
    ensures HasDefaults(WithDriverTokens(r))
  {
    var r1 := r.StoreFunction('!', Concat);
    StoreKeepsDefaults(r, '!', Concat);
    var r2 := r1.StoreFunction(',', Then);
    StoreKeepsDefaults(r1, ',', Then);
    var r3 := r2.StoreFunction('P', Emit);
    StoreKeepsDefaults(r2, 'P', Emit);
    var r4 := r3.StoreFunction('$', ManyTimes);
    StoreKeepsDefaults(r3, '$', ManyTimes);
    var r5 := r4.StoreFunction('?', IfThen);
    StoreKeepsDefaults(r4, '?', IfThen);
    StoreKeepsDefaults(r5, '1', ConstOne);
  }

  /** Storing the six operators where none of them, and not '&', is bound
      yet binds each of them to its operator and leaves '&' undefined. */
  lemma DriverTokensBind(r: Registry)
    requires r.Valid()
    requires Kind(r, '!') == Undefined && Kind(r, ',') == Undefined && Kind(r, 'P') == Undefined
    requires Kind(r, '$') == Undefined && Kind(r, '?') == Undefined && Kind(r, '1') == Undefined
    requires Kind(r, '&') == Undefined
    ensures HasDriverTokens(WithDriverTokens(r))
  {
  }

  /** The registry the test program ends with still binds the defaults ... */
  lemma DriverRegistryKeepsDefaults()
    ensures HasDefaults(DriverRegistry())
  {
    DefaultTokens();
    DriverTokensKeepDefaults(Defaults());
  }

  /** ... and its own six operators, and leaves '&' undefined. */
  lemma DriverRegistryBindsDriverTokens()
    ensures HasDriverTokens(DriverRegistry())
  {
    DefaultsDefineNothingElse('!');
    DefaultsDefineNothingElse(',');
    DefaultsDefineNothingElse('P');
    DefaultsDefineNothingElse('$');
    DefaultsDefineNothingElse('?');
    DefaultsDefineNothingElse('1');
    DefaultsDefineNothingElse('&');
    DriverTokensBind(Defaults());
  }

  /** The registry in which the test program calculates "42!" binds what
      `ConcatMakesFortyTwo` requires. */
  lemma ConcatStageQualifies()
    ensures HasDefaults(ConcatStage()) && Kind(ConcatStage(), '!') == Function(Concat)
  {
    DefaultsQualify();
    StoreKeepsDefaults(Defaults(), '!', Concat);
    DefaultsDefineNothingElse('!');
    StoreFunctionDispatch(Defaults(), '!', Concat);
  }

  /** The registry in which the test program calculates "42!42P$" binds
      what `ManyTimesEmitsFortyTwo` requires. */
  lemma ManyTimesStageQualifies()
    ensures var r := ManyTimesStage();
      HasDefaults(r) && Kind(r, '!') == Function(Concat)
      && Kind(r, 'P') == Function(Emit) && Kind(r, '$') == Function(ManyTimes)
  {
    ConcatStageQualifies();
    var r1 := ConcatStage();
    var r2 := r1.StoreFunction(',', Then);
    DefaultsDefineNothingElse(',');
    DefaultsDefineNothingElse('P');
    DefaultsDefineNothingElse('$');
    StoreFunctionDispatch(Defaults(), '!', Concat);
    StoreKeepsDefaults(r1, ',', Then);
    StoreFunctionDispatch(r1, ',', Then);
    StoreKeepsDefaults(r2, 'P', Emit);
    StoreFunctionDispatch(r2, 'P', Emit);
    StoreKeepsDefaults(EmitStage(), '$', ManyTimes);
    StoreFunctionDispatch(EmitStage(), '$', ManyTimes);
  }

  /** The registry in which the test program calculates "042P?" and
      "042!42P$?" binds what `FalseConditionSkipsEmit` and
      `FalseConditionSkipsManyTimes` require. */
  lemma IfThenStageQualifies()
    ensures var r := IfThenStage();
      HasDefaults(r) && Kind(r, '!') == Function(Concat) && Kind(r, 'P') == Function(Emit)
      && Kind(r, '$') == Function(ManyTimes) && Kind(r, '?') == Function(IfThen)
  {
    ManyTimesStageQualifies();
    var r1 := ConcatStage();
    var r2 := r1.StoreFunction(',', Then);
    DefaultsDefineNothingElse('?');
    StoreFunctionDispatch(Defaults(), '!', Concat);
    StoreFunctionDispatch(r1, ',', Then);
    StoreFunctionDispatch(r2, 'P', Emit);
    StoreFunctionDispatch(EmitStage(), '$', ManyTimes);
    StoreKeepsDefaults(ManyTimesStage(), '?', IfThen);
    StoreFunctionDispatch(ManyTimesStage(), '?', IfThen);
  }


  /** Each default literal calculates to its own value. */
  lemma LiteralsCalculate(r: Registry)
    requires r.Valid() && HasDefaults(r)
    ensures CalculateFresh(r, "0") == Ok(Value(0, 0))
    ensures CalculateFresh(r, "2") == Ok(Value(2, 0))
    ensures CalculateFresh(r, "4") == Ok(Value(4, 0))
  {
    ParseEdgeCases(r, '0');
    ParseEdgeCases(r, '2');
    ParseEdgeCases(r, '4');
  }

  /** The run behind `FourPlusTwo`, token by token, on any string spelling "42+". */
  lemma FourPlusTwoSteps(r: Registry, s: string)
    requires r.Valid() && HasDefaults(r)
    requires |s| == 3 && s[0] == '4' && s[1] == '2' && s[2] == '+'
    ensures ParseSpec(r, [], s) == (Ok(Node(Plus, Leaf(4), Leaf(2))), [])
  {
    var t0: seq<Lazy> := [];
    RunLiteral(r, t0, s, 0, 4);
    var t1 := Push(t0, Leaf(4));
    RunLiteral(r, t1, s, 1, 2);
    var t2 := Push(t1, Leaf(2));
    RunFunction(r, t2, s, 2, Plus);
    var t3 := Combine(t2, Plus);
  }

  /** The characters of "42+", one by one. */
  lemma FourPlusTwoSpelling()
    ensures var s := "42+"; |s| == 3 && s[0] == '4' && s[1] == '2' && s[2] == '+'
  {
  }

  /** What the tree `FourPlusTwo` parses to yields when forced. */
  lemma FourPlusTwoValue()
    ensures Force(Node(Plus, Leaf(4), Leaf(2))) == Value(6, 0)
  {
  }

  /** "42+" is 4 + 2. */
  lemma FourPlusTwo(r: Registry)
    requires r.Valid() && HasDefaults(r)
    ensures ParseFresh(r, "42+") == Ok(Node(Plus, Leaf(4), Leaf(2)))
    ensures CalculateFresh(r, "42+") == Ok(Value(6, 0))
  {
    FourPlusTwoSpelling();
    FourPlusTwoValue();
    FourPlusTwoSteps(r, "42+");
  }

  /** The run behind `TwoMinusFour`, token by token, on any string spelling "24-". */
  lemma TwoMinusFourSteps(r: Registry, s: string)
    requires r.Valid() && HasDefaults(r)
    requires |s| == 3 && s[0] == '2' && s[1] == '4' && s[2] == '-'
    ensures ParseSpec(r, [], s) == (Ok(Node(Minus, Leaf(2), Leaf(4))), [])
  {
    var t0: seq<Lazy> := [];
    RunLiteral(r, t0, s, 0, 2);
    var t1 := Push(t0, Leaf(2));
    RunLiteral(r, t1, s, 1, 4);
    var t2 := Push(t1, Leaf(4));
    RunFunction(r, t2, s, 2, Minus);
    var t3 := Combine(t2, Minus);
  }

  /** The characters of "24-", one by one. */
  lemma TwoMinusFourSpelling()
    ensures var s := "24-"; |s| == 3 && s[0] == '2' && s[1] == '4' && s[2] == '-'
  {
  }

  /** What the tree `TwoMinusFour` parses to yields when forced. */
  lemma TwoMinusFourValue()
    ensures Force(Node(Minus, Leaf(2), Leaf(4))) == Value(-2, 0)
  {
  }

  /** "24-" is 2 - 4: the operand pushed first is the left one. */
  lemma TwoMinusFour(r: Registry)
    requires r.Valid() && HasDefaults(r)
    ensures ParseFresh(r, "24-") == Ok(Node(Minus, Leaf(2), Leaf(4)))
    ensures CalculateFresh(r, "24-") == Ok(Value(-2, 0))
  {
    TwoMinusFourSpelling();
    TwoMinusFourValue();
    TwoMinusFourSteps(r, "24-");
  }

  /** The run behind `FourTimesTwo`, token by token, on any string spelling "42*". */
  lemma FourTimesTwoSteps(r: Registry, s: string)
    requires r.Valid() && HasDefaults(r)
    requires |s| == 3 && s[0] == '4' && s[1] == '2' && s[2] == '*'
    ensures ParseSpec(r, [], s) == (Ok(Node(Multiply, Leaf(4), Leaf(2))), [])
  {
    var t0: seq<Lazy> := [];
    RunLiteral(r, t0, s, 0, 4);
    var t1 := Push(t0, Leaf(4));
    RunLiteral(r, t1, s, 1, 2);
    var t2 := Push(t1, Leaf(2));
    RunFunction(r, t2, s, 2, Multiply);
    var t3 := Combine(t2, Multiply);
  }

  /** The characters of "42*", one by one. */
  lemma FourTimesTwoSpelling()
    ensures var s := "42*"; |s| == 3 && s[0] == '4' && s[1] == '2' && s[2] == '*'
  {
  }

  /** What the tree `FourTimesTwo` parses to yields when forced. */
  lemma FourTimesTwoValue()
    ensures Force(Node(Multiply, Leaf(4), Leaf(2))) == Value(8, 0)
  {
  }

  /** "42*" is 4 * 2. */
  lemma FourTimesTwo(r: Registry)
    requires r.Valid() && HasDefaults(r)
    ensures ParseFresh(r, "42*") == Ok(Node(Multiply, Leaf(4), Leaf(2)))
    ensures CalculateFresh(r, "42*") == Ok(Value(8, 0))
  {
    FourTimesTwoSpelling();
    FourTimesTwoValue();
    FourTimesTwoSteps(r, "42*");
  }

  /** The run behind `FourOverTwo`, token by token, on any string spelling "42/". */
  lemma FourOverTwoSteps(r: Registry, s: string)
    requires r.Valid() && HasDefaults(r)
    requires |s| == 3 && s[0] == '4' && s[1] == '2' && s[2] == '/'
    ensures ParseSpec(r, [], s) == (Ok(Node(Divide, Leaf(4), Leaf(2))), [])
  {
    var t0: seq<Lazy> := [];
    RunLiteral(r, t0, s, 0, 4);
    var t1 := Push(t0, Leaf(4));
    RunLiteral(r, t1, s, 1, 2);
    var t2 := Push(t1, Leaf(2));
    RunFunction(r, t2, s, 2, Divide);
    var t3 := Combine(t2, Divide);
  }

  /** The characters of "42/", one by one. */
  lemma FourOverTwoSpelling()
    ensures var s := "42/"; |s| == 3 && s[0] == '4' && s[1] == '2' && s[2] == '/'
  {
  }

  /** What the tree `FourOverTwo` parses to yields when forced. */
  lemma FourOverTwoValue()
    ensures Force(Node(Divide, Leaf(4), Leaf(2))) == Value(2, 0)
  {
  }

  /** "42/" is 4 / 2. */
  lemma FourOverTwo(r: Registry)
    requires r.Valid() && HasDefaults(r)
    ensures ParseFresh(r, "42/") == Ok(Node(Divide, Leaf(4), Leaf(2)))
    ensures CalculateFresh(r, "42/") == Ok(Value(2, 0))
  {
    FourOverTwoSpelling();
    FourOverTwoValue();
    FourOverTwoSteps(r, "42/");
  }

  /** The run behind `SubtractionChain`, token by token, on any string spelling "42-2-". */
  lemma SubtractionChainSteps(r: Registry, s: string)
    requires r.Valid() && HasDefaults(r)
    requires |s| == 5 && s[0] == '4' && s[1] == '2' && s[2] == '-' && s[3] == '2' && s[4] == '-'
    ensures ParseSpec(r, [], s) == (Ok(Node(Minus, Node(Minus, Leaf(4), Leaf(2)), Leaf(2))), [])
  {
    var t0: seq<Lazy> := [];
    RunLiteral(r, t0, s, 0, 4);
    var t1 := Push(t0, Leaf(4));
    RunLiteral(r, t1, s, 1, 2);
    var t2 := Push(t1, Leaf(2));
    RunFunction(r, t2, s, 2, Minus);
    var t3 := Combine(t2, Minus);
    RunLiteral(r, t3, s, 3, 2);
    var t4 := Push(t3, Leaf(2));
    RunFunction(r, t4, s, 4, Minus);
    var t5 := Combine(t4, Minus);
  }

  /** The characters of "42-2-", one by one. */
  lemma SubtractionChainSpelling()
    ensures var s := "42-2-"; |s| == 5 && s[0] == '4' && s[1] == '2' && s[2] == '-' && s[3] == '2' && s[4] == '-'
  {
  }

  /** What the tree `SubtractionChain` parses to yields when forced. */
  lemma SubtractionChainValue()
    ensures Force(Node(Minus, Node(Minus, Leaf(4), Leaf(2)), Leaf(2))) == Value(0, 0)
  {
  }

  /** "42-2-" is (4 - 2) - 2. */
  lemma SubtractionChain(r: Registry)
    requires r.Valid() && HasDefaults(r)
    ensures ParseFresh(r, "42-2-") == Ok(Node(Minus, Node(Minus, Leaf(4), Leaf(2)), Leaf(2)))
    ensures CalculateFresh(r, "42-2-") == Ok(Value(0, 0))
  {
    SubtractionChainSpelling();
    SubtractionChainValue();
    SubtractionChainSteps(r, "42-2-");
  }

  /** The run behind `NestedSubtraction`, token by token, on any string spelling "242--". */
  lemma NestedSubtractionSteps(r: Registry, s: string)
    requires r.Valid() && HasDefaults(r)
    requires |s| == 5 && s[0] == '2' && s[1] == '4' && s[2] == '2' && s[3] == '-' && s[4] == '-'
    ensures ParseSpec(r, [], s) == (Ok(Node(Minus, Leaf(2), Node(Minus, Leaf(4), Leaf(2)))), [])
  {
    var t0: seq<Lazy> := [];
    RunLiteral(r, t0, s, 0, 2);
    var t1 := Push(t0, Leaf(2));
    RunLiteral(r, t1, s, 1, 4);
    var t2 := Push(t1, Leaf(4));
    RunLiteral(r, t2, s, 2, 2);
    var t3 := Push(t2, Leaf(2));
    RunFunction(r, t3, s, 3, Minus);
    var t4 := Combine(t3, Minus);
    RunFunction(r, t4, s, 4, Minus);
    var t5 := Combine(t4, Minus);
  }

  /** The characters of "242--", one by one. */
  lemma NestedSubtractionSpelling()
    ensures var s := "242--"; |s| == 5 && s[0] == '2' && s[1] == '4' && s[2] == '2' && s[3] == '-' && s[4] == '-'
  {
  }

  /** What the tree `NestedSubtraction` parses to yields when forced. */
  lemma NestedSubtractionValue()
    ensures Force(Node(Minus, Leaf(2), Node(Minus, Leaf(4), Leaf(2)))) == Value(0, 0)
  {
  }

  /** "242--" is 2 - (4 - 2). */
  lemma NestedSubtraction(r: Registry)
    requires r.Valid() && HasDefaults(r)
    ensures ParseFresh(r, "242--") == Ok(Node(Minus, Leaf(2), Node(Minus, Leaf(4), Leaf(2))))
    ensures CalculateFresh(r, "242--") == Ok(Value(0, 0))
  {
    NestedSubtractionSpelling();
    NestedSubtractionValue();
    NestedSubtractionSteps(r, "242--");
  }

  /** The run behind `MixedChain`, token by token, on any string spelling "22+2-2*2/0-". */
  lemma MixedChainSteps(r: Registry, s: string)
    requires r.Valid() && HasDefaults(r)
    requires |s| == 11 && s[0] == '2' && s[1] == '2' && s[2] == '+' && s[3] == '2' && s[4] == '-' && s[5] == '2' && s[6] == '*' && s[7] == '2' && s[8] == '/' && s[9] == '0' && s[10] == '-'
    ensures ParseSpec(r, [], s) == (Ok(Node(Minus, Node(Divide, Node(Multiply, Node(Minus, Node(Plus, Leaf(2), Leaf(2)), Leaf(2)), Leaf(2)), Leaf(2)), Leaf(0))), [])
  {
    var t0: seq<Lazy> := [];
    RunLiteral(r, t0, s, 0, 2);
    var t1 := Push(t0, Leaf(2));
    RunLiteral(r, t1, s, 1, 2);
    var t2 := Push(t1, Leaf(2));
    RunFunction(r, t2, s, 2, Plus);
    var t3 := Combine(t2, Plus);
    RunLiteral(r, t3, s, 3, 2);
    var t4 := Push(t3, Leaf(2));
    RunFunction(r, t4, s, 4, Minus);
    var t5 := Combine(t4, Minus);
    RunLiteral(r, t5, s, 5, 2);
    var t6 := Push(t5, Leaf(2));
    RunFunction(r, t6, s, 6, Multiply);
    var t7 := Combine(t6, Multiply);
    RunLiteral(r, t7, s, 7, 2);
    var t8 := Push(t7, Leaf(2));
    RunFunction(r, t8, s, 8, Divide);
    var t9 := Combine(t8, Divide);
    RunLiteral(r, t9, s, 9, 0);
    var t10 := Push(t9, Leaf(0));
    RunFunction(r, t10, s, 10, Minus);
    var t11 := Combine(t10, Minus);
  }

  /** The characters of "22+2-2*2/0-", one by one. */
  lemma MixedChainSpelling()
    ensures var s := "22+2-2*2/0-"; |s| == 11 && s[0] == '2' && s[1] == '2' && s[2] == '+' && s[3] == '2' && s[4] == '-' && s[5] == '2' && s[6] == '*' && s[7] == '2' && s[8] == '/' && s[9] == '0' && s[10] == '-'
  {
  }

  /** What the tree `MixedChain` parses to yields when forced. */
  lemma MixedChainValue()
    ensures Force(Node(Minus, Node(Divide, Node(Multiply, Node(Minus, Node(Plus, Leaf(2), Leaf(2)), Leaf(2)), Leaf(2)), Leaf(2)), Leaf(0))) == Value(2, 0)
  {
  }

  /** "22+2-2*2/0-" is ((((2 + 2) - 2) * 2) / 2) - 0. */
  lemma MixedChain(r: Registry)
    requires r.Valid() && HasDefaults(r)
    ensures ParseFresh(r, "22+2-2*2/0-") == Ok(Node(Minus, Node(Divide, Node(Multiply, Node(Minus, Node(Plus, Leaf(2), Leaf(2)), Leaf(2)), Leaf(2)), Leaf(2)), Leaf(0)))
    ensures CalculateFresh(r, "22+2-2*2/0-") == Ok(Value(2, 0))
  {
    MixedChainSpelling();
    MixedChainValue();
    MixedChainSteps(r, "22+2-2*2/0-");
  }

  /** The run behind `DivisionIsDeferred`, token by token, on any string spelling "40/". */
  lemma DivisionIsDeferredSteps(r: Registry, s: string)
    requires r.Valid() && HasDefaults(r)
    requires |s| == 3 && s[0] == '4' && s[1] == '0' && s[2] == '/'
    ensures ParseSpec(r, [], s) == (Ok(Node(Divide, Leaf(4), Leaf(0))), [])
  {
    var t0: seq<Lazy> := [];
    RunLiteral(r, t0, s, 0, 4);
    var t1 := Push(t0, Leaf(4));
    RunLiteral(r, t1, s, 1, 0);
    var t2 := Push(t1, Leaf(0));
    RunFunction(r, t2, s, 2, Divide);
    var t3 := Combine(t2, Divide);
  }

  /** The characters of "40/", one by one. */
  lemma DivisionIsDeferredSpelling()
    ensures var s := "40/"; |s| == 3 && s[0] == '4' && s[1] == '0' && s[2] == '/'
  {
  }

  /** What the tree `DivisionIsDeferred` parses to yields when forced. */
  lemma DivisionIsDeferredValue()
    ensures Force(Node(Divide, Leaf(4), Leaf(0))) == DivisionByZero
  {
  }

  /** Parsing builds a division by zero without performing it; only forcing
      the result traps. */
  lemma DivisionIsDeferred(r: Registry)
    requires r.Valid() && HasDefaults(r)
    ensures ParseFresh(r, "40/") == Ok(Node(Divide, Leaf(4), Leaf(0)))
    ensures CalculateFresh(r, "40/") == Ok(DivisionByZero)
  {
    DivisionIsDeferredSpelling();
    DivisionIsDeferredValue();
    DivisionIsDeferredSteps(r, "40/");
  }

  /** The run behind `ConcatMakesFortyTwo`, token by token, on any string spelling "42!". */
  lemma ConcatMakesFortyTwoSteps(r: Registry, s: string)
    requires r.Valid() && HasDefaults(r) && Kind(r, '!') == Function(Concat)
    requires |s| == 3 && s[0] == '4' && s[1] == '2' && s[2] == '!'
    ensures ParseSpec(r, [], s) == (Ok(Node(Concat, Leaf(4), Leaf(2))), [])
  {
    var t0: seq<Lazy> := [];
    RunLiteral(r, t0, s, 0, 4);
    var t1 := Push(t0, Leaf(4));
    RunLiteral(r, t1, s, 1, 2);
    var t2 := Push(t1, Leaf(2));
    RunFunction(r, t2, s, 2, Concat);
    var t3 := Combine(t2, Concat);
  }

  /** The characters of "42!", one by one. */
  lemma ConcatMakesFortyTwoSpelling()
    ensures var s := "42!"; |s| == 3 && s[0] == '4' && s[1] == '2' && s[2] == '!'
  {
  }

  /** What the tree `ConcatMakesFortyTwo` parses to yields when forced. */
  lemma ConcatMakesFortyTwoValue()
    ensures Force(Node(Concat, Leaf(4), Leaf(2))) == Value(42, 0)
  {
  }

  /** Once '!' is defined, "42!" is 4 * 10 + 2. */
  lemma ConcatMakesFortyTwo(r: Registry)
    requires r.Valid() && HasDefaults(r) && Kind(r, '!') == Function(Concat)
    ensures ParseFresh(r, "42!") == Ok(Node(Concat, Leaf(4), Leaf(2)))
    ensures CalculateFresh(r, "42!") == Ok(Value(42, 0))
  {
    ConcatMakesFortyTwoSpelling();
    ConcatMakesFortyTwoValue();
    ConcatMakesFortyTwoSteps(r, "42!");
  }

  /** The run behind `ManyTimesEmitsFortyTwo`, token by token, on any string spelling "42!42P$". */
  lemma ManyTimesEmitsFortyTwoSteps(r: Registry, s: string)
    requires r.Valid() && HasDefaults(r) && Kind(r, '!') == Function(Concat)
      && Kind(r, 'P') == Function(Emit) && Kind(r, '$') == Function(ManyTimes)
    requires |s| == 7 && s[0] == '4' && s[1] == '2' && s[2] == '!' && s[3] == '4' && s[4] == '2' && s[5] == 'P' && s[6] == '$'
    ensures ParseSpec(r, [], s) == (Ok(Node(ManyTimes, Node(Concat, Leaf(4), Leaf(2)), Node(Emit, Leaf(4), Leaf(2)))), [])
  {
    var t0: seq<Lazy> := [];
    RunLiteral(r, t0, s, 0, 4);
    var t1 := Push(t0, Leaf(4));
    RunLiteral(r, t1, s, 1, 2);
    var t2 := Push(t1, Leaf(2));
    RunFunction(r, t2, s, 2, Concat);
    var t3 := Combine(t2, Concat);
    RunLiteral(r, t3, s, 3, 4);
    var t4 := Push(t3, Leaf(4));
    RunLiteral(r, t4, s, 4, 2);
    var t5 := Push(t4, Leaf(2));
    RunFunction(r, t5, s, 5, Emit);
    var t6 := Combine(t5, Emit);
    RunFunction(r, t6, s, 6, ManyTimes);
    var t7 := Combine(t6, ManyTimes);
  }

  /** The characters of "42!42P$", one by one. */
  lemma ManyTimesEmitsFortyTwoSpelling()
    ensures var s := "42!42P$"; |s| == 7 && s[0] == '4' && s[1] == '2' && s[2] == '!' && s[3] == '4' && s[4] == '2' && s[5] == 'P' && s[6] == '$'
  {
  }

  /** What the tree `ManyTimesEmitsFortyTwo` parses to yields when forced. */
  lemma ManyTimesEmitsFortyTwoValue()
    ensures Force(Node(ManyTimes, Node(Concat, Leaf(4), Leaf(2)), Node(Emit, Leaf(4), Leaf(2)))) == Value(0, 42)
  {
  }

  /** "42!42P$": '$' forces "42!" once, getting 42, and then the 'P' node
      42 times, so the buffer grows by exactly 42 words; the result is 0. */
  lemma ManyTimesEmitsFortyTwo(r: Registry)
    requires r.Valid() && HasDefaults(r) && Kind(r, '!') == Function(Concat)
      && Kind(r, 'P') == Function(Emit) && Kind(r, '$') == Function(ManyTimes)
    ensures ParseFresh(r, "42!42P$") == Ok(Node(ManyTimes, Node(Concat, Leaf(4), Leaf(2)), Node(Emit, Leaf(4), Leaf(2))))
    ensures CalculateFresh(r, "42!42P$") == Ok(Value(0, 42))
  {
    ManyTimesEmitsFortyTwoSpelling();
    ManyTimesEmitsFortyTwoValue();
    ManyTimesEmitsFortyTwoSteps(r, "42!42P$");
  }

  /** The run behind `FalseConditionSkipsEmit`, token by token, on any string spelling "042P?". */
  lemma FalseConditionSkipsEmitSteps(r: Registry, s: string)
    requires r.Valid() && HasDefaults(r)
      && Kind(r, 'P') == Function(Emit) && Kind(r, '?') == Function(IfThen)
    requires |s| == 5 && s[0] == '0' && s[1] == '4' && s[2] == '2' && s[3] == 'P' && s[4] == '?'
    ensures ParseSpec(r, [], s) == (Ok(Node(IfThen, Leaf(0), Node(Emit, Leaf(4), Leaf(2)))), [])
  {
    var t0: seq<Lazy> := [];
    RunLiteral(r, t0, s, 0, 0);
    var t1 := Push(t0, Leaf(0));
    RunLiteral(r, t1, s, 1, 4);
    var t2 := Push(t1, Leaf(4));
    RunLiteral(r, t2, s, 2, 2);
    var t3 := Push(t2, Leaf(2));
    RunFunction(r, t3, s, 3, Emit);
    var t4 := Combine(t3, Emit);
    RunFunction(r, t4, s, 4, IfThen);
    var t5 := Combine(t4, IfThen);
  }

  /** The characters of "042P?", one by one. */
  lemma FalseConditionSkipsEmitSpelling()
    ensures var s := "042P?"; |s| == 5 && s[0] == '0' && s[1] == '4' && s[2] == '2' && s[3] == 'P' && s[4] == '?'
  {
  }

  /** What the tree `FalseConditionSkipsEmit` parses to yields when forced. */
  lemma FalseConditionSkipsEmitValue()
    ensures Force(Node(IfThen, Leaf(0), Node(Emit, Leaf(4), Leaf(2)))) == Value(0, 0)
  {
  }

  /** "042P?": the condition is 0, so the 'P' operand is never forced and
      the buffer does not grow. */
  lemma FalseConditionSkipsEmit(r: Registry)
    requires r.Valid() && HasDefaults(r)
      && Kind(r, 'P') == Function(Emit) && Kind(r, '?') == Function(IfThen)
    ensures ParseFresh(r, "042P?") == Ok(Node(IfThen, Leaf(0), Node(Emit, Leaf(4), Leaf(2))))
    ensures CalculateFresh(r, "042P?") == Ok(Value(0, 0))
  {
    FalseConditionSkipsEmitSpelling();
    FalseConditionSkipsEmitValue();
    FalseConditionSkipsEmitSteps(r, "042P?");
  }

  /** The run behind `FalseConditionSkipsManyTimes`, token by token, on any string spelling "042!42P$?". */
  lemma FalseConditionSkipsManyTimesSteps(r: Registry, s: string)
    requires r.Valid() && HasDefaults(r) && Kind(r, '!') == Function(Concat)
      && Kind(r, 'P') == Function(Emit) && Kind(r, '$') == Function(ManyTimes) && Kind(r, '?') == Function(IfThen)
    requires |s| == 9 && s[0] == '0' && s[1] == '4' && s[2] == '2' && s[3] == '!' && s[4] == '4' && s[5] == '2' && s[6] == 'P' && s[7] == '$' && s[8] == '?'
    ensures ParseSpec(r, [], s) == (Ok(Node(IfThen, Leaf(0), Node(ManyTimes, Node(Concat, Leaf(4), Leaf(2)), Node(Emit, Leaf(4), Leaf(2))))), [])
  {
    var t0: seq<Lazy> := [];
    RunLiteral(r, t0, s, 0, 0);
    var t1 := Push(t0, Leaf(0));
    RunLiteral(r, t1, s, 1, 4);
    var t2 := Push(t1, Leaf(4));
    RunLiteral(r, t2, s, 2, 2);
    var t3 := Push(t2, Leaf(2));
    RunFunction(r, t3, s, 3, Concat);
    var t4 := Combine(t3, Concat);
    RunLiteral(r, t4, s, 4, 4);
    var t5 := Push(t4, Leaf(4));
    RunLiteral(r, t5, s, 5, 2);
    var t6 := Push(t5, Leaf(2));
    RunFunction(r, t6, s, 6, Emit);
    var t7 := Combine(t6, Emit);
    RunFunction(r, t7, s, 7, ManyTimes);
    var t8 := Combine(t7, ManyTimes);
    RunFunction(r, t8, s, 8, IfThen);
    var t9 := Combine(t8, IfThen);
  }

  /** The characters of "042!42P$?", one by one. */
  lemma FalseConditionSkipsManyTimesSpelling()
    ensures var s := "042!42P$?"; |s| == 9 && s[0] == '0' && s[1] == '4' && s[2] == '2' && s[3] == '!' && s[4] == '4' && s[5] == '2' && s[6] == 'P' && s[7] == '$' && s[8] == '?'
  {
  }

  /** What the tree `FalseConditionSkipsManyTimes` parses to yields when forced. */
  lemma FalseConditionSkipsManyTimesValue()
    ensures Force(Node(IfThen, Leaf(0), Node(ManyTimes, Node(Concat, Leaf(4), Leaf(2)), Node(Emit, Leaf(4), Leaf(2))))) == Value(0, 0)
  {
  }

  /** "042!42P$?": the same with a second operand that would append 42
      words. */
  lemma FalseConditionSkipsManyTimes(r: Registry)
    requires r.Valid() && HasDefaults(r) && Kind(r, '!') == Function(Concat)
      && Kind(r, 'P') == Function(Emit) && Kind(r, '$') == Function(ManyTimes) && Kind(r, '?') == Function(IfThen)
    ensures ParseFresh(r, "042!42P$?") == Ok(Node(IfThen, Leaf(0), Node(ManyTimes, Node(Concat, Leaf(4), Leaf(2)), Node(Emit, Leaf(4), Leaf(2)))))
    ensures CalculateFresh(r, "042!42P$?") == Ok(Value(0, 0))
  {
    FalseConditionSkipsManyTimesSpelling();
    FalseConditionSkipsManyTimesValue();
    FalseConditionSkipsManyTimesSteps(r, "042!42P$?");
  }

  /** The run behind `ConstOneIgnoresOperands`, token by token, on any string spelling "021". */
  lemma ConstOneIgnoresOperandsSteps(r: Registry, s: string)
    requires r.Valid() && HasDefaults(r) && Kind(r, '1') == Function(ConstOne)
    requires |s| == 3 && s[0] == '0' && s[1] == '2' && s[2] == '1'
    ensures ParseSpec(r, [], s) == (Ok(Node(ConstOne, Leaf(0), Leaf(2))), [])
  {
    var t0: seq<Lazy> := [];
    RunLiteral(r, t0, s, 0, 0);
    var t1 := Push(t0, Leaf(0));
    RunLiteral(r, t1, s, 1, 2);
    var t2 := Push(t1, Leaf(2));
    RunFunction(r, t2, s, 2, ConstOne);
    var t3 := Combine(t2, ConstOne);
  }

  /** The characters of "021", one by one. */
  lemma ConstOneIgnoresOperandsSpelling()
    ensures var s := "021"; |s| == 3 && s[0] == '0' && s[1] == '2' && s[2] == '1'
  {
  }

  /** What the tree `ConstOneIgnoresOperands` parses to yields when forced. */
  lemma ConstOneIgnoresOperandsValue()
    ensures Force(Node(ConstOne, Leaf(0), Leaf(2))) == Value(1, 0)
  {
  }

  /** Once '1' is defined, "021" is 1 whatever its operands. */
  lemma ConstOneIgnoresOperands(r: Registry)
    requires r.Valid() && HasDefaults(r) && Kind(r, '1') == Function(ConstOne)
    ensures ParseFresh(r, "021") == Ok(Node(ConstOne, Leaf(0), Leaf(2)))
    ensures CalculateFresh(r, "021") == Ok(Value(1, 0))
  {
    ConstOneIgnoresOperandsSpelling();
    ConstOneIgnoresOperandsValue();
    ConstOneIgnoresOperandsSteps(r, "021");
  }

  /** "42" on any stack pushes two values and fails: at least two values
      are left. */
  lemma TwoValuesLeftOver(r: Registry, stack: seq<Lazy>, s: string)
    requires r.Valid() && HasDefaults(r)
    requires |s| == 2 && s[0] == '4' && s[1] == '2'
    ensures ParseSpec(r, stack, s) == (Err(SyntaxError), stack + [Leaf(4), Leaf(2)])
  {
    var t0: seq<Lazy> := stack;
    RunLiteral(r, t0, s, 0, 4);
    var t1 := Push(t0, Leaf(4));
    RunLiteral(r, t1, s, 1, 2);
    var t2 := Push(t1, Leaf(2));
    assert t2 == stack + [Leaf(4), Leaf(2)];
  }

  /** "4+" on an empty stack: the operator finds one value only. */
  lemma OperatorShortOfOperand(r: Registry, s: string)
    requires r.Valid() && HasDefaults(r)
    requires |s| == 2 && s[0] == '4' && s[1] == '+'
    ensures ParseSpec(r, [], s) == (Err(SyntaxError), [Leaf(4)])
  {
    var t0: seq<Lazy> := [];
    RunLiteral(r, t0, s, 0, 4);
    var t1 := Push(t0, Leaf(4));
    RunStops(r, t1, s, 1);
    assert t1 == [Leaf(4)];
  }

  /** "424+" on any stack pushes 4 and 2 + 4 and fails. */
  lemma ThreeValuesOneOperator(r: Registry, stack: seq<Lazy>, s: string)
    requires r.Valid() && HasDefaults(r)
    requires |s| == 4 && s[0] == '4' && s[1] == '2' && s[2] == '4' && s[3] == '+'
    ensures ParseSpec(r, stack, s) == (Err(SyntaxError), stack + [Leaf(4), Node(Plus, Leaf(2), Leaf(4))])
  {
    var t0: seq<Lazy> := stack;
    RunLiteral(r, t0, s, 0, 4);
    var t1 := Push(t0, Leaf(4));
    RunLiteral(r, t1, s, 1, 2);
    var t2 := Push(t1, Leaf(2));
    RunLiteral(r, t2, s, 2, 4);
    var t3 := Push(t2, Leaf(4));
    RunFunction(r, t3, s, 3, Plus);
    var t4 := Combine(t3, Plus);
    assert t4 == stack + [Leaf(4), Node(Plus, Leaf(2), Leaf(4))];
  }

  /** "02&" on any stack pushes 0 and 2 and stops at the undefined '&'. */
  lemma UnknownTokenStops(r: Registry, stack: seq<Lazy>, s: string)
    requires r.Valid() && HasDefaults(r) && Kind(r, '&') == Undefined
    requires |s| == 3 && s[0] == '0' && s[1] == '2' && s[2] == '&'
    ensures ParseSpec(r, stack, s) == (Err(UnknownOperator), stack + [Leaf(0), Leaf(2)])
  {
    var t0: seq<Lazy> := stack;
    RunLiteral(r, t0, s, 0, 0);
    var t1 := Push(t0, Leaf(0));
    RunLiteral(r, t1, s, 1, 2);
    var t2 := Push(t1, Leaf(2));
    RunStops(r, t2, s, 2);
    assert t2 == stack + [Leaf(0), Leaf(2)];
  }

  /** "4+" on the two values "42" left behind: '+' combines the 2 with the
      new 4, and two values remain. */
  lemma OperatorUsesLeftovers(r: Registry, s: string)
    requires r.Valid() && HasDefaults(r)
    requires |s| == 2 && s[0] == '4' && s[1] == '+'
    ensures ParseSpec(r, [Leaf(4), Leaf(2)], s) == (Err(SyntaxError), [Leaf(4), Node(Plus, Leaf(2), Leaf(4))])
  {
    var t0: seq<Lazy> := [Leaf(4), Leaf(2)];
    RunLiteral(r, t0, s, 0, 4);
    var t1 := Push(t0, Leaf(4));
    RunFunction(r, t1, s, 1, Plus);
    var t2 := Combine(t1, Plus);
    assert t2 == [Leaf(4), Node(Plus, Leaf(2), Leaf(4))];
  }

  /** The malformed inputs of the test program, each on an empty stack: no
      input, two values left over, an operator short of an operand, two
      values left over again; and a token nobody defined is an unknown
      operator whatever the stack holds. */
  lemma Rejections(r: Registry)
    requires r.Valid() && HasDefaults(r) && Kind(r, '&') == Undefined
    ensures ParseFresh(r, "") == Err(SyntaxError)
    ensures ParseFresh(r, "42") == Err(SyntaxError)
    ensures ParseFresh(r, "4+") == Err(SyntaxError)
    ensures ParseFresh(r, "424+") == Err(SyntaxError)
    ensures forall stack :: ParseSpec(r, stack, "02&").0 == Err(UnknownOperator)
  {
    ParseEdgeCases(r, '0');
    TwoValuesLeftOver(r, [], "42");
    OperatorShortOfOperand(r, "4+");
    ThreeValuesOneOperator(r, [], "424+");
    forall stack
      ensures ParseSpec(r, stack, "02&").0 == Err(UnknownOperator)
    {
      UnknownTokenStops(r, stack, "02&");
    }
  }

  /** The malformed inputs in the order the test program tries them on one
      calculator.  Each call fails, but a failed call does not clear the
      stack: "42" leaves two values behind, so "4+" does not run short of an
      operand but combines the 2 with its own 4, and every later input starts
      on top of what the earlier ones left.  The test program only checks
      that each call fails, so it does not notice. */
  lemma RejectionsShareTheStack(r: Registry)
    requires r.Valid() && HasDefaults(r) && Kind(r, '&') == Undefined
    ensures ParseSpec(r, [], "") == (Err(SyntaxError), [])
    ensures ParseSpec(r, [], "42") == (Err(SyntaxError), [Leaf(4), Leaf(2)])
    ensures ParseSpec(r, [Leaf(4), Leaf(2)], "4+") == (Err(SyntaxError), [Leaf(4), Node(Plus, Leaf(2), Leaf(4))])
    ensures var left := [Leaf(4), Node(Plus, Leaf(2), Leaf(4))];
      ParseSpec(r, left, "424+") == (Err(SyntaxError), left + left)
    ensures var left := [Leaf(4), Node(Plus, Leaf(2), Leaf(4))];
      ParseSpec(r, left + left, "02&") == (Err(UnknownOperator), left + left + [Leaf(0), Leaf(2)])
  {
    TwoValuesLeftOver(r, [], "42");
    assert [] + [Leaf(4), Leaf(2)] == [Leaf(4), Leaf(2)];
    OperatorUsesLeftovers(r, "4+");
    var left := [Leaf(4), Node(Plus, Leaf(2), Leaf(4))];
    ThreeValuesOneOperator(r, left, "424+");
    UnknownTokenStops(r, left + left, "02&");
  }

  /** The leak in action: after "42" fails, the lone operator "+"
      calculates to 6 and empties the stack, where on an empty stack it is a
      syntax error. */
  lemma LeftoverStackCompletesNextInput(r: Registry)
    requires r.Valid() && HasDefaults(r)
    ensures ParseSpec(r, [], "42") == (Err(SyntaxError), [Leaf(4), Leaf(2)])
    ensures CalculateSpec(r, [Leaf(4), Leaf(2)], "+") == (Ok(Value(6, 0)), [])
    ensures CalculateFresh(r, "+") == Err(SyntaxError)
  {
    TwoValuesLeftOver(r, [], "42");
    assert [] + [Leaf(4), Leaf(2)] == [Leaf(4), Leaf(2)];
    RunFunction(r, [Leaf(4), Leaf(2)], "+", 0, Plus);
    ParseEdgeCases(r, '+');
  }
}
