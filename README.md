# Lazy postfix calculator, modelled in Dafny

This project models the lazy postfix calculator of `grupa6/zadanie7/ak385833/42.cc`.

A `LazyCalculator` keeps a registry of single-character tokens. Each token is
either a *literal* (a zero-argument provider) or a *function* (a binary
operator over two deferred operands). Parsing a postfix string pushes one
deferred value (`Lazy`) per literal and, per function token, replaces the two
top values by a new deferred value that will apply the operator. Nothing is
computed while parsing. `calculate` forces the single value that remains, and
each operator decides whether and how often to force its operands. This is how
`manytimes` (`$`) and the conditional `?` of the test program can skip or
repeat side effects.

The model has three modules:

- `LazyValue` (`lazy.dfy`) is the deferred value itself.
  - A `Lazy` is the tree of closures it stands for: `Leaf(v)` for a literal, `Node(op, a, b)` for an operator node.
  - `Force` is invoking the closure. It returns the integer together with the number of `"pomidor"` appends that the `P` operator of the test program performed, or `DivisionByZero` for the host's trap.
  - `Repeat` is the loop of `operator*(int, std::function)`, proved equal to the recursive definition `Repeated`, whose closed form is `RepeatedClosedForm`.
- `Calculator` (`calculator.dfy`) is the calculator, in two parts.
  - The registry is a value (`Registry`) with `Define` and `DefineLiteral`.
  - The stack machine is the functions `Step`, `Run`, `ParseSpec` and `CalculateSpec`.
  - The class `LazyCalculator` keeps the source's state: four arrays of 128 entries and an evaluation stack that lives on between calls. Its methods (`DoOperation`, `Parse`, `Calculate`, `Define`, `DefineFunction`, `DefineLiteral` and the constructor) are proved to behave exactly as those functions say.
- `DriverFacts` (`driver.dfy`) covers the expectations of the test program `main`.
  - Each one is stated as a lemma over any registry that binds the tokens as `main` has bound them at that point.
  - `ConcatStageQualifies`, `ManyTimesStageQualifies` and `IfThenStageQualifies` show that the registries `main` passes through are such registries, and `DriverRegistryKeepsDefaults` and `DriverRegistryBindsDriverTokens` show the same for the registry it ends with.

Two behaviours of the code differ from what a reader may expect; the model follows the code:

- **`define_literal` checks only the literal flag.** It refuses a token only when that token is already a literal. A token defined as a function can still become a literal, and the literal then shadows the function, because `doOperation` tests the literal flag first. See `DefineLiteralShadowsFunctions`.
- **The evaluation stack is never reset.** A failed `parse` leaves its partial stack behind for the next call; see "Findings". `Parse` and `Calculate` model this as written. `ParseIsolated` and `CalculateIsolated` model the intended behaviour, where each call starts from an empty stack.

## Model

| member | source | states |
|---|---|---|
| LazyValue.TruncDiv | grupa6/zadanie7/ak385833/42.cc:54 | C++ `/` on `int`: the magnitude quotient, negated when exactly one operand is negative; its meaning is stated by `TruncDivIsTruncation` |
| LazyValue.Repeated | grupa6/zadanie7/ak385833/42.cc:111-116 | the function that `operator*` returns, called once: `n` forcings in a row that discard the values, nothing when `n <= 0`, and a stop at the first trap |
| LazyValue.Force | grupa6/zadanie7/ak385833/42.cc:22 | invoking a deferred value: a leaf returns its literal; a node runs its operator, as the lambdas of lines 51-54 and 141-168 and `manytimes` at 118-121 do, forcing each operand only when that operator calls it |
| LazyValue.TruncDivIsTruncation | grupa6/zadanie7/ak385833/42.cc:54 | the quotient of `/` is truncated toward zero, as in C++: the remainder is smaller than the divisor in magnitude and is zero or has the sign of the dividend |
| LazyValue.RepeatedClosedForm | grupa6/zadanie7/ak385833/42.cc:111-116 | forcing a value `n` times yields 0 with `max(n, 0)` times its effects; if forcing it traps, the result is the trap exactly when there is at least one round |
| LazyValue.Repeat | grupa6/zadanie7/ak385833/42.cc:111-116 | the counting loop of `operator*` forces `fn` exactly `max(n, 0)` times (only once if the first forcing traps); its outcome is `Repeated(n, Force(fn))`; its effects are the number of calls times the effects of one forcing |
| LazyValue.EmitForcesNothing | grupa6/zadanie7/ak385833/42.cc:147 | `P` yields 0 with exactly one append, whatever its operands are, so it forces neither |
| LazyValue.IfThenShortCircuits | grupa6/zadanie7/ak385833/42.cc:161 | `?` with a condition that forces to 0 yields 0 after the condition's effects only; the second operand is never forced, even one that would trap |
| LazyValue.IfThenTaken | grupa6/zadanie7/ak385833/42.cc:161 | `?` with a non-zero condition yields the second operand, after the condition's effects |
| LazyValue.ManyTimesRepeatsEffects | grupa6/zadanie7/ak385833/42.cc:118-121 | `$` forces its count once and its second operand `max(count, 0)` times, and returns 0 |
| LazyValue.ManyTimesIsRepeat | grupa6/zadanie7/ak385833/42.cc:111-121 | a `$` node is the count's effects followed by the `operator*` loop `Repeated` over the second operand |
| LazyValue.ManyTimesSkipsOnNonPositive | grupa6/zadanie7/ak385833/42.cc:111-121 | with a count of at most 0 the second operand of `$` is never forced |
| LazyValue.NoEmitNoEffects | grupa6/zadanie7/ak385833/42.cc:51-54 | a tree without `P` nodes forces without any append, however often `$` repeats parts of it |
| LazyValue.EmitChainEffects | grupa6/zadanie7/ak385833/42.cc:146-152 | a chain of `,` over `P` nodes forces successfully with exactly one append per `P` node |
| Calculator.Kind | grupa6/zadanie7/ak385833/42.cc:58-61 | how `doOperation` classifies a token: a literal if its literal flag is set, else a function if its function flag is set, else undefined |
| Calculator.Defaults | grupa6/zadanie7/ak385833/42.cc:41-55 | the registry the constructor builds: both flag arrays cleared, then three literals and four functions stored |
| Calculator.Registry.Define | grupa6/zadanie7/ak385833/42.cc:89-96 | `define`: `OperatorAlreadyDefined` when either flag is set, otherwise the function stored and its flag set |
| Calculator.Registry.DefineLiteral | grupa6/zadanie7/ak385833/42.cc:102-108 | `define_literal`: `OperatorAlreadyDefined` only when the literal flag is set, otherwise the provider stored and its flag set |
| Calculator.Step | grupa6/zadanie7/ak385833/42.cc:57-71 | one `doOperation` on a stack value: push a leaf, pop `b` then `a` and push their node, or fail with the error |
| Calculator.Run | grupa6/zadanie7/ak385833/42.cc:75-76 | `for_each` of `doOperation` over the input from index `i`, stopping at the first error with the stack as it then is |
| Calculator.ParseSpec | grupa6/zadanie7/ak385833/42.cc:74-83 | `parse`: run the input, then succeed with the single value left (and an empty stack) or fail with `SyntaxError`, leaving whatever stack the run produced |
| Calculator.CalculateSpec | grupa6/zadanie7/ak385833/42.cc:85-87 | `calculate`: `parse` and then force the result once |
| Calculator.StoreFunctionDispatch | grupa6/zadanie7/ak385833/42.cc:94-95 | storing a function for `c` makes `c` dispatch to it unless a literal shadows `c`, and changes the dispatch of no other token |
| Calculator.StoreLiteralDispatch | grupa6/zadanie7/ak385833/42.cc:106-107 | storing a literal for `c` makes `c` dispatch to it and changes the dispatch of no other token |
| Calculator.DefineOnlyBindsFreshTokens | grupa6/zadanie7/ak385833/42.cc:89-96 | `define` succeeds if and only if the token is neither literal nor function, and otherwise fails with `OperatorAlreadyDefined`; on success the token becomes that function, the literal arrays stay as they were and no other token changes |
| Calculator.DefineLiteralShadowsFunctions | grupa6/zadanie7/ak385833/42.cc:102-108 | `define_literal` succeeds if and only if the token is not already a literal; on success the token dispatches as that literal, even over a function, and no other token changes |
| Calculator.RegistrationIsWriteOnce | grupa6/zadanie7/ak385833/42.cc:89-108 | a successful `define` or `define_literal` never undefines a token and never replaces a stored behaviour |
| Calculator.DefaultTokens | grupa6/zadanie7/ak385833/42.cc:41-55 | after the constructor, `0`, `2` and `4` are the literals 0, 2 and 4, and `+ - * /` are the four arithmetic operators |
| Calculator.DefaultsDefineNothingElse | grupa6/zadanie7/ak385833/42.cc:41-55 | after the constructor, every other character is undefined |
| Calculator.StepMovesTheStack | grupa6/zadanie7/ak385833/42.cc:57-71 | one token pushes one value (literal), replaces the top two by one (function, when two are present), or fails and leaves the stack as it was |
| Calculator.RunLiteral | grupa6/zadanie7/ak385833/42.cc:58-60 | a literal token pushes its leaf and the run goes on |
| Calculator.RunFunction | grupa6/zadanie7/ak385833/42.cc:61-67 | a function token over at least two values combines the top two into one node and the run goes on |
| Calculator.RunStops | grupa6/zadanie7/ak385833/42.cc:61-70 | an undefined token stops the run with `UnknownOperator`, and a function token with fewer than two values stops it with `SyntaxError`; either way the stack is left unchanged |
| Calculator.RunFollowsShape | grupa6/zadanie7/ak385833/42.cc:74-79 | how a run ends (the first error, or the final height) depends only on the starting height and the kind of each token, never on the values on the stack |
| Calculator.ParseFollowsShape | grupa6/zadanie7/ak385833/42.cc:74-83 | `parse` succeeds exactly when the run never fails and ends at height 1; otherwise it reports the run's error or `SyntaxError` |
| Calculator.ParseEdgeCases | grupa6/zadanie7/ak385833/42.cc:74-83 | empty input is a `SyntaxError`; a lone literal parses to its leaf; a lone function is a `SyntaxError`; a lone undefined token is an `UnknownOperator` |
| Calculator.LazyCalculator.constructor | grupa6/zadanie7/ak385833/42.cc:41-55 | the constructor clears both flag arrays, installs exactly the default registry, and starts with an empty stack |
| Calculator.LazyCalculator.InstallLiterals | grupa6/zadanie7/ak385833/42.cc:48-50 | the three `define_literal` calls of the constructor |
| Calculator.LazyCalculator.InstallAdditive | grupa6/zadanie7/ak385833/42.cc:51-52 | the constructor's definitions of `+` and `-` |
| Calculator.LazyCalculator.InstallMultiplicative | grupa6/zadanie7/ak385833/42.cc:53-54 | the constructor's definitions of `*` and `/` |
| Calculator.LazyCalculator.DoOperation | grupa6/zadanie7/ak385833/42.cc:57-71 | `doOperation` changes the stack exactly as `Step` says and reports its error, leaving the stack as it was on failure |
| Calculator.LazyCalculator.Parse | grupa6/zadanie7/ak385833/42.cc:74-83 | `parse` returns what `ParseSpec` says from the stack it finds, and leaves behind the stack `ParseSpec` says (the partial stack when it fails) |
| Calculator.LazyCalculator.Calculate | grupa6/zadanie7/ak385833/42.cc:85-87 | `calculate` forces the parsed value exactly once, and fails as `parse` fails |
| Calculator.LazyCalculator.ParseIsolated | grupa6/zadanie7/ak385833/42.cc:74-83 | `parse` with the stack emptied at entry: its result is `ParseFresh`, a function of the registry and the input alone |
| Calculator.LazyCalculator.CalculateIsolated | grupa6/zadanie7/ak385833/42.cc:85-87 | `calculate` over `ParseIsolated`: its result is `CalculateFresh`, and it leaves exactly the stack that a run from an empty stack leaves |
| Calculator.LazyCalculator.Define | grupa6/zadanie7/ak385833/42.cc:89-96 | `define` changes the arrays exactly as `Registry.Define` says, or fails with `OperatorAlreadyDefined` and changes nothing |
| Calculator.LazyCalculator.DefineFunction | grupa6/zadanie7/ak385833/42.cc:98-100 | `define_function` behaves as `define` |
| Calculator.LazyCalculator.DefineLiteral | grupa6/zadanie7/ak385833/42.cc:102-108 | `define_literal` changes the arrays exactly as `Registry.DefineLiteral` says, or fails with `OperatorAlreadyDefined` and changes nothing |
| DriverFacts.DefaultsQualify | grupa6/zadanie7/ak385833/42.cc:124 | the freshly constructed calculator binds the seven default tokens |
| DriverFacts.DriverDefinitions | grupa6/zadanie7/ak385833/42.cc:142-192 | the six `define` calls of the test program succeed in order, passing through the registries on which its calculations run; defining `!` again, or defining over the literal `0`, then fails with `OperatorAlreadyDefined` whatever the operator |
| DriverFacts.DriverRegistryKeepsDefaults | grupa6/zadanie7/ak385833/42.cc:142-168 | after those definitions the defaults are still bound as the constructor bound them |
| DriverFacts.DriverRegistryBindsDriverTokens | grupa6/zadanie7/ak385833/42.cc:142-199 | after those definitions `! , P $ ? 1` are bound to their operators and `&` is still undefined |
| DriverFacts.ConcatStageQualifies | grupa6/zadanie7/ak385833/42.cc:141-143 | the registry after `define('!', ...)` binds the defaults and `!`, as `ConcatMakesFortyTwo` requires |
| DriverFacts.ManyTimesStageQualifies | grupa6/zadanie7/ak385833/42.cc:141-157 | the registry after `define('$', manytimes)` binds the defaults, `!`, `P` and `$`, as `ManyTimesEmitsFortyTwo` requires |
| DriverFacts.IfThenStageQualifies | grupa6/zadanie7/ak385833/42.cc:141-166 | the registry after `define('?', ...)` binds the defaults, `!`, `P`, `$` and `?`, as `FalseConditionSkipsEmit` and `FalseConditionSkipsManyTimes` require |
| DriverFacts.LiteralsCalculate | grupa6/zadanie7/ak385833/42.cc:127-129 | `"0"`, `"2"` and `"4"` calculate to 0, 2 and 4 |
| DriverFacts.FourPlusTwo | grupa6/zadanie7/ak385833/42.cc:132 | `"42+"` parses to `4 + 2` and calculates to 6 |
| DriverFacts.TwoMinusFour | grupa6/zadanie7/ak385833/42.cc:133 | `"24-"` is `2 - 4`, the first operand pushed being the left one, and calculates to -2 |
| DriverFacts.FourTimesTwo | grupa6/zadanie7/ak385833/42.cc:134 | `"42*"` calculates to 8 |
| DriverFacts.FourOverTwo | grupa6/zadanie7/ak385833/42.cc:135 | `"42/"` calculates to 2 |
| DriverFacts.SubtractionChain | grupa6/zadanie7/ak385833/42.cc:137 | `"42-2-"` is `(4 - 2) - 2` and calculates to 0 |
| DriverFacts.NestedSubtraction | grupa6/zadanie7/ak385833/42.cc:138 | `"242--"` is `2 - (4 - 2)` and calculates to 0 |
| DriverFacts.MixedChain | grupa6/zadanie7/ak385833/42.cc:139 | `"22+2-2*2/0-"` is `((((2 + 2) - 2) * 2) / 2) - 0` and calculates to 2 |
| DriverFacts.DivisionIsDeferred | grupa6/zadanie7/ak385833/42.cc:66-67 | `"40/"` parses without trapping; only forcing the result traps |
| DriverFacts.ConcatMakesFortyTwo | grupa6/zadanie7/ak385833/42.cc:142-143 | once `!` is defined, `"42!"` calculates to 42 |
| DriverFacts.ManyTimesEmitsFortyTwo | grupa6/zadanie7/ak385833/42.cc:156-159 | `"42!42P$"` calculates to 0 with exactly 42 appends |
| DriverFacts.FalseConditionSkipsEmit | grupa6/zadanie7/ak385833/42.cc:161-163 | `"042P?"` calculates to 0 with no append |
| DriverFacts.FalseConditionSkipsManyTimes | grupa6/zadanie7/ak385833/42.cc:165-166 | `"042!42P$?"` calculates to 0 with no append |
| DriverFacts.ConstOneIgnoresOperands | grupa6/zadanie7/ak385833/42.cc:168-169 | once `1` is defined, `"021"` calculates to 1 |
| DriverFacts.Rejections | grupa6/zadanie7/ak385833/42.cc:171-199 | on a fresh stack `""`, `"42"`, `"4+"` and `"424+"` are syntax errors, and `"02&"` is an unknown operator whatever the stack holds |
| DriverFacts.RejectionsShareTheStack | grupa6/zadanie7/ak385833/42.cc:171-199 | run in the test program's order on one calculator, the bad inputs still fail as the test program expects, but each leaves its partial stack to the next |
| DriverFacts.LeftoverStackCompletesNextInput | grupa6/zadanie7/ak385833/42.cc:77-79 | after `"42"` fails, `"+"` calculates to 6 and empties the stack, although on an empty stack it is a syntax error |

## Left out

- Integer overflow is not modelled. Integers are unbounded, so the 32-bit wrap-around of `+`, `-`, `*`, of `a()*10 + b()`, and of `INT_MIN / -1` is absent.
- The stored `std::function` objects are not modelled as values.
  - A literal provider is the integer it returns: every provider of the source returns a constant.
  - A binary function is the `Op` that names it. A call to an arbitrary user lambda cannot be represented.
- A node keeps the operator found when it was pushed. The source's closure looks up `functions[c]` again only when it is forced. The two agree because registration is write-once (`RegistrationIsWriteOnce`).
- The `this` that each closure captures, and the closure's lifetime, are not modelled.
- Order of effects within one forcing is not recorded, only their number. `Force` forces the left operand first. The only effectful operator, `P`, appends the same word every time, so the count decides the buffer.
- The buffer string of the test program is not modelled. It is the effect count (appends of `"pomidor"`), and `buffer2`'s move is not modelled.
- Division by zero is the value `DivisionByZero`, standing for the host's trap; it is not an error of the calculator.
- Popping an operand from a stack holding fewer than two values is undefined behaviour in the source (`std::stack::top` on an empty stack). The model reports it as `SyntaxError` and leaves the stack as it was.
- Characters with codes of 128 or more are not modelled. They index past the arrays in the source, so the class methods require tokens below 128, and the pure functions treat such characters as undefined.
- The long `P` string of the test program (42.cc:148-152) is not proved token by token. `EmitChainEffects` states the general fact it checks: a chain of `,` over `P` nodes appends once per `P` node.
- `main`'s control flow is not modelled: its `assert`s, its `try`/`catch` and the `for` loop over the bad inputs. Each expectation is a lemma of `DriverFacts` instead.
- The `std::bind`/`for_each` plumbing of `parse` is modelled as the index loop it amounts to.

## Findings

| source | as written | input that shows it | evidently intended | confidence | as-written member | corrected member |
|---|---|---|---|---|---|---|
| grupa6/zadanie7/ak385833/42.cc:77-79 | `parse` throws `SyntaxError` without emptying the stack, and the stack is a member that outlives the call | `calculate("42")` fails and leaves 4 and 2 on the stack; a following `calculate("+")` then returns 6 instead of failing | every `parse` starts from an empty stack, so its result depends only on the registry and the input | not executed | DriverFacts.LeftoverStackCompletesNextInput | Calculator.LazyCalculator.ParseIsolated |
