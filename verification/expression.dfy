/** The arithmetic that expressions run on, left abstract: any carrier and any operations. The
    theorems about expressions therefore hold for IEEE doubles and for everything else. */
module Arithmetic {
  import opened Results

  type Double(==, !new)

  datatype Arithmetic = Arithmetic(
    negate: Double -> Double,
    add: (Double, Double) -> Double,
    subtract: (Double, Double) -> Double,
    multiply: (Double, Double) -> Double,
    divide: (Double, Double) -> Double,
    isFinite: Double -> bool,
    isZero: Double -> bool,
    fromChars: string -> Option<(nat, Double)>)
  {
    /** A successful literal scan consumes at least one character and no more than there are. */
    ghost predicate Valid() {
      forall text :: fromChars(text).Some? ==> 0 < fromChars(text).value.0 <= |text|
    }

    /** Changing the sign keeps a value finite. */
    ghost predicate NegationKeepsFinite() {
      forall d :: isFinite(d) ==> isFinite(negate(d))
    }

    /** A literal ends before white space, so trailing white space does not matter to it. */
    ghost predicate IgnoresTrailingSpace() {
      forall text: string, space: string {:trigger fromChars(text + space)} ::
        Blank(space) ==> fromChars(text + space) == fromChars(text)
    }
  }

  predicate Whitespace(c: char) {
    c == ' ' || c == '\t' || c == '\n' || c == '\r' || c == 12 as char || c == 11 as char
  }

  predicate Blank(text: string) {
    forall i :: 0 <= i < |text| ==> Whitespace(text[i])
  }
}

/** Expressions as trees: their meaning, the constant folding done while compiling, and the postfix
    code a stack machine runs (src/algorithms/expression/expression.cpp). */
module Expression {
  import opened Results
  import opened Arithmetic

  datatype Operation = Add | Subtract | Multiply | Divide

  datatype Tree =
    | Number(value: Double)
    | Input
    | Negated(operand: Tree)
    | Binary(operation: Operation, left: Tree, right: Tree)

  datatype SyntaxKind = UnexpectedToken | NestingTooDeep | MissingParenthesis | ExpectedPrimary | InvalidLiteral

  datatype Error =
    | SyntaxError(kind: SyntaxKind, position: nat)
    | NotFinite
    | DivideByZero
    | StackUnderflow

  predicate IsArithmetic(error: Error) {
    error.NotFinite? || error.DivideByZero?
  }

  type Value = Result<Double, Error>

  function Finite(a: Arithmetic, value: Double): Value {
    if a.isFinite(value) then Ok(value) else Err(NotFinite)
  }

  function Apply(a: Arithmetic, operation: Operation, left: Double, right: Double): Value {
    match operation
    case Add => Finite(a, a.add(left, right))
    case Subtract => Finite(a, a.subtract(left, right))
    case Multiply => Finite(a, a.multiply(left, right))
    case Divide => if a.isZero(right) then Err(DivideByZero) else Finite(a, a.divide(left, right))
  }

  /** The meaning of a tree at `x`: operands left to right, each operation checked. */
  function Eval(a: Arithmetic, tree: Tree, x: Double): Value {
    match tree
    case Number(value) => Ok(value)
    case Input => Ok(x)
    case Negated(operand) =>
      var value := Eval(a, operand, x);
      if value.Err? then value else Ok(a.negate(value.value))
    case Binary(operation, left, right) =>
      var l := Eval(a, left, x);
      if l.Err? then l else
      var r := Eval(a, right, x);
      if r.Err? then r else Apply(a, operation, l.value, r.value)
  }

  predicate UsesInput(tree: Tree) {
    match tree
    case Number(_) => false
    case Input => true
    case Negated(operand) => UsesInput(operand)
    case Binary(_, left, right) => UsesInput(left) || UsesInput(right)
  }

  /** A tree without the input means the same everywhere. */
  lemma {:induction false} ConstantTree(a: Arithmetic, tree: Tree, x: Double, y: Double)
    requires !UsesInput(tree)
    ensures Eval(a, tree, x) == Eval(a, tree, y)
  {
    match tree
    case Number(_) =>
    case Negated(operand) => ConstantTree(a, operand, x, y);
    case Binary(_, left, right) =>
      ConstantTree(a, left, x, y);
      ConstantTree(a, right, x, y);
  }

  // ---- Constant folding -------------------------------------------------------------------

  type Constant = Option<Double>

  /** What compiling knows of a tree: its constant value, if it has one, or the arithmetic error
      that stops the compilation. */
  function Folded(a: Arithmetic, tree: Tree): Result<Constant, Error> {
    match tree
    case Number(value) => Ok(Some(value))
    case Input => Ok(None)
    case Negated(operand) =>
      var value := Folded(a, operand);
      if value.Ok? && value.value.Some? then Ok(Some(a.negate(value.value.value))) else value
    case Binary(operation, left, right) =>
      var l := Folded(a, left);
      if l.Err? then l else
      var r := Folded(a, right);
      if r.Err? then r else FoldedBinary(a, operation, l.value, r.value)
  }

  function FoldedBinary(a: Arithmetic, operation: Operation, left: Constant, right: Constant): Result<Constant, Error> {
    if operation.Divide? && right.Some? && a.isZero(right.value) then Err(DivideByZero)
    else if left.None? || right.None? then Ok(None)
    else
      var value := Apply(a, operation, left.value, right.value);
      if value.Err? then Err(value.error) else Ok(Some(value.value))
  }

  /** A tree folded to a constant has that value for every input; a tree whose folding fails has no
      value for any input, so rejecting it at compile time loses nothing. */
  lemma {:induction false} FoldingKeepsMeaning(a: Arithmetic, tree: Tree, x: Double)
    ensures var folded := Folded(a, tree);
            && (folded.Err? ==> Eval(a, tree, x).Err? && IsArithmetic(folded.error))
            && (folded.Ok? && folded.value.Some? ==> Eval(a, tree, x) == Ok(folded.value.value))
  {
    match tree
    case Number(_) =>
    case Input =>
    case Negated(operand) => FoldingKeepsMeaning(a, operand, x);
    case Binary(_, left, right) =>
      FoldingKeepsMeaning(a, left, x);
      FoldingKeepsMeaning(a, right, x);
  }

  predicate FiniteNumbers(a: Arithmetic, tree: Tree) {
    match tree
    case Number(value) => a.isFinite(value)
    case Input => true
    case Negated(operand) => FiniteNumbers(a, operand)
    case Binary(_, left, right) => FiniteNumbers(a, left) && FiniteNumbers(a, right)
  }

  /** A finite input to a tree of finite numbers gives a finite value or an error. */
  lemma {:induction false} FiniteValue(a: Arithmetic, tree: Tree, x: Double)
    requires a.NegationKeepsFinite() && a.isFinite(x) && FiniteNumbers(a, tree)
    ensures Eval(a, tree, x).Ok? ==> a.isFinite(Eval(a, tree, x).value)
  {
    match tree
    case Number(_) =>
    case Input =>
    case Negated(operand) => FiniteValue(a, operand, x);
    case Binary(_, left, right) =>
  }

  // ---- Postfix code -----------------------------------------------------------------------

  datatype Instruction = PushNumber(value: Double) | PushInput | Negate | Operate(operation: Operation)

  function Code(tree: Tree): seq<Instruction> {
    match tree
    case Number(value) => [PushNumber(value)]
    case Input => [PushInput]
    case Negated(operand) => Code(operand) + [Negate]
    case Binary(operation, left, right) => Code(left) + Code(right) + [Operate(operation)]
  }

  /** The machine: runs code on a value stack, whose last element is its top. */
  function Run(a: Arithmetic, code: seq<Instruction>, x: Double, stack: seq<Double>): Result<seq<Double>, Error>
    decreases |code|
  {
    if code == [] then Ok(stack)
    else
      var n := |stack|;
      match code[0]
      case PushNumber(value) => Run(a, code[1..], x, stack + [value])
      case PushInput => Run(a, code[1..], x, stack + [x])
      case Negate =>
        if n < 1 then Err(StackUnderflow)
        else Run(a, code[1..], x, stack[..n - 1] + [a.negate(stack[n - 1])])
      case Operate(operation) =>
        if n < 2 then Err(StackUnderflow)
        else
          var value := Apply(a, operation, stack[n - 2], stack[n - 1]);
          if value.Err? then Err(value.error) else Run(a, code[1..], x, stack[..n - 2] + [value.value])
  }

  /** Running a tree's code pushes its value, or stops with its error; what is below on the stack
      and what follows in the code do not matter. */
  lemma {:induction false} CodeRuns(a: Arithmetic, tree: Tree, x: Double, rest: seq<Instruction>, stack: seq<Double>)
    ensures var value := Eval(a, tree, x);
            Run(a, Code(tree) + rest, x, stack)
            == if value.Err? then Err(value.error) else Run(a, rest, x, stack + [value.value])
    decreases tree
  {
    match tree
    case Number(value) =>
      assert (Code(tree) + rest)[1..] == rest;
    case Input =>
      assert (Code(tree) + rest)[1..] == rest;
    case Negated(operand) =>
      var tail := [Negate] + rest;
      assert Code(tree) + rest == Code(operand) + tail && tail[1..] == rest;
      CodeRuns(a, operand, x, tail, stack);
      var value := Eval(a, operand, x);
      if value.Ok? {
        assert (stack + [value.value])[..|stack|] == stack;
      }
    case Binary(operation, left, right) =>
      BinaryRuns(a, operation, left, right, x, rest, stack);
  }

  lemma {:induction false} BinaryRuns(a: Arithmetic, operation: Operation, left: Tree, right: Tree, x: Double,
                                      rest: seq<Instruction>, stack: seq<Double>)
    ensures var value := Eval(a, Binary(operation, left, right), x);
            Run(a, Code(Binary(operation, left, right)) + rest, x, stack)
            == if value.Err? then Err(value.error) else Run(a, rest, x, stack + [value.value])
    decreases Binary(operation, left, right), 0
  {
    var tail := [Operate(operation)] + rest;
    var middle := Code(right) + tail;
    assert Code(Binary(operation, left, right)) + rest == Code(left) + middle && tail[1..] == rest;
    CodeRuns(a, left, x, middle, stack);
    var l, r := Eval(a, left, x), Eval(a, right, x);
    if l.Ok? {
      CodeRuns(a, right, x, tail, stack + [l.value]);
      if r.Ok? {
        var full := stack + [l.value] + [r.value];
        assert full[..|full| - 2] == stack;
      }
    }
  }

  // ---- Stack discipline -------------------------------------------------------------------

  /** From `depth` values on the stack, every instruction finds its operands and exactly one value
      is left at the end. */
  predicate Balanced(code: seq<Instruction>, depth: nat)
    decreases |code|
  {
    if code == [] then depth == 1
    else match code[0]
      case PushNumber(_) => Balanced(code[1..], depth + 1)
      case PushInput => Balanced(code[1..], depth + 1)
      case Negate => depth >= 1 && Balanced(code[1..], depth)
      case Operate(_) => depth >= 2 && Balanced(code[1..], depth - 1)
  }

  /** A tree's code never underflows the stack and adds one value to it. */
  lemma {:induction false} CodeBalanced(tree: Tree, rest: seq<Instruction>, depth: nat)
    ensures Balanced(Code(tree) + rest, depth) == Balanced(rest, depth + 1)
    decreases tree
  {
    match tree
    case Number(_) =>
      assert (Code(tree) + rest)[1..] == rest;
    case Input =>
      assert (Code(tree) + rest)[1..] == rest;
    case Negated(operand) =>
      var tail := [Negate] + rest;
      assert Code(tree) + rest == Code(operand) + tail && tail[1..] == rest;
      CodeBalanced(operand, tail, depth);
    case Binary(operation, left, right) =>
      var tail := [Operate(operation)] + rest;
      assert Code(tree) + rest == Code(left) + (Code(right) + tail) && tail[1..] == rest;
      CodeBalanced(left, Code(right) + tail, depth);
      CodeBalanced(right, tail, depth + 1);
  }

  lemma {:induction false} InputInstruction(tree: Tree)
    ensures PushInput in Code(tree) <==> UsesInput(tree)
  {
    match tree
    case Number(_) =>
    case Input =>
    case Negated(operand) => InputInstruction(operand);
    case Binary(_, left, right) =>
      InputInstruction(left);
      InputInstruction(right);
  }

  /** The loop that runs a program. A balanced program needs no underflow check. */
  method Evaluate(a: Arithmetic, program: seq<Instruction>, x: Double) returns (r: Value)
    requires Balanced(program, 0)
    ensures r == if !a.isFinite(x) then Err(NotFinite)
                 else
                   var end := Run(a, program, x, []);
                   if end.Err? then Err(end.error) else if end.value == [] then Err(StackUnderflow)
                   else Ok(end.value[|end.value| - 1])
  {
    if !a.isFinite(x) {
      return Err(NotFinite);
    }
    var values: seq<Double> := [];
    var i := 0;
    assert program[0..] == program;
    while i < |program|
      invariant 0 <= i <= |program|
      invariant Balanced(program[i..], |values|)
      invariant Run(a, program[i..], x, values) == Run(a, program, x, [])
    {
      var instruction := program[i];
      assert program[i..][1..] == program[i + 1..];
      var n := |values|;
      match instruction {
        case PushNumber(value) => values := values + [value];
        case PushInput => values := values + [x];
        case Negate => values := values[..n - 1] + [a.negate(values[n - 1])];
        case Operate(operation) =>
          var value := Apply(a, operation, values[n - 2], values[n - 1]);
          if value.Err? {
            return value;
          }
          values := values[..n - 2] + [value.value];
      }
      i := i + 1;
    }
    r := Ok(values[|values| - 1]);
  }

  /** Running a compiled tree is evaluating it. */
  lemma CompiledMeaning(a: Arithmetic, tree: Tree, x: Double)
    ensures Balanced(Code(tree), 0)
    ensures var value := Eval(a, tree, x);
            Run(a, Code(tree), x, []) == if value.Err? then Err(value.error) else Ok([value.value])
  {
    assert Code(tree) + [] == Code(tree);
    CodeBalanced(tree, [], 0);
    CodeRuns(a, tree, x, [], []);
    var value := Eval(a, tree, x);
    if value.Ok? {
      assert [] + [value.value] == [value.value];
    }
  }
}
