/** The expression grammar, and the recursive-descent compiler that reads it while emitting postfix
    code (src/algorithms/expression/expression.cpp). */
module ExpressionGrammar {
  import opened Results
  import opened Arithmetic
  import opened Expression

  const MAXIMUM_NESTING: nat := 8

  /** A tree and the position after it, or the first syntax error and the operands completed before
      it was met, in order. */
  datatype Parsed = Parsed(tree: Tree, end: nat) | Bad(error: Error, completed: seq<Tree>)

  function Skip(text: string, position: nat): (p: nat)
    requires position <= |text|
    ensures position <= p <= |text|
    ensures p < |text| ==> !Whitespace(text[p])
    ensures Blank(text[position..p])
    decreases |text| - position
  {
    if position < |text| && Whitespace(text[position]) then
      var p := Skip(text, position + 1);
      assert text[position..p] == [text[position]] + text[position + 1..p];
      p
    else position
  }

  /** Whether the next token is `token`, and the position it leaves. */
  function Consumed(text: string, position: nat, token: char): (bool, nat)
    requires position <= |text|
  {
    var p := Skip(text, position);
    if p < |text| && text[p] == token then (true, p + 1) else (false, p)
  }

  function SumOperation(c: char): Option<Operation> {
    if c == '+' then Some(Add) else if c == '-' then Some(Subtract) else None
  }

  function ProductOperation(c: char): Option<Operation> {
    if c == '*' then Some(Multiply) else if c == '/' then Some(Divide) else None
  }

  // The grammar without folding. Sums and products associate to the left; a sign run is one
  // negation or none; parentheses nest at most eight deep.

  function ParseSum(a: Arithmetic, text: string, position: nat, nesting: nat): (r: Parsed)
    requires a.Valid() && position <= |text|
    ensures r.Parsed? ==> position < r.end <= |text|
    decreases |text| - position, 3
  {
    var first := ParseProduct(a, text, position, nesting);
    if first.Bad? then first else SumRest(a, text, first.tree, first.end, nesting)
  }

  function SumRest(a: Arithmetic, text: string, left: Tree, position: nat, nesting: nat): (r: Parsed)
    requires a.Valid() && position <= |text|
    ensures r.Parsed? ==> position <= r.end <= |text|
    decreases |text| - position, 4
  {
    var p := Skip(text, position);
    if p == |text| || SumOperation(text[p]).None? then Parsed(left, p)
    else
      var right := ParseProduct(a, text, p + 1, nesting);
      if right.Bad? then Bad(right.error, [left] + right.completed)
      else SumRest(a, text, Binary(SumOperation(text[p]).value, left, right.tree), right.end, nesting)
  }

  function ParseProduct(a: Arithmetic, text: string, position: nat, nesting: nat): (r: Parsed)
    requires a.Valid() && position <= |text|
    ensures r.Parsed? ==> position < r.end <= |text|
    decreases |text| - position, 2
  {
    var first := ParseUnary(a, text, position, nesting);
    if first.Bad? then first else ProductRest(a, text, first.tree, first.end, nesting)
  }

  function ProductRest(a: Arithmetic, text: string, left: Tree, position: nat, nesting: nat): (r: Parsed)
    requires a.Valid() && position <= |text|
    ensures r.Parsed? ==> position <= r.end <= |text|
    decreases |text| - position, 4
  {
    var p := Skip(text, position);
    if p == |text| || ProductOperation(text[p]).None? then Parsed(left, p)
    else
      var right := ParseUnary(a, text, p + 1, nesting);
      if right.Bad? then Bad(right.error, [left] + right.completed)
      else ProductRest(a, text, Binary(ProductOperation(text[p]).value, left, right.tree), right.end, nesting)
  }

  /** The parity of a run of signs, and the position after it. */
  function Signs(text: string, position: nat, negative: bool): (r: (bool, nat))
    requires position <= |text|
    ensures position <= r.1 <= |text|
    decreases |text| - position
  {
    var minus := Consumed(text, position, '-');
    if minus.0 then Signs(text, minus.1, !negative)
    else
      var plus := Consumed(text, minus.1, '+');
      if plus.0 then Signs(text, plus.1, negative) else (negative, plus.1)
  }

  function ParseUnary(a: Arithmetic, text: string, position: nat, nesting: nat): (r: Parsed)
    requires a.Valid() && position <= |text|
    ensures r.Parsed? ==> position < r.end <= |text|
    decreases |text| - position, 1
  {
    var signs := Signs(text, position, false);
    var operand := ParsePrimary(a, text, signs.1, nesting);
    if operand.Parsed? && signs.0 then Parsed(Negated(operand.tree), operand.end) else operand
  }

  predicate StartsLiteral(c: char) {
    c == '.' || '0' <= c <= '9'
  }

  function ParsePrimary(a: Arithmetic, text: string, position: nat, nesting: nat): (r: Parsed)
    requires a.Valid() && position <= |text|
    ensures r.Parsed? ==> position < r.end <= |text|
    decreases |text| - position, 0
  {
    var p := Skip(text, position);
    if p == |text| then Bad(SyntaxError(ExpectedPrimary, p), [])
    else if text[p] == '(' then
      if nesting >= MAXIMUM_NESTING then Bad(SyntaxError(NestingTooDeep, p + 1), [])
      else
        var inner := ParseSum(a, text, p + 1, nesting + 1);
        if inner.Bad? then inner
        else
          var close := Consumed(text, inner.end, ')');
          if close.0 then Parsed(inner.tree, close.1)
          else Bad(SyntaxError(MissingParenthesis, close.1), [inner.tree])
    else if text[p] == 'x' then Parsed(Input, p + 1)
    else if !StartsLiteral(text[p]) then Bad(SyntaxError(ExpectedPrimary, p), [])
    else
      var literal := a.fromChars(text[p..]);
      if literal.None? then Bad(SyntaxError(InvalidLiteral, p), [])
      else if !a.isFinite(literal.value.1) then Bad(NotFinite, [])
      else Parsed(Number(literal.value.1), p + literal.value.0)
  }

  /** White space trimmed from both ends. */
  function Trimmed(text: string): (t: string)
    decreases |text|
  {
    if text == [] then text
    else if Whitespace(text[0]) then Trimmed(text[1..])
    else if Whitespace(text[|text| - 1]) then Trimmed(text[..|text| - 1])
    else text
  }

  /** The tree a whole text stands for; an empty text is the input itself. */
  function ParseText(a: Arithmetic, text: string): Result<Tree, Error>
    requires a.Valid()
  {
    var t := Trimmed(text);
    if t == [] then Ok(Input)
    else
      var sum := ParseSum(a, t, 0, 0);
      if sum.Bad? then Err(sum.error)
      else if Skip(t, sum.end) != |t| then Err(SyntaxError(UnexpectedToken, Skip(t, sum.end)))
      else Ok(sum.tree)
  }

  // ---- Finite literals --------------------------------------------------------------------

  lemma {:induction false} SumFinite(a: Arithmetic, text: string, position: nat, nesting: nat)
    requires a.Valid() && position <= |text| && ParseSum(a, text, position, nesting).Parsed?
    ensures FiniteNumbers(a, ParseSum(a, text, position, nesting).tree)
    decreases |text| - position, 3
  {
    ProductFinite(a, text, position, nesting);
    var first := ParseProduct(a, text, position, nesting);
    SumRestFinite(a, text, first.tree, first.end, nesting);
  }

  lemma {:induction false} SumRestFinite(a: Arithmetic, text: string, left: Tree, position: nat, nesting: nat)
    requires a.Valid() && position <= |text| && FiniteNumbers(a, left)
    requires SumRest(a, text, left, position, nesting).Parsed?
    ensures FiniteNumbers(a, SumRest(a, text, left, position, nesting).tree)
    decreases |text| - position, 4
  {
    var p := Skip(text, position);
    if p < |text| && SumOperation(text[p]).Some? {
      ProductFinite(a, text, p + 1, nesting);
      var right := ParseProduct(a, text, p + 1, nesting);
      SumRestFinite(a, text, Binary(SumOperation(text[p]).value, left, right.tree), right.end, nesting);
    }
  }

  lemma {:induction false} ProductFinite(a: Arithmetic, text: string, position: nat, nesting: nat)
    requires a.Valid() && position <= |text| && ParseProduct(a, text, position, nesting).Parsed?
    ensures FiniteNumbers(a, ParseProduct(a, text, position, nesting).tree)
    decreases |text| - position, 2
  {
    UnaryFinite(a, text, position, nesting);
    var first := ParseUnary(a, text, position, nesting);
    ProductRestFinite(a, text, first.tree, first.end, nesting);
  }

  lemma {:induction false} ProductRestFinite(a: Arithmetic, text: string, left: Tree, position: nat, nesting: nat)
    requires a.Valid() && position <= |text| && FiniteNumbers(a, left)
    requires ProductRest(a, text, left, position, nesting).Parsed?
    ensures FiniteNumbers(a, ProductRest(a, text, left, position, nesting).tree)
    decreases |text| - position, 4
  {
    var p := Skip(text, position);
    if p < |text| && ProductOperation(text[p]).Some? {
      UnaryFinite(a, text, p + 1, nesting);
      var right := ParseUnary(a, text, p + 1, nesting);
      ProductRestFinite(a, text, Binary(ProductOperation(text[p]).value, left, right.tree), right.end, nesting);
    }
  }

  lemma {:induction false} UnaryFinite(a: Arithmetic, text: string, position: nat, nesting: nat)
    requires a.Valid() && position <= |text| && ParseUnary(a, text, position, nesting).Parsed?
    ensures FiniteNumbers(a, ParseUnary(a, text, position, nesting).tree)
    decreases |text| - position, 1
  {
    var start := Signs(text, position, false).1;
    var p := Skip(text, start);
    if text[p] == '(' && nesting < MAXIMUM_NESTING {
      SumFinite(a, text, p + 1, nesting + 1);
    }
  }
}

/** The compiler as written: a parser object that advances through the text, pushes instructions as
    it recognises their operands, and folds constants on the way. */
module ExpressionParser {
  import opened Results
  import opened Arithmetic
  import opened Expression
  import opened ExpressionGrammar

  /** The error reported when the grammar fails: that of the first completed operand that does not
      fold, or else the grammar's. */
  function FirstError(a: Arithmetic, error: Error, completed: seq<Tree>): Error {
    if completed == [] then error
    else
      var folded := Folded(a, completed[0]);
      if folded.Err? then folded.error else FirstError(a, error, completed[1..])
  }

  lemma OneCompleted(a: Arithmetic, error: Error, tree: Tree)
    ensures FirstError(a, error, [tree]) == if Folded(a, tree).Err? then Folded(a, tree).error else error
  {
    hide Folded;
    assert FirstError(a, error, [tree][1..]) == error;
  }

  /** A parser method did what the grammar says of the same text: the tree's code was emitted and
      its folding returned, or compilation stopped at the first error, of folding or of syntax. */
  ghost predicate Agrees(a: Arithmetic, parsed: Parsed, r: Result<Constant, Error>, emitted: seq<Instruction>,
                         code: seq<Instruction>, end: nat)
  {
    match parsed
    case Bad(error, completed) => r == Err(FirstError(a, error, completed))
    case Parsed(tree, treeEnd) =>
      var folded := Folded(a, tree);
      if folded.Err? then r == folded
      else r == folded && code == emitted + Code(tree) && end == treeEnd
  }

  /** The first failing operand decides how a chain folds. */
  lemma {:induction false} SumRestFails(a: Arithmetic, text: string, left: Tree, position: nat, nesting: nat)
    requires a.Valid() && position <= |text| && Folded(a, left).Err?
    ensures match SumRest(a, text, left, position, nesting)
            case Parsed(tree, _) => Folded(a, tree) == Folded(a, left)
            case Bad(_, completed) => completed != [] && Folded(a, completed[0]) == Folded(a, left)
    decreases |text| - position
  {
    hide ParseProduct, Skip, Blank;
    var p := Skip(text, position);
    if p < |text| && SumOperation(text[p]).Some? {
      var right := ParseProduct(a, text, p + 1, nesting);
      if right.Parsed? {
        SumRestFails(a, text, Binary(SumOperation(text[p]).value, left, right.tree), right.end, nesting);
      }
    }
  }

  lemma {:induction false} ProductRestFails(a: Arithmetic, text: string, left: Tree, position: nat, nesting: nat)
    requires a.Valid() && position <= |text| && Folded(a, left).Err?
    ensures match ProductRest(a, text, left, position, nesting)
            case Parsed(tree, _) => Folded(a, tree) == Folded(a, left)
            case Bad(_, completed) => completed != [] && Folded(a, completed[0]) == Folded(a, left)
    decreases |text| - position
  {
    hide ParseUnary, Skip, Blank;
    var p := Skip(text, position);
    if p < |text| && ProductOperation(text[p]).Some? {
      var right := ParseUnary(a, text, p + 1, nesting);
      if right.Parsed? {
        ProductRestFails(a, text, Binary(ProductOperation(text[p]).value, left, right.tree), right.end, nesting);
      }
    }
  }

  /** Stopping at an operand that fails, or whose combination fails, agrees with the grammar
      whatever follows. */
  lemma SumStops(a: Arithmetic, text: string, left: Tree, position: nat, nesting: nat, r: Result<Constant, Error>)
    requires a.Valid() && position <= |text| && Folded(a, left).Err? && r == Folded(a, left)
    ensures Agrees(a, SumRest(a, text, left, position, nesting), r, [], [], 0)
  {
    SumRestFails(a, text, left, position, nesting);
  }

  lemma ProductStops(a: Arithmetic, text: string, left: Tree, position: nat, nesting: nat, r: Result<Constant, Error>)
    requires a.Valid() && position <= |text| && Folded(a, left).Err? && r == Folded(a, left)
    ensures Agrees(a, ProductRest(a, text, left, position, nesting), r, [], [], 0)
  {
    ProductRestFails(a, text, left, position, nesting);
  }

  /** What one turn of the sum loop reads. */
  lemma SumTurn(a: Arithmetic, text: string, left: Tree, position: nat, nesting: nat)
    requires a.Valid() && position <= |text|
    ensures var p := Skip(text, position);
            var rest := SumRest(a, text, left, position, nesting);
            if p == |text| || SumOperation(text[p]).None? then rest == Parsed(left, p)
            else
              var right := ParseProduct(a, text, p + 1, nesting);
              if right.Bad? then rest == Bad(right.error, [left] + right.completed)
              else rest == SumRest(a, text, Binary(SumOperation(text[p]).value, left, right.tree), right.end, nesting)
  {
  }

  lemma ProductTurn(a: Arithmetic, text: string, left: Tree, position: nat, nesting: nat)
    requires a.Valid() && position <= |text|
    ensures var p := Skip(text, position);
            var rest := ProductRest(a, text, left, position, nesting);
            if p == |text| || ProductOperation(text[p]).None? then rest == Parsed(left, p)
            else
              var right := ParseUnary(a, text, p + 1, nesting);
              if right.Bad? then rest == Bad(right.error, [left] + right.completed)
              else rest == ProductRest(a, text, Binary(ProductOperation(text[p]).value, left, right.tree), right.end,
                                       nesting)
  {
  }

  predicate ZeroDivisor(a: Arithmetic, operation: Operation, right: Constant) {
    operation.Divide? && right.Some? && a.isZero(right.value)
  }

  /** A combination folds as its operands do, and its code is theirs and the operation. */
  lemma Combines(a: Arithmetic, operation: Operation, left: Tree, right: Tree, emitted: seq<Instruction>)
    requires Folded(a, left).Ok?
    ensures var tree := Binary(operation, left, right);
            && Folded(a, tree) == (if Folded(a, right).Err? then Folded(a, right)
                                   else FoldedBinary(a, operation, Folded(a, left).value, Folded(a, right).value))
            && (Folded(a, right).Ok? && ZeroDivisor(a, operation, Folded(a, right).value) ==>
                  Folded(a, tree) == Err(DivideByZero))
            && emitted + Code(left) + Code(right) + [Operate(operation)] == emitted + Code(tree)
  {
    CombinedCode(operation, left, right, emitted);
    hide Code;
  }

  lemma CombinedCode(operation: Operation, left: Tree, right: Tree, emitted: seq<Instruction>)
    ensures emitted + Code(left) + Code(right) + [Operate(operation)] == emitted + Code(Binary(operation, left, right))
  {
  }

  lemma SkipAgain(text: string, position: nat)
    requires position <= |text| && (position < |text| ==> !Whitespace(text[position]))
    ensures Skip(text, position) == position
  {
  }

  class Parser {
    const a: Arithmetic
    const text: string
    var position: nat
    var nesting: nat
    var instructions: seq<Instruction>

    ghost predicate Valid()
      reads this
    {
      a.Valid() && position <= |text|
    }

    constructor (a: Arithmetic, text: string)
      requires a.Valid()
      ensures Valid() && this.a == a && this.text == text && position == 0 && nesting == 0 && instructions == []
    {
      this.a := a;
      this.text := text;
      position := 0;
      nesting := 0;
      instructions := [];
    }

    method SkipWhitespace()
      requires Valid()
      modifies this`position
      ensures Valid() && position == Skip(text, old(position))
    {
      while position < |text| && Whitespace(text[position])
        invariant old(position) <= position <= |text|
        invariant Skip(text, position) == Skip(text, old(position))
      {
        position := position + 1;
      }
    }

    method Consume(token: char) returns (found: bool)
      requires Valid()
      modifies this`position
      ensures Valid() && (found, position) == Consumed(text, old(position), token)
    {
      SkipWhitespace();
      if position == |text| || text[position] != token {
        return false;
      }
      position := position + 1;
      found := true;
    }

    /** Emits an operation and folds it when both operands are constant. */
    method EmitBinary(operation: Operation, left: Constant, right: Constant) returns (r: Result<Constant, Error>)
      requires !ZeroDivisor(a, operation, right)
      modifies this`instructions
      ensures instructions == old(instructions) + [Operate(operation)]
      ensures r == FoldedBinary(a, operation, left, right)
    {
      instructions := instructions + [Operate(operation)];
      if left.None? || right.None? {
        return Ok(None);
      }
      var value := Apply(a, operation, left.value, right.value);
      r := if value.Err? then Err(value.error) else Ok(Some(value.value));
    }

    method Sum() returns (r: Result<Constant, Error>)
      requires Valid()
      modifies this
      ensures Valid() && nesting == old(nesting)
      ensures Agrees(a, ParseSum(a, text, old(position), old(nesting)), r, old(instructions), instructions, position)
      decreases |text| - position, 3
    {
      hide Folded, Code, SumRest, Skip, FoldedBinary, IsArithmetic, ParseProduct;
      ghost var emitted, whole := instructions, ParseSum(a, text, position, nesting);
      ghost var first := ParseProduct(a, text, position, nesting);
      r := Product();
      if r.Err? {
        if first.Parsed? {
          SumStops(a, text, first.tree, first.end, nesting, r);
        }
        return r;
      }
      ghost var tree := first.tree;
      while true
        invariant Valid() && nesting == old(nesting) && old(position) < position
        invariant r == Folded(a, tree) && r.Ok? && instructions == emitted + Code(tree)
        invariant SumRest(a, text, tree, position, nesting) == whole
        decreases |text| - position
      {
        SumTurn(a, text, tree, position, nesting);
        SkipWhitespace();
        if position == |text| || SumOperation(text[position]).None? {
          break;
        }
        var operation := SumOperation(text[position]).value;
        position := position + 1;
        ghost var operand := ParseProduct(a, text, position, nesting);
        var right := Product();
        ghost var grown := if operand.Parsed? then Binary(operation, tree, operand.tree) else tree;
        if operand.Parsed? {
          Combines(a, operation, tree, operand.tree, emitted);
        }
        if right.Err? {
          if operand.Parsed? {
            SumStops(a, text, grown, operand.end, nesting, right);
          }
          return right;
        }
        r := EmitBinary(operation, r.value, right.value);
        tree := grown;
        if r.Err? {
          SumStops(a, text, tree, position, nesting, r);
          return r;
        }
      }
    }

    method Product() returns (r: Result<Constant, Error>)
      requires Valid()
      modifies this
      ensures Valid() && nesting == old(nesting)
      ensures Agrees(a, ParseProduct(a, text, old(position), old(nesting)), r, old(instructions), instructions, position)
      decreases |text| - position, 2
    {
      hide Folded, Code, ProductRest, Skip, FoldedBinary, IsArithmetic, ParseUnary;
      ghost var emitted, whole := instructions, ParseProduct(a, text, position, nesting);
      ghost var first := ParseUnary(a, text, position, nesting);
      r := Unary();
      if r.Err? {
        if first.Parsed? {
          ProductStops(a, text, first.tree, first.end, nesting, r);
        }
        return r;
      }
      ghost var tree := first.tree;
      while true
        invariant Valid() && nesting == old(nesting) && old(position) < position
        invariant r == Folded(a, tree) && r.Ok? && instructions == emitted + Code(tree)
        invariant ProductRest(a, text, tree, position, nesting) == whole
        decreases |text| - position
      {
        ProductTurn(a, text, tree, position, nesting);
        SkipWhitespace();
        if position == |text| || ProductOperation(text[position]).None? {
          break;
        }
        var operation := ProductOperation(text[position]).value;
        position := position + 1;
        ghost var operand := ParseUnary(a, text, position, nesting);
        var right := Unary();
        ghost var grown := if operand.Parsed? then Binary(operation, tree, operand.tree) else tree;
        if operand.Parsed? {
          Combines(a, operation, tree, operand.tree, emitted);
        }
        if right.Err? {
          if operand.Parsed? {
            ProductStops(a, text, grown, operand.end, nesting, right);
          }
          return right;
        }
        if ZeroDivisor(a, operation, right.value) {
          ProductStops(a, text, grown, position, nesting, Err(DivideByZero));
          return Err(DivideByZero);
        }
        r := EmitBinary(operation, r.value, right.value);
        tree := grown;
        if r.Err? {
          ProductStops(a, text, tree, position, nesting, r);
          return r;
        }
      }
    }

    method Unary() returns (r: Result<Constant, Error>)
      requires Valid()
      modifies this
      ensures Valid() && nesting == old(nesting)
      ensures Agrees(a, ParseUnary(a, text, old(position), old(nesting)), r, old(instructions), instructions, position)
      decreases |text| - position, 1
    {
      var negative := false;
      while true
        invariant Valid() && nesting == old(nesting) && instructions == old(instructions)
        invariant old(position) <= position
        invariant Signs(text, position, negative) == Signs(text, old(position), false)
        decreases |text| - position
      {
        var minus := Consume('-');
        if minus {
          negative := !negative;
        } else {
          var plus := Consume('+');
          if !plus {
            break;
          }
        }
      }
      r := Primary();
      if r.Ok? && negative {
        instructions := instructions + [Negate];
        if r.value.Some? {
          r := Ok(Some(a.negate(r.value.value)));
        }
      }
    }

    method Primary() returns (r: Result<Constant, Error>)
      requires Valid()
      modifies this
      ensures Valid() && nesting == old(nesting)
      ensures Agrees(a, ParsePrimary(a, text, old(position), old(nesting)), r, old(instructions), instructions, position)
      decreases |text| - position, 0
    {
      hide Skip, Blank, ParseSum;
      var open_ := Consume('(');
      if open_ {
        if nesting >= MAXIMUM_NESTING {
          return Err(SyntaxError(NestingTooDeep, position));
        }
        nesting := nesting + 1;
        ghost var inner := ParseSum(a, text, position, nesting);
        r := Sum();
        nesting := nesting - 1;
        if inner.Parsed? {
          OneCompleted(a, SyntaxError(MissingParenthesis, Consumed(text, inner.end, ')').1), inner.tree);
        }
        if r.Err? {
          return r;
        }
        var close := Consume(')');
        if !close {
          return Err(SyntaxError(MissingParenthesis, position));
        }
        return r;
      }
      SkipAgain(text, position);
      var input := Consume('x');
      if input {
        instructions := instructions + [PushInput];
        return Ok(None);
      }
      SkipWhitespace();
      if position == |text| || !StartsLiteral(text[position]) {
        return Err(SyntaxError(ExpectedPrimary, position));
      }
      var literal := a.fromChars(text[position..]);
      if literal.None? {
        return Err(SyntaxError(InvalidLiteral, position));
      }
      position := position + literal.value.0;
      if !a.isFinite(literal.value.1) {
        return Err(NotFinite);
      }
      instructions := instructions + [PushNumber(literal.value.1)];
      r := Ok(Some(literal.value.1));
    }

    /** The whole text, or an error: at a token left over, where the grammar fails, or where
        folding does. */
    method CompileAll() returns (r: Result<Constant, Error>)
      requires Valid() && position == 0 && nesting == 0 && instructions == []
      modifies this
      ensures var sum := ParseSum(a, text, 0, 0);
              if sum.Bad? then r == Err(FirstError(a, sum.error, sum.completed))
              else if Folded(a, sum.tree).Err? then r == Folded(a, sum.tree)
              else if Skip(text, sum.end) != |text| then r == Err(SyntaxError(UnexpectedToken, Skip(text, sum.end)))
              else r == Folded(a, sum.tree) && instructions == Code(sum.tree)
    {
      hide Folded, Code, ParseSum, Skip, IsArithmetic;
      r := Sum();
      if r.Err? {
        return r;
      }
      SkipWhitespace();
      if position != |text| {
        return Err(SyntaxError(UnexpectedToken, position));
      }
    }
  }

  // ---- Compiling and evaluating text ------------------------------------------------------

  /** What is wrong with a text that does not parse: an operand completed before the syntax error that
      does not fold, or the syntax error, at the place where reading stopped. */
  function TextError(a: Arithmetic, text: string): Error
    requires a.Valid() && ParseText(a, text).Err?
  {
    var sum := ParseSum(a, Trimmed(text), 0, 0);
    if sum.Bad? then FirstError(a, sum.error, sum.completed)
    else FirstError(a, ParseText(a, text).error, [sum.tree])
  }

  /** Compiling succeeds exactly when the whole text parses and folds, and the program is then
      the tree's code. */
  method Compile(a: Arithmetic, text: string) returns (r: Result<seq<Instruction>, Error>)
    requires a.Valid()
    ensures var tree := ParseText(a, text);
            && (r.Ok? <==> tree.Ok? && Folded(a, tree.value).Ok?)
            && (r.Ok? ==> r.value == Code(tree.value) && Balanced(r.value, 0))
            && (tree.Ok? && Folded(a, tree.value).Err? ==> r == Err(Folded(a, tree.value).error))
            && (tree.Err? ==> r == Err(TextError(a, text)))
  {
    hide Folded, Code, ParseSum, Skip, IsArithmetic, Balanced, Trimmed;
    var t := Trimmed(text);
    ghost var tree := ParseText(a, text);
    if tree.Ok? {
      ProgramBalanced(tree.value);
    }
    if t == [] {
      InputProgram(a);
      return Ok([PushInput]);
    }
    var parser := new Parser(a, t);
    var result := parser.CompileAll();
    ghost var sum := ParseSum(a, t, 0, 0);
    if sum.Parsed? && tree.Err? {
      OneCompleted(a, tree.error, sum.tree);
    }
    r := if result.Err? then Err(result.error) else Ok(parser.instructions);
  }

  lemma ProgramBalanced(tree: Tree)
    ensures Balanced(Code(tree), 0)
  {
    assert Code(tree) + [] == Code(tree);
    CodeBalanced(tree, [], 0);
  }

  lemma InputProgram(a: Arithmetic)
    ensures Code(Input) == [PushInput] && Folded(a, Input) == Ok(None)
  {
  }

  /** What evaluating a text once gives: the text's error, folding's, the input's, or the tree's value or
      error, in this order. */
  function OneShot(a: Arithmetic, text: string, x: Double): Value
    requires a.Valid()
  {
    var tree := ParseText(a, text);
    if tree.Err? then Err(TextError(a, text))
    else if Folded(a, tree.value).Err? then Err(Folded(a, tree.value).error)
    else if a.isFinite(x) then Eval(a, tree.value, x)
    else Err(NotFinite)
  }

  /** The one-shot evaluation gives a value exactly when the input is finite, the whole text parses
      and its tree has that value there: folding and the stack machine cannot be observed. */
  method EvaluateChecked(a: Arithmetic, text: string, x: Double) returns (r: Value)
    requires a.Valid()
    ensures r.Ok? <==> a.isFinite(x) && ParseText(a, text).Ok? && Eval(a, ParseText(a, text).value, x).Ok?
    ensures r == OneShot(a, text, x)
  {
    hide Folded, Code, ParseText, Balanced, Eval, Run;
    ghost var tree := ParseText(a, text);
    if tree.Ok? {
      FoldingKeepsMeaning(a, tree.value, x);
      CompiledMeaning(a, tree.value, x);
    }
    var compiled := Compile(a, text);
    if compiled.Err? {
      return Err(compiled.error);
    }
    r := Evaluate(a, compiled.value, x);
  }

  /** Whatever the text, a value is finite. */
  lemma EvaluatesToFinite(a: Arithmetic, text: string, x: Double)
    requires a.Valid() && a.NegationKeepsFinite() && a.isFinite(x) && ParseText(a, text).Ok?
    ensures var value := Eval(a, ParseText(a, text).value, x); value.Ok? ==> a.isFinite(value.value)
  {
    var t := Trimmed(text);
    if t != [] {
      SumFinite(a, t, 0, 0);
    }
    FiniteValue(a, ParseText(a, text).value, x);
  }
}
