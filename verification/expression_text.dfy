/** What expression texts evaluate to, told from the characters and the arithmetic alone
    (src/algorithms/expression/expression.cpp). */
module ExpressionText {
  import opened Results
  import opened Arithmetic
  import opened Expression
  import opened ExpressionGrammar
  import opened ExpressionParser
  import opened ExpressionPrinter

  /** Where a tree's operands have values, its own folding and meaning agree, errors included. */
  lemma OperandsFold(a: Arithmetic, operation: Operation, left: Tree, right: Tree, x: Double)
    requires Eval(a, left, x).Ok? && Eval(a, right, x).Ok?
    ensures var folded, value := Folded(a, Binary(operation, left, right)), Eval(a, Binary(operation, left, right), x);
            folded.Err? ==> value == Err(folded.error)
  {
    FoldingKeepsMeaning(a, left, x);
    FoldingKeepsMeaning(a, right, x);
  }

  /** A printed operand that evaluates to a value is a tree that does. */
  lemma OperandValue(a: Arithmetic, spell: Double -> string, tree: Tree, level: nat, x: Double)
    requires a.Valid() && AllSpelled(a, spell, tree) && level <= 3 && Depth(tree, level) <= MAXIMUM_NESTING
    ensures ParseText(a, Print(spell, tree, level)) == Ok(tree)
    ensures OneShot(a, Print(spell, tree, level), x).Ok? ==>
              a.isFinite(x) && OneShot(a, Print(spell, tree, level), x) == Eval(a, tree, x)
  {
    hide ParseText, Folded, Eval, Print, AllSpelled, Depth;
    LevelParses(a, spell, tree, level);
  }

  lemma LevelParses(a: Arithmetic, spell: Double -> string, tree: Tree, level: nat)
    requires a.Valid() && AllSpelled(a, spell, tree) && level <= 3 && Depth(tree, level) <= MAXIMUM_NESTING
    ensures ParseText(a, Print(spell, tree, level)) == Ok(tree)
  {
    hide ParseSum, AllSpelled, Print, Depth, ParsePrimary, ParseUnary, ParseProduct, SumRest, ProductRest;
    var text := Print(spell, tree, level);
    PrintEnds(a, spell, tree, level);
    TrimsNothing(text);
    assert text[0..] == text + [];
    PrintReads(a, spell, text, 0, tree, level, [], 0);
    AtTextEnd(a, text, tree, level);
  }

  /** A text one grammar level reads to its end is read by the whole grammar. */
  lemma AtTextEnd(a: Arithmetic, text: string, tree: Tree, level: nat)
    requires a.Valid() && text != [] && level <= 3 && ReadsBack(a, text, 0, |text|, tree, level, 0)
    requires level == 3 ==> StartsPrimary(text[0])
    ensures ParseSum(a, text, 0, 0) == Parsed(tree, |text|)
    decreases level
  {
    hide ParsePrimary, ParseUnary, ParseProduct, ParseSum;
    if level > 0 {
      Descends(a, text, 0, |text|, tree, level - 1, [], 0);
      AtTextEnd(a, text, tree, level - 1);
    }
  }

  /** Two operands that evaluate to `u` and `v` and the character between them: the sum, difference,
      product or quotient of `u` and `v`, in this order; an error when it is not finite, and for a
      division by zero. */
  lemma BinaryText(a: Arithmetic, spell: Double -> string, c: char, left: Tree, right: Tree, x: Double, u: Double,
                   v: Double)
    requires a.Valid() && AllSpelled(a, spell, left) && AllSpelled(a, spell, right) && c in "+-*/"
    requires var level := if c in "+-" then 0 else 1;
             && Depth(left, level) <= MAXIMUM_NESTING && Depth(right, level + 1) <= MAXIMUM_NESTING
             && OneShot(a, Print(spell, left, level), x) == Ok(u)
             && OneShot(a, Print(spell, right, level + 1), x) == Ok(v)
    ensures var level := if c in "+-" then 0 else 1;
            OneShot(a, Print(spell, left, level) + [c] + Print(spell, right, level + 1), x)
            == if c == '/' && a.isZero(v) then Err(DivideByZero)
               else
                 var w := if c == '+' then a.add(u, v) else if c == '-' then a.subtract(u, v)
                          else if c == '*' then a.multiply(u, v) else a.divide(u, v);
                 if a.isFinite(w) then Ok(w) else Err(NotFinite)
  {
    hide ParseText, Folded, Print, AllSpelled, Depth, OneShot, Eval;
    var level := if c in "+-" then 0 else 1;
    var operation := if c == '+' then Add else if c == '-' then Subtract else if c == '*' then Multiply else Divide;
    var tree := Binary(operation, left, right);
    OperandValue(a, spell, left, level, x);
    OperandValue(a, spell, right, level + 1, x);
    Operation(a, spell, tree, level);
    OperandsFold(a, operation, left, right, x);
    OperationValue(a, spell, tree, level, x, u, v);
  }

  /** The printed operation parses to its tree. */
  lemma Operation(a: Arithmetic, spell: Double -> string, tree: Tree, level: nat)
    requires a.Valid() && tree.Binary? && level == Rank(tree) && AllSpelled(a, spell, tree.left)
    requires AllSpelled(a, spell, tree.right)
    requires Depth(tree.left, level) <= MAXIMUM_NESTING && Depth(tree.right, level + 1) <= MAXIMUM_NESTING
    ensures ParseText(a, Print(spell, tree.left, level) + [Symbol(tree.operation)] + Print(spell, tree.right, level + 1))
            == Ok(tree)
  {
    OperationParts(a, spell, tree, level);
    hide ParseText, Print, Body, AllSpelled, Depth, Rank;
    BinaryParts(a, spell, tree);
    LevelParses(a, spell, tree, level);
  }

  lemma OperationParts(a: Arithmetic, spell: Double -> string, tree: Tree, level: nat)
    requires tree.Binary? && level == Rank(tree)
    ensures AllSpelled(a, spell, tree.left) && AllSpelled(a, spell, tree.right) ==> AllSpelled(a, spell, tree)
    ensures level <= 1 && Depth(tree, level) == Max(Depth(tree.left, level), Depth(tree.right, level + 1))
  {
    hide Spelled;
  }

  lemma OperationValue(a: Arithmetic, spell: Double -> string, tree: Tree, level: nat, x: Double, u: Double, v: Double)
    requires a.Valid() && a.isFinite(x) && tree.Binary?
    requires Eval(a, tree.left, x) == Ok(u) && Eval(a, tree.right, x) == Ok(v)
    requires var text := Print(spell, tree.left, level) + [Symbol(tree.operation)] + Print(spell, tree.right, level + 1);
             ParseText(a, text) == Ok(tree)
    requires Folded(a, tree).Err? ==> Eval(a, tree, x) == Err(Folded(a, tree).error)
    ensures var text := Print(spell, tree.left, level) + [Symbol(tree.operation)] + Print(spell, tree.right, level + 1);
            OneShot(a, text, x)
            == match tree.operation
               case Add => (if a.isFinite(a.add(u, v)) then Ok(a.add(u, v)) else Err(NotFinite))
               case Subtract => (if a.isFinite(a.subtract(u, v)) then Ok(a.subtract(u, v)) else Err(NotFinite))
               case Multiply => (if a.isFinite(a.multiply(u, v)) then Ok(a.multiply(u, v)) else Err(NotFinite))
               case Divide => if a.isZero(v) then Err(DivideByZero)
                              else if a.isFinite(a.divide(u, v)) then Ok(a.divide(u, v)) else Err(NotFinite)
  {
    hide ParseText, Folded, Print, Symbol;
  }

  /** The input character is the input, and a spelled literal its number. */
  lemma AtomText(a: Arithmetic, spell: Double -> string, x: Double, d: Double)
    requires a.Valid() && a.isFinite(x)
    ensures OneShot(a, "x", x) == Ok(x)
    ensures Spelled(a, spell, d) ==> OneShot(a, spell(d), x) == Ok(d)
  {
    hide ParseText;
    LevelParses(a, spell, Input, 3);
    if Spelled(a, spell, d) {
      LevelParses(a, spell, Number(d), 3);
    }
  }

  predicate AllSigns(signs: string) {
    forall i :: 0 <= i < |signs| ==> signs[i] == '+' || signs[i] == '-'
  }

  /** The run has an odd number of minus signs. */
  predicate Odd(signs: string) {
    signs != [] && (signs[0] == '-') != Odd(signs[1..])
  }

  lemma {:induction false} SignsRead(text: string, p: nat, signs: string, t: string, negative: bool)
    requires Standing(text, p, signs, t) && AllSigns(signs) && t != [] && StartsPrimary(t[0])
    ensures p + |signs| <= |text|
    ensures Signs(text, p, negative) == (negative != Odd(signs), p + |signs|)
    decreases |signs|
  {
    hide Standing, Signs;
    StandingNext(text, p, signs, t);
    if signs == [] {
      SignsStop(text, p, negative);
    } else {
      var rest := signs[1..];
      assert signs == [signs[0]] + rest;
      StandingSplit(text, p, [signs[0]], rest, t);
      SignsRead(text, p + 1, rest, t, if signs[0] == '-' then !negative else negative);
      SignStep(text, p, negative);
    }
  }

  lemma SignStep(text: string, p: nat, negative: bool)
    requires p < |text|
    ensures text[p] == '-' ==> Signs(text, p, negative) == Signs(text, p + 1, !negative)
    ensures text[p] == '+' ==> Signs(text, p, negative) == Signs(text, p + 1, negative)
  {
  }

  /** A run of signs of any length negates when it has an odd number of minus signs, and otherwise
      changes nothing. */
  lemma SignText(a: Arithmetic, spell: Double -> string, signs: string, tree: Tree)
    requires a.Valid() && AllSpelled(a, spell, tree) && Depth(tree, 3) <= MAXIMUM_NESTING
    requires AllSigns(signs)
    ensures ParseText(a, signs + Print(spell, tree, 3)) == Ok(if Odd(signs) then Negated(tree) else tree)
  {
    var t := Print(spell, tree, 3);
    var text := signs + t;
    PrintEnds(a, spell, tree, 3);
    hide AllSpelled, Print, Depth, ParseUnary, ParseSum, Odd, Standing, ParseText;
    SignedUnary(a, spell, signs, tree);
    var signed := if Odd(signs) then Negated(tree) else tree;
    AtUnaryEnd(a, text, signed);
    assert text != [] && !Whitespace(text[0]) && !Whitespace(text[|text| - 1]);
    TrimsNothing(text);
    WholeText(a, text, signed);
  }

  lemma SignedUnary(a: Arithmetic, spell: Double -> string, signs: string, tree: Tree)
    requires a.Valid() && AllSpelled(a, spell, tree) && Depth(tree, 3) <= MAXIMUM_NESTING
    requires AllSigns(signs)
    ensures var text := signs + Print(spell, tree, 3);
            ParseUnary(a, text, 0, 0) == Parsed(if Odd(signs) then Negated(tree) else tree, |text|)
  {
    hide AllSpelled, Print, Depth, ParsePrimary, ParseUnary, Odd, Signs, Standing, AllSigns;
    var t := Print(spell, tree, 3);
    Stands(signs, t);
    PrintEnds(a, spell, tree, 3);
    SignsRead(signs + t, 0, signs, t, false);
    PrintReads(a, spell, signs + t, |signs|, tree, 3, [], 0);
    UnaryOf(a, signs + t, |signs|, Odd(signs), tree, |signs + t|);
  }

  lemma Stands(s: string, t: string)
    ensures Standing(s + t, 0, s, t) && Standing(s + t, |s|, t, [])
  {
    assert (s + t)[0..] == s + t && (s + t)[|s|..] == t + [];
  }

  lemma UnaryOf(a: Arithmetic, text: string, p: nat, negative: bool, tree: Tree, e: nat)
    requires a.Valid() && p <= |text| && e <= |text| && Signs(text, 0, false) == (negative, p)
    requires ReadsBack(a, text, p, e, tree, 3, 0)
    ensures ParseUnary(a, text, 0, 0) == Parsed(if negative then Negated(tree) else tree, e)
  {
    hide Signs, ParsePrimary;
  }

  lemma AtUnaryEnd(a: Arithmetic, text: string, tree: Tree)
    requires a.Valid() && text != [] && ParseUnary(a, text, 0, 0) == Parsed(tree, |text|)
    ensures ParseSum(a, text, 0, 0) == Parsed(tree, |text|)
  {
    hide ParsePrimary, ParseUnary, ParseProduct, ParseSum;
    AtTextEnd(a, text, tree, 2);
  }

  lemma WholeText(a: Arithmetic, text: string, tree: Tree)
    requires a.Valid() && text != [] && Trimmed(text) == text && ParseSum(a, text, 0, 0) == Parsed(tree, |text|)
    ensures ParseText(a, text) == Ok(tree)
  {
    hide ParseSum, Trimmed;
  }

  /** A minus sign negates the value. */
  lemma NegatedText(a: Arithmetic, spell: Double -> string, tree: Tree, x: Double)
    requires a.Valid() && AllSpelled(a, spell, tree) && Depth(tree, 3) <= MAXIMUM_NESTING
    requires OneShot(a, Print(spell, tree, 3), x).Ok?
    ensures OneShot(a, "-" + Print(spell, tree, 3), x) == Ok(a.negate(OneShot(a, Print(spell, tree, 3), x).value))
  {
    hide ParseText, Print, AllSpelled, Depth;
    OperandValue(a, spell, tree, 3, x);
    assert Odd("-") && AllSigns("-");
    SignText(a, spell, "-", tree);
  }

  // ---- Characters -------------------------------------------------------------------------

  /** The white space is the C locale's. */
  lemma WhitespaceIs(c: char)
    ensures Whitespace(c) <==> c in {' ', '\t', '\n', '\r', 11 as char, 12 as char}
  {
  }

  /** A literal starts with a digit or a point and is read by the number scan: all of it, or an error; any
      other character that does not start an operand is an error at its place. */
  lemma LiteralText(a: Arithmetic, text: string)
    requires a.Valid() && text != [] && !Whitespace(text[0]) && !Whitespace(text[|text| - 1])
    ensures text[0] in ".0123456789" ==>
              match a.fromChars(text)
              case None => ParseText(a, text) == Err(SyntaxError(InvalidLiteral, 0))
              case Some((n, d)) =>
                && (!a.isFinite(d) ==> ParseText(a, text) == Err(NotFinite))
                && (a.isFinite(d) && n == |text| ==> ParseText(a, text) == Ok(Number(d)))
    ensures text[0] !in ".0123456789x(+-" ==> ParseText(a, text) == Err(SyntaxError(ExpectedPrimary, 0))
  {
    TrimsNothing(text);
    assert text[0..] == text;
    if text[0] in ".0123456789" || text[0] !in ".0123456789x(+-" {
      UnsignedStart(text);
      var primary := ParsePrimary(a, text, 0, 0);
      hide Trimmed, ParsePrimary, Signs;
      assert ParseUnary(a, text, 0, 0) == primary;
      assert primary.Bad? ==> ParseProduct(a, text, 0, 0) == primary;
      if primary.Parsed? && primary.end == |text| {
        AtUnaryEnd(a, text, primary.tree);
      }
    }
  }

  lemma UnsignedStart(text: string)
    requires text != [] && !Whitespace(text[0]) && text[0] != '+' && text[0] != '-'
    ensures Signs(text, 0, false) == (false, 0)
  {
  }

  // ---- Where syntax errors are ------------------------------------------------------------

  /** An operator with nothing after it: an operand is missing at the end. */
  lemma MissingOperand(a: Arithmetic, spell: Double -> string, tree: Tree, c: char)
    requires a.Valid() && AllSpelled(a, spell, tree) && c in "+-*/"
    requires Depth(tree, if c in "+-" then 0 else 1) <= MAXIMUM_NESTING
    ensures var text := Print(spell, tree, if c in "+-" then 0 else 1) + [c];
            ParseText(a, text) == Err(SyntaxError(ExpectedPrimary, |text|))
  {
    var level := if c in "+-" then 0 else 1;
    var t := Print(spell, tree, level);
    var text := t + [c];
    PrintEnds(a, spell, tree, level);
    TrimsNothing(text);
    Stands(t, [c]);
    hide AllSpelled, Print, Depth, ParsePrimary, ParseUnary, ParseProduct, ParseSum, Standing, Trimmed, ReadsBack, ParseText;
    PrintReads(a, spell, text, 0, tree, level, [c], 0);
    NothingFollows(a, text);
    DanglingOperator(a, text, tree, |t|, level);
  }

  lemma NothingFollows(a: Arithmetic, text: string)
    requires a.Valid()
    ensures ParseUnary(a, text, |text|, 0) == Bad(SyntaxError(ExpectedPrimary, |text|), [])
    ensures ParseProduct(a, text, |text|, 0) == Bad(SyntaxError(ExpectedPrimary, |text|), [])
  {
    assert Signs(text, |text|, false) == (false, |text|);
  }

  lemma DanglingOperator(a: Arithmetic, text: string, tree: Tree, e: nat, level: nat)
    requires a.Valid() && e + 1 == |text| && e > 0 && Trimmed(text) == text
    requires level == (if text[e] in "+-" then 0 else 1) && text[e] in "+-*/"
    requires ReadsBack(a, text, 0, e, tree, level, 0)
    requires ParseUnary(a, text, |text|, 0) == Bad(SyntaxError(ExpectedPrimary, |text|), [])
    requires ParseProduct(a, text, |text|, 0) == Bad(SyntaxError(ExpectedPrimary, |text|), [])
    ensures ParseText(a, text) == Err(SyntaxError(ExpectedPrimary, |text|))
  {
    hide Trimmed, ParseUnary, ParsePrimary;
    assert Skip(text, e) == e;
    hide Skip;
    if level == 0 {
      hide ParseProduct, ParseSum;
      assert SumRest(a, text, tree, e, 0).Bad?;
    } else {
      hide ParseProduct;
      assert ProductRest(a, text, tree, e, 0).Bad?;
    }
  }

  /** A parenthesis that is not closed, and one that was not opened. */
  lemma UnbalancedParenthesis(a: Arithmetic, spell: Double -> string, tree: Tree)
    requires a.Valid() && AllSpelled(a, spell, tree) && Depth(tree, 0) < MAXIMUM_NESTING
    ensures var t := Print(spell, tree, 0);
            && ParseText(a, "(" + t) == Err(SyntaxError(MissingParenthesis, |t| + 1))
            && ParseText(a, t + ")") == Err(SyntaxError(UnexpectedToken, |t|))
  {
    hide AllSpelled, Print, Depth, ParseText;
    NotClosed(a, spell, tree);
    NotOpened(a, spell, tree);
  }

  lemma NotClosed(a: Arithmetic, spell: Double -> string, tree: Tree)
    requires a.Valid() && AllSpelled(a, spell, tree) && Depth(tree, 0) < MAXIMUM_NESTING
    ensures ParseText(a, "(" + Print(spell, tree, 0))
            == Err(SyntaxError(MissingParenthesis, |Print(spell, tree, 0)| + 1))
  {
    hide AllSpelled, Print, Depth, Trimmed, ParseText, ReadsBack;
    var t := Print(spell, tree, 0);
    PrintEnds(a, spell, tree, 0);
    TrimsNothing("(" + t);
    Stands("(", t);
    PrintReads(a, spell, "(" + t, 1, tree, 0, [], 1);
    Unclosed(a, "(" + t, tree);
  }

  lemma NotOpened(a: Arithmetic, spell: Double -> string, tree: Tree)
    requires a.Valid() && AllSpelled(a, spell, tree) && Depth(tree, 0) < MAXIMUM_NESTING
    ensures ParseText(a, Print(spell, tree, 0) + ")") == Err(SyntaxError(UnexpectedToken, |Print(spell, tree, 0)|))
  {
    hide AllSpelled, Print, Depth, Trimmed, ParseText, ReadsBack;
    var t := Print(spell, tree, 0);
    PrintEnds(a, spell, tree, 0);
    TrimsNothing(t + ")");
    Stands(t, ")");
    PrintReads(a, spell, t + ")", 0, tree, 0, ")", 0);
    LeftOver(a, t + ")", tree, |t|);
  }

  lemma Unclosed(a: Arithmetic, text: string, tree: Tree)
    requires a.Valid() && |text| > 1 && text[0] == '(' && Trimmed(text) == text
    requires ReadsBack(a, text, 1, |text|, tree, 0, 1)
    ensures ParseText(a, text) == Err(SyntaxError(MissingParenthesis, |text|))
  {
    hide Trimmed;
    SumOfPrimary(a, text, 0, 0);
    hide ParseSum;
    assert SumRest(a, text, tree, |text|, 1) == Parsed(tree, |text|);
    assert ParsePrimary(a, text, 0, 0).error == SyntaxError(MissingParenthesis, |text|);
  }

  lemma LeftOver(a: Arithmetic, text: string, tree: Tree, e: nat)
    requires a.Valid() && e + 1 == |text| && text[e] == ')' && Trimmed(text) == text
    requires ReadsBack(a, text, 0, e, tree, 0, 0)
    ensures ParseText(a, text) == Err(SyntaxError(UnexpectedToken, e))
  {
    hide Trimmed, ParseSum;
    assert SumRest(a, text, tree, e, 0) == Parsed(tree, e);
  }

  // ---- The nesting limit ------------------------------------------------------------------

  /** The input inside `n` parentheses. */
  function Nested(n: nat): (text: string)
    ensures |text| == 2 * n + 1
  {
    if n == 0 then "x" else "(" + Nested(n - 1) + ")"
  }

  /** Eight parentheses may nest, and nine may not: the error is after the ninth. */
  lemma NestingLimit(a: Arithmetic, n: nat)
    requires a.Valid()
    ensures ParseText(a, Nested(n)) == if n <= 8 then Ok(Input) else Err(SyntaxError(NestingTooDeep, 9))
  {
    hide ParseSum, Nested;
    var text := Nested(n);
    NestedEnds(n);
    TrimsNothing(text);
    assert text[0..] == text + [];
    NestedParses(a, text, 0, n, []);
    NestedWhole(a, text, n);
  }

  lemma NestedEnds(n: nat)
    ensures Nested(n)[0] in "(x" && Nested(n)[|Nested(n)| - 1] in "x)"
  {
  }

  lemma NestedWhole(a: Arithmetic, text: string, n: nat)
    requires a.Valid() && text != [] && Trimmed(text) == text
    requires ParseSum(a, text, 0, 0) == if n <= 8 then Parsed(Input, |text|) else Bad(SyntaxError(NestingTooDeep, 9), [])
    ensures ParseText(a, text) == if n <= 8 then Ok(Input) else Err(SyntaxError(NestingTooDeep, 9))
  {
    hide ParseSum, Trimmed;
  }

  lemma {:induction false} NestedParses(a: Arithmetic, text: string, i: nat, n: nat, rest: string)
    requires a.Valid() && i <= 8 && Standing(text, i, Nested(n), rest) && (rest == [] || rest[0] == ')')
    ensures i + |Nested(n)| <= |text|
    ensures ParseSum(a, text, i, i) == if i + n <= 8 then Parsed(Input, i + |Nested(n)|)
                                       else Bad(SyntaxError(NestingTooDeep, 9), [])
    decreases n
  {
    hide Standing, ParseSum;
    StandingNext(text, i, Nested(n), rest);
    if n == 0 {
      InnermostParses(a, text, i);
    } else {
      var inner := Nested(n - 1);
      StandingThree(text, i, "(", inner, ")", rest);
      if i < 8 {
        NestedParses(a, text, i + 1, n - 1, ")" + rest);
      }
      OneDeeper(a, text, i, n, i + 1 + |inner|);
    }
  }

  /** An unsigned primary that nothing but a closing parenthesis follows is a whole sum. */
  lemma SumOfPrimary(a: Arithmetic, text: string, p: nat, nesting: nat)
    requires a.Valid() && p < |text| && StartsPrimary(text[p])
    ensures var primary := ParsePrimary(a, text, p, nesting);
            match primary
            case Bad(_, _) => ParseSum(a, text, p, nesting) == primary
            case Parsed(_, e) => (e == |text| || text[e] == ')' ==> ParseSum(a, text, p, nesting) == primary)
  {
    SignsStop(text, p, false);
    hide Signs, ParsePrimary;
    var primary := ParsePrimary(a, text, p, nesting);
    assert ParseUnary(a, text, p, nesting) == primary;
    if primary.Parsed? && (primary.end == |text| || text[primary.end] == ')') {
      assert ProductRest(a, text, primary.tree, primary.end, nesting) == primary;
      assert SumRest(a, text, primary.tree, primary.end, nesting) == primary;
    }
    hide ParseUnary;
    assert primary.Bad? ==> ParseProduct(a, text, p, nesting) == primary;
  }

  lemma InnermostParses(a: Arithmetic, text: string, i: nat)
    requires a.Valid() && i < |text| && text[i] == 'x' && (i + 1 == |text| || text[i + 1] == ')')
    ensures ParseSum(a, text, i, i) == Parsed(Input, i + 1)
  {
    SumOfPrimary(a, text, i, i);
    hide ParseSum;
  }

  lemma OneDeeper(a: Arithmetic, text: string, i: nat, n: nat, e: nat)
    requires a.Valid() && i < e < |text| && i <= 8 && n > 0 && text[i] == '(' && text[e] == ')'
    requires e + 1 == |text| || text[e + 1] == ')'
    requires i < 8 ==> ParseSum(a, text, i + 1, i + 1)
                       == if i + n <= 8 then Parsed(Input, e) else Bad(SyntaxError(NestingTooDeep, 9), [])
    ensures ParseSum(a, text, i, i) == if i + n <= 8 then Parsed(Input, e + 1) else Bad(SyntaxError(NestingTooDeep, 9), [])
  {
    hide ParseSum;
    SumOfPrimary(a, text, i, i);
    assert Skip(text, i) == i && Skip(text, e) == e;
    hide Skip;
    assert ParsePrimary(a, text, i, i)
        == if i + n <= 8 then Parsed(Input, e + 1) else Bad(SyntaxError(NestingTooDeep, 9), []);
  }
}
