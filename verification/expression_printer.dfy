/** A printer for expression trees, as an independent account of the grammar: precedence, left
    association and parentheses. Parsing what it prints gives the tree back. */
module ExpressionPrinter {
  import opened Results
  import opened Arithmetic
  import opened Expression
  import opened ExpressionGrammar

  function Symbol(operation: Operation): char {
    match operation
    case Add => '+'
    case Subtract => '-'
    case Multiply => '*'
    case Divide => '/'
  }

  /** How tightly a tree's outermost construct binds. */
  function Rank(tree: Tree): nat {
    match tree
    case Number(_) => 3
    case Input => 3
    case Negated(_) => 2
    case Binary(operation, _, _) => if operation.Add? || operation.Subtract? then 0 else 1
  }

  function Body(spell: Double -> string, tree: Tree): string
    decreases tree, 0
  {
    match tree
    case Number(value) => spell(value)
    case Input => "x"
    case Negated(operand) => "-" + Print(spell, operand, 3)
    case Binary(operation, left, right) =>
      Print(spell, left, Rank(tree)) + [Symbol(operation)] + Print(spell, right, Rank(tree) + 1)
  }

  /** The tree's text where at least `level` is wanted. */
  function Print(spell: Double -> string, tree: Tree, level: nat): string
    decreases tree, 1
  {
    if Rank(tree) < level then "(" + Body(spell, tree) + ")" else Body(spell, tree)
  }

  function Max(m: nat, n: nat): nat {
    if m < n then n else m
  }

  /** How deep the printed parentheses nest. */
  function Depth(tree: Tree, level: nat): nat
    decreases tree
  {
    (if Rank(tree) < level then 1 else 0) +
    match tree
    case Number(_) => 0
    case Input => 0
    case Negated(operand) => Depth(operand, 3)
    case Binary(_, left, right) => Max(Depth(left, Rank(tree)), Depth(right, Rank(tree) + 1))
  }

  /** What may follow a text printed at `level`. */
  predicate Follows(rest: string, level: nat) {
    rest == [] || rest[0] in ")+-" || (level > 0 && rest[0] in "*/")
  }

  /** The spelling reads back as the value, whatever may follow it. */
  ghost predicate Spelled(a: Arithmetic, spell: Double -> string, value: Double) {
    var s := spell(value);
    && a.isFinite(value) && s != [] && StartsLiteral(s[0]) && !Whitespace(s[|s| - 1])
    && forall rest :: Follows(rest, 1) ==> a.fromChars(s + rest) == Some((|s|, value))
  }

  ghost predicate AllSpelled(a: Arithmetic, spell: Double -> string, tree: Tree) {
    match tree
    case Number(value) => Spelled(a, spell, value)
    case Input => true
    case Negated(operand) => AllSpelled(a, spell, operand)
    case Binary(_, left, right) => AllSpelled(a, spell, left) && AllSpelled(a, spell, right)
  }

  /** A printed text neither starts nor ends with white space, and a primary starts as one. */
  lemma {:induction false} PrintEnds(a: Arithmetic, spell: Double -> string, tree: Tree, level: nat)
    requires AllSpelled(a, spell, tree)
    ensures var s := Print(spell, tree, level);
            && s != [] && !Whitespace(s[0]) && !Whitespace(s[|s| - 1])
            && (Rank(tree) == 3 || Rank(tree) < level ==> s[0] == '(' || s[0] == 'x' || StartsLiteral(s[0]))
    decreases tree
  {
    match tree
    case Number(_) =>
    case Input =>
    case Negated(operand) => PrintEnds(a, spell, operand, 3);
    case Binary(_, left, right) =>
      PrintEnds(a, spell, left, Rank(tree));
      PrintEnds(a, spell, right, Rank(tree) + 1);
  }

  /** The text holds `s` at `p`, then `rest`. */
  predicate Standing(text: string, p: nat, s: string, rest: string) {
    p <= |text| && text[p..] == s + rest
  }

  lemma StandingSplit(text: string, p: nat, s: string, t: string, rest: string)
    requires Standing(text, p, s + t, rest)
    ensures Standing(text, p, s, t + rest) && Standing(text, p + |s|, t, rest)
  {
    assert s + t + rest == s + (t + rest);
    assert text[p..][|s|..] == text[p + |s|..];
  }

  lemma StandingNext(text: string, p: nat, s: string, rest: string)
    requires Standing(text, p, s, rest)
    ensures p + |s| <= |text|
    ensures p + |s| < |text| <==> rest != []
    ensures rest != [] ==> text[p + |s|] == rest[0]
    ensures s != [] ==> p < |text| && text[p] == s[0]
  {
    assert text[p..][|s|..] == rest;
    if s != [] {
      assert text[p..][0] == s[0];
    }
    if rest != [] {
      assert text[p..][|s|] == rest[0];
    }
  }

  /** What the parser of each level returns on a text printed for it. */
  ghost predicate ReadsBack(a: Arithmetic, text: string, p: nat, e: nat, tree: Tree, level: nat, nesting: nat)
    requires a.Valid() && p <= |text| && e <= |text|
  {
    && (level == 3 ==> ParsePrimary(a, text, p, nesting) == Parsed(tree, e))
    && (level == 2 ==> ParseUnary(a, text, p, nesting) == Parsed(tree, e))
    && (level == 1 ==> ParseProduct(a, text, p, nesting) == ProductRest(a, text, tree, e, nesting))
    && (level == 0 ==> ParseSum(a, text, p, nesting) == SumRest(a, text, tree, e, nesting))
  }

  lemma {:induction false} PrintReads(a: Arithmetic, spell: Double -> string, text: string, p: nat, tree: Tree,
                                      level: nat, rest: string, nesting: nat)
    requires a.Valid() && AllSpelled(a, spell, tree) && level <= 3 && Follows(rest, level)
    requires Standing(text, p, Print(spell, tree, level), rest) && nesting + Depth(tree, level) <= MAXIMUM_NESTING
    ensures p + |Print(spell, tree, level)| <= |text|
    ensures ReadsBack(a, text, p, p + |Print(spell, tree, level)|, tree, level, nesting)
    decreases tree, if Rank(tree) < level then 1 else 0, 3 - level, 1
  {
    hide ReadsBack, Body, AllSpelled, Depth, Print;
    if Rank(tree) != level && level < 3 {
      DescendReads(a, spell, text, p, tree, level, rest, nesting);
    } else if Rank(tree) < level {
      ParenthesizedReads(a, spell, text, p, tree, rest, nesting);
    } else if tree.Negated? {
      NegatedReads(a, spell, text, p, tree, rest, nesting);
    } else if tree.Binary? {
      BinaryReads(a, spell, text, p, tree, level, rest, nesting);
    } else {
      Atom(a, spell, text, p, tree, rest, nesting);
      AtomReads(a, text, p, p + |Print(spell, tree, 3)|, tree, nesting);
    }
  }

  lemma AtomReads(a: Arithmetic, text: string, p: nat, e: nat, tree: Tree, nesting: nat)
    requires a.Valid() && p <= |text| && e <= |text| && ParsePrimary(a, text, p, nesting) == Parsed(tree, e)
    ensures ReadsBack(a, text, p, e, tree, 3, nesting)
  {
    hide ParsePrimary;
  }

  lemma {:induction false} DescendReads(a: Arithmetic, spell: Double -> string, text: string, p: nat, tree: Tree,
                                        level: nat, rest: string, nesting: nat)
    requires a.Valid() && AllSpelled(a, spell, tree) && level < 3 && Rank(tree) != level && Follows(rest, level)
    requires Standing(text, p, Print(spell, tree, level), rest) && nesting + Depth(tree, level) <= MAXIMUM_NESTING
    ensures p + |Print(spell, tree, level)| <= |text|
    ensures ReadsBack(a, text, p, p + |Print(spell, tree, level)|, tree, level, nesting)
    decreases tree, if Rank(tree) < level then 1 else 0, 3 - level, 0
  {
    hide ReadsBack, Standing, AllSpelled, Print, Depth, Follows, Rank;
    SameText(spell, tree, level);
    StillFollows(rest, level);
    StandingNext(text, p, Print(spell, tree, level), rest);
    PrintReads(a, spell, text, p, tree, level + 1, rest, nesting);
    PrintEnds(a, spell, tree, level);
    Descends(a, text, p, p + |Print(spell, tree, level)|, tree, level, rest, nesting);
  }

  lemma StillFollows(rest: string, level: nat)
    requires Follows(rest, level)
    ensures Follows(rest, level + 1)
  {
  }

  lemma SameText(spell: Double -> string, tree: Tree, level: nat)
    requires Rank(tree) != level
    ensures Print(spell, tree, level) == Print(spell, tree, level + 1) && Depth(tree, level) == Depth(tree, level + 1)
    ensures level == 2 ==> Rank(tree) == 3 || Rank(tree) < level
  {
    hide Body;
  }

  lemma {:induction false} ParenthesizedReads(a: Arithmetic, spell: Double -> string, text: string, p: nat, tree: Tree,
                                              rest: string, nesting: nat)
    requires a.Valid() && AllSpelled(a, spell, tree) && Rank(tree) < 3 && Follows(rest, 3)
    requires Standing(text, p, Print(spell, tree, 3), rest) && nesting + Depth(tree, 3) <= MAXIMUM_NESTING
    ensures p + |Print(spell, tree, 3)| <= |text|
    ensures ReadsBack(a, text, p, p + |Print(spell, tree, 3)|, tree, 3, nesting)
    decreases tree, 1, 0, 0
  {
    hide Standing, AllSpelled, Body, Print, Depth, Rank, Follows, ReadsBack;
    ParenthesisParts(spell, tree, rest);
    var body := Body(spell, tree);
    StandingThree(text, p, "(", body, ")", rest);
    PrintEnds(a, spell, tree, 0);
    PrintReads(a, spell, text, p + 1, tree, 0, ")" + rest, nesting + 1);
    Parenthesized(a, text, p, p + |body| + 2, tree, nesting);
  }

  /** The parts of a printed parenthesis. */
  lemma ParenthesisParts(spell: Double -> string, tree: Tree, rest: string)
    requires Rank(tree) < 3
    ensures Print(spell, tree, 3) == "(" + Body(spell, tree) + ")" && Print(spell, tree, 0) == Body(spell, tree)
    ensures Depth(tree, 3) == 1 + Depth(tree, 0) && Follows(")" + rest, 0)
  {
    hide Body;
  }

  lemma {:induction false} NegatedReads(a: Arithmetic, spell: Double -> string, text: string, p: nat, tree: Tree,
                                        rest: string, nesting: nat)
    requires a.Valid() && AllSpelled(a, spell, tree) && tree.Negated? && Follows(rest, 2)
    requires Standing(text, p, Print(spell, tree, 2), rest) && nesting + Depth(tree, 2) <= MAXIMUM_NESTING
    ensures p + |Print(spell, tree, 2)| <= |text|
    ensures ReadsBack(a, text, p, p + |Print(spell, tree, 2)|, tree, 2, nesting)
    decreases tree, 0, 1, 0
  {
    hide Standing, ReadsBack, AllSpelled, Print, Body, Depth, Rank, Follows;
    NegationParts(a, spell, tree, rest);
    var operand := Print(spell, tree.operand, 3);
    StandingSplit(text, p, "-", operand, rest);
    StandingNext(text, p, "-", operand + rest);
    StandingNext(text, p + 1, operand, rest);
    PrintEnds(a, spell, tree.operand, 3);
    PrintReads(a, spell, text, p + 1, tree.operand, 3, rest, nesting);
    Minus(a, text, p, p + 1 + |operand|, tree.operand, nesting);
  }

  /** The parts of a printed negation. */
  lemma NegationParts(a: Arithmetic, spell: Double -> string, tree: Tree, rest: string)
    requires tree.Negated? && AllSpelled(a, spell, tree) && Follows(rest, 2)
    ensures AllSpelled(a, spell, tree.operand) && Print(spell, tree, 2) == "-" + Print(spell, tree.operand, 3)
    ensures Depth(tree, 2) == Depth(tree.operand, 3) && Rank(tree) == 2 && Rank(tree.operand) <= 3 && Follows(rest, 3)
  {
  }

  lemma {:induction false} BinaryReads(a: Arithmetic, spell: Double -> string, text: string, p: nat, tree: Tree,
                                       level: nat, rest: string, nesting: nat)
    requires a.Valid() && AllSpelled(a, spell, tree) && tree.Binary? && level == Rank(tree) && Follows(rest, level)
    requires Standing(text, p, Print(spell, tree, level), rest) && nesting + Depth(tree, level) <= MAXIMUM_NESTING
    ensures p + |Print(spell, tree, level)| <= |text|
    ensures ReadsBack(a, text, p, p + |Print(spell, tree, level)|, tree, level, nesting)
    decreases tree, 0, 3 - level, 0
  {
    hide Standing, ReadsBack, AllSpelled, Depth, Print, Body, Follows, Rank;
    BinaryParts(a, spell, tree);
    SymbolFollows(spell, tree, rest);
    StillFollows(rest, level);
    var left, right := Print(spell, tree.left, level), Print(spell, tree.right, level + 1);
    var symbol := [Symbol(tree.operation)];
    StandingThree(text, p, left, symbol, right, rest);
    var m := p + |left|;
    PrintEnds(a, spell, tree.right, level + 1);
    StandingNext(text, m + 1, right, rest);
    PrintReads(a, spell, text, p, tree.left, level, symbol + (right + rest), nesting);
    PrintReads(a, spell, text, m + 1, tree.right, level + 1, rest, nesting);
    Joins(a, text, p, m, m + 1 + |right|, tree, level, rest, nesting);
  }

  /** The parts of a printed operation. */
  lemma BinaryParts(a: Arithmetic, spell: Double -> string, tree: Tree)
    requires tree.Binary? && AllSpelled(a, spell, tree)
    ensures var level := Rank(tree);
            && level <= 1 && AllSpelled(a, spell, tree.left) && AllSpelled(a, spell, tree.right)
            && Print(spell, tree, level)
               == Print(spell, tree.left, level) + [Symbol(tree.operation)] + Print(spell, tree.right, level + 1)
            && Depth(tree.left, level) <= Depth(tree, level) && Depth(tree.right, level + 1) <= Depth(tree, level)
  {
  }

  lemma SymbolFollows(spell: Double -> string, tree: Tree, rest: string)
    requires tree.Binary?
    ensures Follows([Symbol(tree.operation)] + (Print(spell, tree.right, Rank(tree) + 1) + rest), Rank(tree))
  {
    hide Print;
  }

  lemma Joins(a: Arithmetic, text: string, p: nat, m: nat, e: nat, tree: Tree, level: nat, rest: string, nesting: nat)
    requires a.Valid() && p <= m < m + 1 < e <= |text| && tree.Binary? && Rank(tree) == level && Follows(rest, level)
    requires e < |text| <==> rest != []
    requires rest != [] ==> text[e] == rest[0]
    requires text[m] == Symbol(tree.operation)
    requires ReadsBack(a, text, p, m, tree.left, level, nesting)
    requires ReadsBack(a, text, m + 1, e, tree.right, level + 1, nesting)
    ensures ReadsBack(a, text, p, e, tree, level, nesting)
  {
    hide ParsePrimary, ParseUnary, ParseProduct, ParseSum, SumRest, ProductRest;
    if level == 1 {
      Factor(a, text, p, m, e, tree, nesting);
    } else {
      Term(a, text, p, m, e, tree, rest, nesting);
    }
  }

  lemma StandingThree(text: string, p: nat, s: string, t: string, u: string, rest: string)
    requires Standing(text, p, s + t + u, rest)
    ensures Standing(text, p, s, t + (u + rest)) && Standing(text, p + |s|, t, u + rest)
    ensures Standing(text, p + |s| + |t|, u, rest)
    ensures s != [] ==> p < |text| && text[p] == s[0]
    ensures t != [] ==> p + |s| < |text| && text[p + |s|] == t[0]
    ensures u != [] ==> p + |s| + |t| < |text| && text[p + |s| + |t|] == u[0]
  {
    hide Standing;
    StandingSplit(text, p, s + t, u, rest);
    StandingSplit(text, p, s, t, u + rest);
    StandingNext(text, p, s, t + (u + rest));
    StandingNext(text, p + |s|, t, u + rest);
    StandingNext(text, p + |s| + |t|, u, rest);
  }

  predicate StartsPrimary(c: char) {
    c == '(' || c == 'x' || StartsLiteral(c)
  }

  /** Each level's parser starts with the next one's. */
  lemma Descends(a: Arithmetic, text: string, p: nat, e: nat, tree: Tree, level: nat, rest: string, nesting: nat)
    requires a.Valid() && level < 3 && p < e <= |text| && Follows(rest, level)
    requires e < |text| <==> rest != []
    requires rest != [] ==> text[e] == rest[0]
    requires level == 2 ==> StartsPrimary(text[p])
    requires ReadsBack(a, text, p, e, tree, level + 1, nesting)
    ensures ReadsBack(a, text, p, e, tree, level, nesting)
  {
    hide ParsePrimary, SumRest;
    if level == 2 {
      SignsStop(text, p, false);
    } else if level == 0 {
      ProductStops(a, text, e, tree, rest, nesting);
    }
  }

  lemma SignsStop(text: string, p: nat, negative: bool)
    requires p < |text| && StartsPrimary(text[p])
    ensures Signs(text, p, negative) == (negative, p)
  {
  }

  lemma ProductStops(a: Arithmetic, text: string, e: nat, tree: Tree, rest: string, nesting: nat)
    requires a.Valid() && e <= |text| && Follows(rest, 0)
    requires e < |text| <==> rest != []
    requires rest != [] ==> text[e] == rest[0]
    ensures ProductRest(a, text, tree, e, nesting) == Parsed(tree, e)
  {
  }

  lemma Parenthesized(a: Arithmetic, text: string, p: nat, e: nat, tree: Tree, nesting: nat)
    requires a.Valid() && p + 2 <= e <= |text| && nesting < MAXIMUM_NESTING
    requires text[p] == '(' && text[e - 1] == ')'
    requires ReadsBack(a, text, p + 1, e - 1, tree, 0, nesting + 1)
    ensures ReadsBack(a, text, p, e, tree, 3, nesting)
  {
  }

  lemma Minus(a: Arithmetic, text: string, p: nat, e: nat, operand: Tree, nesting: nat)
    requires a.Valid() && p + 1 < e <= |text| && text[p] == '-' && StartsPrimary(text[p + 1])
    requires ReadsBack(a, text, p + 1, e, operand, 3, nesting)
    ensures ReadsBack(a, text, p, e, Negated(operand), 2, nesting)
  {
    hide ParsePrimary;
    SignsStop(text, p + 1, true);
    assert Signs(text, p, false) == Signs(text, p + 1, true);
  }

  lemma Factor(a: Arithmetic, text: string, p: nat, m: nat, e: nat, tree: Tree, nesting: nat)
    requires a.Valid() && p <= m < m + 1 < e <= |text| && tree.Binary? && Rank(tree) == 1
    requires text[m] == Symbol(tree.operation)
    requires ParseProduct(a, text, p, nesting) == ProductRest(a, text, tree.left, m, nesting)
    requires ParseUnary(a, text, m + 1, nesting) == Parsed(tree.right, e)
    ensures ParseProduct(a, text, p, nesting) == ProductRest(a, text, tree, e, nesting)
  {
    hide ParseUnary, ParseProduct;
  }

  lemma Term(a: Arithmetic, text: string, p: nat, m: nat, e: nat, tree: Tree, rest: string, nesting: nat)
    requires a.Valid() && p <= m < m + 1 < e <= |text| && tree.Binary? && Rank(tree) == 0 && Follows(rest, 0)
    requires e < |text| <==> rest != []
    requires rest != [] ==> text[e] == rest[0]
    requires text[m] == Symbol(tree.operation)
    requires ParseSum(a, text, p, nesting) == SumRest(a, text, tree.left, m, nesting)
    requires ParseProduct(a, text, m + 1, nesting) == ProductRest(a, text, tree.right, e, nesting)
    ensures ParseSum(a, text, p, nesting) == SumRest(a, text, tree, e, nesting)
  {
    hide ParseProduct, ParseSum;
    ProductStops(a, text, e, tree.right, rest, nesting);
  }

  lemma Atom(a: Arithmetic, spell: Double -> string, text: string, p: nat, tree: Tree, rest: string, nesting: nat)
    requires a.Valid() && AllSpelled(a, spell, tree) && Follows(rest, 3) && Rank(tree) == 3
    requires Standing(text, p, Print(spell, tree, 3), rest)
    ensures p + |Print(spell, tree, 3)| <= |text|
    ensures ParsePrimary(a, text, p, nesting) == Parsed(tree, p + |Print(spell, tree, 3)|)
  {
    PrintEnds(a, spell, tree, 3);
    StandingNext(text, p, Print(spell, tree, 3), rest);
  }

  lemma TrimsNothing(text: string)
    requires text != [] ==> !Whitespace(text[0]) && !Whitespace(text[|text| - 1])
    ensures Trimmed(text) == text
  {
  }

  /** Parsing what was printed gives the tree back, for every tree whose parentheses nest no deeper
      than the parser allows. */
  lemma PrintParses(a: Arithmetic, spell: Double -> string, tree: Tree)
    requires a.Valid() && AllSpelled(a, spell, tree) && Depth(tree, 0) <= MAXIMUM_NESTING
    ensures ParseText(a, Print(spell, tree, 0)) == Ok(tree)
  {
    hide ParseSum, AllSpelled, Print, Depth;
    var text := Print(spell, tree, 0);
    PrintEnds(a, spell, tree, 0);
    TrimsNothing(text);
    assert text[0..] == text + [];
    PrintReads(a, spell, text, 0, tree, 0, [], 0);
    assert SumRest(a, text, tree, |text|, 0) == Parsed(tree, |text|);
  }

  // ---- Every parsed tree can be printed ---------------------------------------------------

  lemma DepthStep(tree: Tree, level: nat)
    requires level <= 3
    ensures Depth(tree, 0) <= Depth(tree, level) <= 1 + Depth(tree, 0)
    ensures level > 0 ==> Depth(tree, level - 1) <= Depth(tree, level)
  {
  }

  /** Each grammar level returns a tree whose printed text nests no deeper than the text it read: the
      printer adds no parentheses that were not there. */
  lemma {:induction false} SumDepth(a: Arithmetic, text: string, position: nat, nesting: nat)
    requires a.Valid() && position <= |text| && nesting <= MAXIMUM_NESTING
    requires ParseSum(a, text, position, nesting).Parsed?
    ensures nesting + Depth(ParseSum(a, text, position, nesting).tree, 0) <= MAXIMUM_NESTING
    decreases |text| - position, 3
  {
    hide Depth, SumRest, ParseProduct;
    ProductDepth(a, text, position, nesting);
    var first := ParseProduct(a, text, position, nesting);
    DepthStep(first.tree, 1);
    SumRestDepth(a, text, first.tree, first.end, nesting);
  }

  lemma {:induction false} SumRestDepth(a: Arithmetic, text: string, left: Tree, position: nat, nesting: nat)
    requires a.Valid() && position <= |text| && nesting + Depth(left, 0) <= MAXIMUM_NESTING
    requires SumRest(a, text, left, position, nesting).Parsed?
    ensures nesting + Depth(SumRest(a, text, left, position, nesting).tree, 0) <= MAXIMUM_NESTING
    decreases |text| - position, 4
  {
    hide ParseProduct, Skip, Blank;
    var p := Skip(text, position);
    if p < |text| && SumOperation(text[p]).Some? {
      ProductDepth(a, text, p + 1, nesting);
      var right := ParseProduct(a, text, p + 1, nesting);
      var tree := Binary(SumOperation(text[p]).value, left, right.tree);
      assert Depth(tree, 0) == Max(Depth(left, 0), Depth(right.tree, 1));
      SumRestDepth(a, text, tree, right.end, nesting);
    }
  }

  lemma {:induction false} ProductDepth(a: Arithmetic, text: string, position: nat, nesting: nat)
    requires a.Valid() && position <= |text| && nesting <= MAXIMUM_NESTING
    requires ParseProduct(a, text, position, nesting).Parsed?
    ensures nesting + Depth(ParseProduct(a, text, position, nesting).tree, 1) <= MAXIMUM_NESTING
    decreases |text| - position, 2
  {
    hide Depth, ProductRest, ParseUnary;
    UnaryDepth(a, text, position, nesting);
    var first := ParseUnary(a, text, position, nesting);
    DepthStep(first.tree, 2);
    ProductRestDepth(a, text, first.tree, first.end, nesting);
  }

  lemma {:induction false} ProductRestDepth(a: Arithmetic, text: string, left: Tree, position: nat, nesting: nat)
    requires a.Valid() && position <= |text| && nesting + Depth(left, 1) <= MAXIMUM_NESTING
    requires ProductRest(a, text, left, position, nesting).Parsed?
    ensures nesting + Depth(ProductRest(a, text, left, position, nesting).tree, 1) <= MAXIMUM_NESTING
    decreases |text| - position, 4
  {
    hide ParseUnary, Skip, Blank;
    var p := Skip(text, position);
    if p < |text| && ProductOperation(text[p]).Some? {
      UnaryDepth(a, text, p + 1, nesting);
      var right := ParseUnary(a, text, p + 1, nesting);
      var tree := Binary(ProductOperation(text[p]).value, left, right.tree);
      assert Depth(tree, 1) == Max(Depth(left, 1), Depth(right.tree, 2));
      ProductRestDepth(a, text, tree, right.end, nesting);
    }
  }

  lemma {:induction false} UnaryDepth(a: Arithmetic, text: string, position: nat, nesting: nat)
    requires a.Valid() && position <= |text| && nesting <= MAXIMUM_NESTING
    requires ParseUnary(a, text, position, nesting).Parsed?
    ensures nesting + Depth(ParseUnary(a, text, position, nesting).tree, 2) <= MAXIMUM_NESTING
    decreases |text| - position, 1
  {
    hide ParsePrimary, Skip, Blank;
    var signs := Signs(text, position, false);
    PrimaryDepth(a, text, signs.1, nesting);
    var operand := ParsePrimary(a, text, signs.1, nesting);
    DepthStep(operand.tree, 3);
    assert Depth(Negated(operand.tree), 2) == Depth(operand.tree, 3);
  }

  lemma {:induction false} PrimaryDepth(a: Arithmetic, text: string, position: nat, nesting: nat)
    requires a.Valid() && position <= |text| && nesting <= MAXIMUM_NESTING
    requires ParsePrimary(a, text, position, nesting).Parsed?
    ensures nesting + Depth(ParsePrimary(a, text, position, nesting).tree, 3) <= MAXIMUM_NESTING
    decreases |text| - position, 0
  {
    hide ParseSum, Skip, Blank;
    var p := Skip(text, position);
    if text[p] == '(' {
      SumDepth(a, text, p + 1, nesting + 1);
      DepthStep(ParseSum(a, text, p + 1, nesting + 1).tree, 3);
    }
  }

  /** So the printer covers every text that parses: printing its tree and parsing again gives the tree
      back, whenever the literals can be spelled. */
  lemma Reprints(a: Arithmetic, spell: Double -> string, text: string)
    requires a.Valid() && ParseText(a, text).Ok?
    ensures Depth(ParseText(a, text).value, 0) <= MAXIMUM_NESTING
    ensures AllSpelled(a, spell, ParseText(a, text).value) ==>
              ParseText(a, Print(spell, ParseText(a, text).value, 0)) == ParseText(a, text)
  {
    hide ParseSum, AllSpelled, Print, Trimmed;
    var tree := ParseText(a, text).value;
    if Trimmed(text) != [] {
      SumDepth(a, Trimmed(text), 0, 0);
    }
    hide Depth;
    if AllSpelled(a, spell, tree) {
      PrintParses(a, spell, tree);
    }
  }
}
