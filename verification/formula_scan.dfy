/** The edit dialog's own scanner, which decides from the text whether an assignment formula reads the
    current cell (src/backend/calibration/numeric_map_edit.cpp). It must agree with the compiler. */
module FormulaScan {
  import opened Results
  import opened Arithmetic
  import opened Expression
  import opened ExpressionGrammar

  predicate Punctuation(c: char) {
    Whitespace(c) || c == '+' || c == '-' || c == '*' || c == '/' || c == '(' || c == ')'
  }

  function Either(uses: bool, rest: Option<bool>): Option<bool> {
    if rest.None? then None else Some(uses || rest.value)
  }

  /** Whether a text mentions the input, token by token; None at a token it does not know. */
  function Scan(a: Arithmetic, text: string): Option<bool>
    requires a.Valid()
    decreases |text|
  {
    if text == [] then Some(false)
    else if text[0] == 'x' then Either(true, Scan(a, text[1..]))
    else if StartsLiteral(text[0]) then
      var literal := a.fromChars(text);
      if literal.None? || !a.isFinite(literal.value.1) then None else Scan(a, text[literal.value.0..])
    else if Punctuation(text[0]) then Scan(a, text[1..])
    else None
  }

  /** The scanner as a loop over the text that is left. A blank formula stands for the input. */
  method UsesCurrentValue(a: Arithmetic, formula: string) returns (r: Option<bool>)
    requires a.Valid()
    ensures r == if Blank(formula) then Some(true) else Scan(a, formula)
  {
    if Blank(formula) {
      return Some(true);
    }
    var left, usesInput := formula, false;
    while left != []
      invariant Either(usesInput, Scan(a, left)) == Scan(a, formula)
      decreases |left|
    {
      var token := left[0];
      if token == 'x' {
        usesInput := true;
        left := left[1..];
      } else if StartsLiteral(token) {
        var literal := a.fromChars(left);
        if literal.None? || !a.isFinite(literal.value.1) {
          return None;
        }
        left := left[literal.value.0..];
      } else if Punctuation(token) {
        left := left[1..];
      } else {
        return None;
      }
    }
    r := Some(usesInput);
  }

  // ---- Agreement with the grammar ---------------------------------------------------------

  /** What the scanner still has to read when the parser of `text` is at `position`: `space` is
      the white space the parser had trimmed from the end. */
  function Left(text: string, space: string, position: nat): string
    requires position <= |text|
  {
    text[position..] + space
  }

  lemma LeftStep(text: string, space: string, position: nat, n: nat)
    requires position + n <= |text| && n > 0
    ensures Left(text, space, position) != [] && Left(text, space, position)[0] == text[position]
    ensures Left(text, space, position)[n..] == Left(text, space, position + n)
  {
  }

  lemma {:induction false} ScanSkips(a: Arithmetic, text: string, space: string, position: nat)
    requires a.Valid() && position <= |text|
    ensures Scan(a, Left(text, space, position)) == Scan(a, Left(text, space, Skip(text, position)))
    decreases |text| - position
  {
    if position < |text| && Whitespace(text[position]) {
      LeftStep(text, space, position, 1);
      ScanSkips(a, text, space, position + 1);
    }
  }

  lemma ScanPunctuation(a: Arithmetic, text: string, space: string, position: nat)
    requires a.Valid() && position < |text| && Punctuation(text[position])
    ensures Scan(a, Left(text, space, position)) == Scan(a, Left(text, space, position + 1))
  {
    LeftStep(text, space, position, 1);
  }

  lemma EitherJoins(p: bool, q: bool, rest: Option<bool>)
    ensures Either(p, Either(q, rest)) == Either(p || q, rest)
  {
  }

  lemma {:induction false} ScanSigns(a: Arithmetic, text: string, space: string, position: nat, negative: bool)
    requires a.Valid() && position <= |text|
    ensures Scan(a, Left(text, space, position)) == Scan(a, Left(text, space, Signs(text, position, negative).1))
    decreases |text| - position
  {
    hide Scan, Left, Blank, Skip;
    var p := Skip(text, position);
    ScanSkips(a, text, space, position);
    if p < |text| && text[p] == '-' {
      ScanPunctuation(a, text, space, p);
      ScanSigns(a, text, space, p + 1, !negative);
    } else {
      ScanSkips(a, text, space, p);
      var q := Skip(text, p);
      if q < |text| && text[q] == '+' {
        ScanPunctuation(a, text, space, q);
        ScanSigns(a, text, space, q + 1, negative);
      }
    }
  }

  /** What the scanner answers before a phrase is what the phrase says, or what comes after it. */
  lemma {:induction false} ScanSum(a: Arithmetic, text: string, space: string, position: nat, nesting: nat)
    requires a.Valid() && a.IgnoresTrailingSpace() && Blank(space) && position <= |text|
    requires ParseSum(a, text, position, nesting).Parsed?
    ensures var r := ParseSum(a, text, position, nesting);
            Scan(a, Left(text, space, position)) == Either(UsesInput(r.tree), Scan(a, Left(text, space, r.end)))
    decreases |text| - position, 4
  {
    hide Scan, Blank, Left, ParseProduct, SumRest;
    ScanProduct(a, text, space, position, nesting);
    var first := ParseProduct(a, text, position, nesting);
    ScanSumRest(a, text, space, first.tree, first.end, nesting);
  }

  lemma {:induction false} ScanSumRest(a: Arithmetic, text: string, space: string, left: Tree, position: nat, nesting: nat)
    requires a.Valid() && a.IgnoresTrailingSpace() && Blank(space) && position <= |text|
    requires SumRest(a, text, left, position, nesting).Parsed?
    ensures var r := SumRest(a, text, left, position, nesting);
            Either(UsesInput(left), Scan(a, Left(text, space, position)))
            == Either(UsesInput(r.tree), Scan(a, Left(text, space, r.end)))
    decreases |text| - position, 5
  {
    hide Scan, Blank, Left, ParseProduct, Skip, Either;
    var p := Skip(text, position);
    ScanSkips(a, text, space, position);
    if p < |text| && SumOperation(text[p]).Some? {
      ScanPunctuation(a, text, space, p);
      ScanProduct(a, text, space, p + 1, nesting);
      var right := ParseProduct(a, text, p + 1, nesting);
      EitherJoins(UsesInput(left), UsesInput(right.tree), Scan(a, Left(text, space, right.end)));
      ScanSumRest(a, text, space, Binary(SumOperation(text[p]).value, left, right.tree), right.end, nesting);
    }
  }

  lemma {:induction false} ScanProduct(a: Arithmetic, text: string, space: string, position: nat, nesting: nat)
    requires a.Valid() && a.IgnoresTrailingSpace() && Blank(space) && position <= |text|
    requires ParseProduct(a, text, position, nesting).Parsed?
    ensures var r := ParseProduct(a, text, position, nesting);
            Scan(a, Left(text, space, position)) == Either(UsesInput(r.tree), Scan(a, Left(text, space, r.end)))
    decreases |text| - position, 3
  {
    hide Scan, Blank, Left, ParseUnary, ProductRest;
    ScanUnary(a, text, space, position, nesting);
    var first := ParseUnary(a, text, position, nesting);
    ScanProductRest(a, text, space, first.tree, first.end, nesting);
  }

  lemma {:induction false} ScanProductRest(a: Arithmetic, text: string, space: string, left: Tree, position: nat,
                                           nesting: nat)
    requires a.Valid() && a.IgnoresTrailingSpace() && Blank(space) && position <= |text|
    requires ProductRest(a, text, left, position, nesting).Parsed?
    ensures var r := ProductRest(a, text, left, position, nesting);
            Either(UsesInput(left), Scan(a, Left(text, space, position)))
            == Either(UsesInput(r.tree), Scan(a, Left(text, space, r.end)))
    decreases |text| - position, 5
  {
    hide Scan, Blank, Left, ParseUnary, Skip, Either;
    var p := Skip(text, position);
    ScanSkips(a, text, space, position);
    if p < |text| && ProductOperation(text[p]).Some? {
      ScanPunctuation(a, text, space, p);
      ScanUnary(a, text, space, p + 1, nesting);
      var right := ParseUnary(a, text, p + 1, nesting);
      EitherJoins(UsesInput(left), UsesInput(right.tree), Scan(a, Left(text, space, right.end)));
      ScanProductRest(a, text, space, Binary(ProductOperation(text[p]).value, left, right.tree), right.end, nesting);
    }
  }

  lemma {:induction false} ScanUnary(a: Arithmetic, text: string, space: string, position: nat, nesting: nat)
    requires a.Valid() && a.IgnoresTrailingSpace() && Blank(space) && position <= |text|
    requires ParseUnary(a, text, position, nesting).Parsed?
    ensures var r := ParseUnary(a, text, position, nesting);
            Scan(a, Left(text, space, position)) == Either(UsesInput(r.tree), Scan(a, Left(text, space, r.end)))
    decreases |text| - position, 2
  {
    hide Scan, Blank, Left, ParsePrimary, Signs;
    ScanSigns(a, text, space, position, false);
    ScanPrimary(a, text, space, Signs(text, position, false).1, nesting);
  }

  lemma {:induction false} ScanPrimary(a: Arithmetic, text: string, space: string, position: nat, nesting: nat)
    requires a.Valid() && a.IgnoresTrailingSpace() && Blank(space) && position <= |text|
    requires ParsePrimary(a, text, position, nesting).Parsed?
    ensures var r := ParsePrimary(a, text, position, nesting);
            Scan(a, Left(text, space, position)) == Either(UsesInput(r.tree), Scan(a, Left(text, space, r.end)))
    decreases |text| - position, 1
  {
    hide Scan, Left, Blank, Skip, ParseSum, Consumed, StartsLiteral;
    var p := Skip(text, position);
    ScanSkips(a, text, space, position);
    if text[p] == '(' {
      ScanParenthesis(a, text, space, p, nesting);
    } else if text[p] == 'x' {
      ScanInput(a, text, space, p);
    } else {
      ScanLiteral(a, text, space, p);
    }
  }

  lemma ScanInput(a: Arithmetic, text: string, space: string, p: nat)
    requires a.Valid() && p < |text| && text[p] == 'x'
    ensures Scan(a, Left(text, space, p)) == Either(true, Scan(a, Left(text, space, p + 1)))
  {
    LeftStep(text, space, p, 1);
  }

  lemma {:induction false} ScanParenthesis(a: Arithmetic, text: string, space: string, p: nat, nesting: nat)
    requires a.Valid() && a.IgnoresTrailingSpace() && Blank(space) && p < |text| && text[p] == '('
    requires ParseSum(a, text, p + 1, nesting + 1).Parsed?
    requires Consumed(text, ParseSum(a, text, p + 1, nesting + 1).end, ')').0
    ensures var inner := ParseSum(a, text, p + 1, nesting + 1);
            Scan(a, Left(text, space, p))
            == Either(UsesInput(inner.tree), Scan(a, Left(text, space, Consumed(text, inner.end, ')').1)))
    decreases |text| - p, 0
  {
    hide Scan, Blank, ParseSum;
    ScanPunctuation(a, text, space, p);
    ScanSum(a, text, space, p + 1, nesting + 1);
    var inner := ParseSum(a, text, p + 1, nesting + 1);
    ScanSkips(a, text, space, inner.end);
    ScanPunctuation(a, text, space, Skip(text, inner.end));
  }

  lemma ScanLiteral(a: Arithmetic, text: string, space: string, p: nat)
    requires a.Valid() && a.IgnoresTrailingSpace() && Blank(space) && p < |text| && StartsLiteral(text[p])
    requires a.fromChars(text[p..]).Some? && a.isFinite(a.fromChars(text[p..]).value.1)
    ensures var rest := Scan(a, Left(text, space, p + a.fromChars(text[p..]).value.0));
            Scan(a, Left(text, space, p)) == rest == Either(false, rest)
  {
    var n := a.fromChars(text[p..]).value.0;
    LeftStep(text, space, p, n);
    assert a.fromChars(text[p..] + space) == a.fromChars(text[p..]);
  }

  // ---- Trimming ---------------------------------------------------------------------------

  /** A text is its trimmed form between white space. */
  lemma {:induction false} TrimmedParts(text: string) returns (lead: string, space: string)
    ensures text == lead + Trimmed(text) + space && Blank(lead) && Blank(space)
    ensures Trimmed(text) == [] <==> Blank(text)
    ensures Trimmed(text) != [] ==> !Whitespace(Trimmed(text)[0])
    decreases |text|
  {
    lead, space := [], [];
    if text == [] {
    } else if Whitespace(text[0]) {
      lead, space := TrimmedParts(text[1..]);
      BlankTail(text);
      lead := [text[0]] + lead;
      assert text == [text[0]] + text[1..];
    } else if Whitespace(text[|text| - 1]) {
      var front := text[..|text| - 1];
      lead, space := TrimmedParts(front);
      assert front[0] == text[0];
      space := space + [text[|text| - 1]];
      assert text == front + [text[|text| - 1]];
    }
  }

  lemma BlankTail(text: string)
    requires text != [] && Whitespace(text[0])
    ensures Blank(text) <==> Blank(text[1..])
  {
    assert forall i :: 1 <= i < |text| ==> text[i] == text[1..][i - 1];
  }

  lemma {:induction false} ScanBlank(a: Arithmetic, lead: string, rest: string)
    requires a.Valid() && Blank(lead)
    ensures Scan(a, lead + rest) == Scan(a, rest)
  {
    if lead == [] {
      assert lead + rest == rest;
    } else {
      BlankTail(lead);
      ScanBlank(a, lead[1..], rest);
      assert (lead + rest)[1..] == lead[1..] + rest;
    }
  }

  /** For every formula that parses, the scanner succeeds and answers whether the compiled program
      contains an input instruction. */
  lemma ScannerAgrees(a: Arithmetic, formula: string)
    requires a.Valid() && a.IgnoresTrailingSpace() && ParseText(a, formula).Ok?
    ensures var tree := ParseText(a, formula).value;
            (if Blank(formula) then Some(true) else Scan(a, formula)) == Some(PushInput in Code(tree))
  {
    hide Scan, ParseSum, Trimmed;
    var lead, space := TrimmedParts(formula);
    var t := Trimmed(formula);
    var tree := ParseText(a, formula).value;
    InputInstruction(tree);
    if t != [] {
      var sum := ParseSum(a, t, 0, 0);
      ScanSum(a, t, space, 0, 0);
      ScanSkips(a, t, space, sum.end);
      assert Left(t, space, |t|) == space == space + [];
      ScanBlank(a, space, []);
      EmptyScan(a);
      assert lead + Left(t, space, 0) == formula;
      ScanBlank(a, lead, Left(t, space, 0));
    }
  }

  lemma EmptyScan(a: Arithmetic)
    requires a.Valid()
    ensures Scan(a, []) == Some(false)
  {
  }

  /** A formula the scanner calls constant has one value whatever the cell held. */
  lemma ConstantFormula(a: Arithmetic, formula: string, x: Double, y: Double)
    requires a.Valid() && a.IgnoresTrailingSpace() && ParseText(a, formula).Ok?
    requires !Blank(formula) && Scan(a, formula) == Some(false)
    ensures Eval(a, ParseText(a, formula).value, x) == Eval(a, ParseText(a, formula).value, y)
  {
    hide Scan, ParseText, Eval, Code;
    ScannerAgrees(a, formula);
    InputInstruction(ParseText(a, formula).value);
    ConstantTree(a, ParseText(a, formula).value, x, y);
  }

  /** The scan by token: an x is the input, a literal is skipped as far as the number scan reads it, white
      space, operators and parentheses are skipped, and anything else ends the scan without an answer. */
  lemma ScanByToken(a: Arithmetic, text: string)
    requires a.Valid() && text != []
    ensures var c := text[0];
            Scan(a, text)
            == if c == 'x' then Either(true, Scan(a, text[1..]))
               else if c == '.' || '0' <= c <= '9' then AfterLiteral(a, text)
               else if c == ' ' || c == '\t' || c == '\n' || c == '\r' || c == 11 as char || c == 12 as char || c == '+'
                       || c == '-' || c == '*' || c == '/' || c == '(' || c == ')'
               then Scan(a, text[1..])
               else None
  {
    EmptyScan(a);
  }

  /** The scan of what is left after a finite literal; none after any other. */
  function AfterLiteral(a: Arithmetic, text: string): Option<bool>
    requires a.Valid()
  {
    match a.fromChars(text)
    case None => None
    case Some(literal) => if a.isFinite(literal.1) then Scan(a, text[literal.0..]) else None
  }
}
