/**
 * `parse_and_evaluate` (__init__.py:10-34): tokenize, insert the implicit `*` tokens,
 * parse, evaluate. Every error of a stage is passed on unchanged.
 */
module Pipeline {
  import opened Results
  import opened Tokenizer
  import opened ImplicitMultiply
  import opened Ast
  import opened Parsing
  import opened Fractional
  import opened Evaluation

  /** What `parse_and_evaluate(s)` returns or raises. */
  ghost function Interpret(s: string): Result<FractionalPolynomial> {
    var tokens :- Tokenize(s);
    var ast :- Parsing.Parse(Insert(tokens));
    Eval(ast)
  }

  /** `parse_and_evaluate` (__init__.py:10-34). */
  method ParseAndEvaluate(expressionStr: string) returns (r: Result<FractionalPolynomial>)
    ensures r == Interpret(expressionStr)
  {
    var tokens :- TokenizeString(expressionStr);
    var tokensWithImplicit := InsertImplicitMultiplication(tokens);
    var parser := new Parser(tokensWithImplicit);
    var ast :- parser.Parse();
    r := Evaluate(ast);
  }

  /**
   * The stages compose as the source does, and the implicit pass is redundant on
   * tokenizer output: the result is that of parsing the tokens as written. A failure is
   * the error of the first stage that fails, never an IndexError; a success is a
   * fraction in normal form whose value is the one the parsed tree denotes.
   */
  lemma InterpretCorrect(s: string)
    ensures Tokenize(s).Err? ==> Interpret(s) == Err(Tokenize(s).error) && Tokenize(s).error == ValueError
    ensures Tokenize(s).Ok? ==> Insert(Tokenize(s).value) == Tokenize(s).value
    ensures Tokenize(s).Ok? && Parsing.Parse(Tokenize(s).value).Err? ==>
      && Interpret(s) == Err(Parsing.Parse(Tokenize(s).value).error)
      && Interpret(s).error != IndexError
    ensures Tokenize(s).Ok? && Parsing.Parse(Tokenize(s).value).Ok? ==>
      var ast := Parsing.Parse(Tokenize(s).value).value;
      && WellFormed(ast)
      && Interpret(s) == Eval(ast)
      && (Interpret(s).Err? <==> DividesByZero(ast))
    ensures Interpret(s).Err? ==> Interpret(s).error != IndexError
    ensures Interpret(s).Ok? ==>
      var ast := Parsing.Parse(Tokenize(s).value).value;
      && Normal(Interpret(s).value)
      && Denote(ast).1 != map[]
      && SameValue(Interpret(s).value.numerator, Interpret(s).value.denominator, Denote(ast).0, Denote(ast).1)
  {
    TokenizeCorrect(s);
    if Tokenize(s).Ok? {
      var ts := Tokenize(s).value;
      InsertAfterTokenize(s);
      assert EofEnded(ts);
      var p := Parsing.Parse(ts);
      if p.Ok? {
        EvalFailsIff(p.value);
        EvalNormal(p.value);
        if Eval(p.value).Ok? {
          EvalDenotes(p.value);
        }
      }
    }
  }
}
