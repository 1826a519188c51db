# A verified model of the polynomial expression parser

This project models the `polynomial_parser` package of *polynomial-solver-by-jasmiana*.
The package reads a rational expression in one variable `x` and reduces it to a simplified
fraction of two polynomials with exact rational coefficients. The input is written with
numbers (`3`, `3/4`), `x`, `^` and an integer exponent, `+ - * /`, unary minus and
parentheses, for example `(x^2 - 1) / (x + 1)` or `3x(x + 1)`.

It also models `parse_polynomial` from `beta_v/v2.py`, an older reader that turns the text
of one polynomial, such as `3x^2 - 1/2x + 5`, into a polynomial.

The work goes in stages:

| stage | source | module (file) |
|---|---|---|
| `Polynomial`: a dictionary from exponents to non-zero coefficients, with `+ - *`, `power` and `divmod_polynomial` | polynomial.py | `Polynomials` (polynomial.dfy), `Products` (product.dfy), `Division` (division.dfy) |
| `Polynomial.__str__` | polynomial.py | `Rendering` (render.dfy) |
| `polynomial_gcd`: Euclid's algorithm, made monic | polynomial_math.py | `PolynomialMath` (gcd.dfy) |
| `FractionalPolynomial`: numerator over denominator, simplified on construction, with `+ - * /` | fractional_polynomial.py | `Fractional` (fractional.dfy) |
| `FractionalPolynomial.__str__` | fractional_polynomial.py | `FractionalRendering` (fractext.dfy) |
| `tokenize` | tokenizer.py | `Tokenizer` (tokenizer.dfy) |
| `insert_implicit_multiplication` | implicit_multiply.py | `ImplicitMultiply` (implicit.dfy) |
| the syntax tree and its `__str__` | ast_nodes.py | `Ast` (ast.dfy) |
| the recursive-descent `Parser` | parser.py | `Parsing` (parser.dfy) |
| `ASTEvaluator.evaluate` | evaluator.py | `Evaluation` (evaluator.dfy) |
| `parse_and_evaluate` | `__init__.py` | `Pipeline` (pipeline.dfy) |
| `parse_polynomial` | beta_v/v2.py | `Legacy` (legacy.dfy) |

Shared pieces:
- `Results` (results.dfy) holds the error kinds the source raises: ValueError, SyntaxError,
  ZeroDivisionError and IndexError. It also holds `Result` and `Option`.
- `Text` (text.dfy) holds what the code needs from Python's `str` and `int`: digits,
  `int(s)`, `strip()` and `find`.

## How the model is built

- **Coefficients.** A coefficient is a `real`. Python's `Fraction` is exact rational
  arithmetic, and Dafny's reals are exact, so `+ - * /` and comparisons agree. A `real`
  has no numerator or denominator to print, so the polynomial's text takes a coefficient
  formatter `fmt` as a parameter. `ValidFormatter` states what is assumed of it, for every
  value: the text is not empty and is not `-` alone; it starts with `-` exactly for
  negative values; it is `1` exactly for 1; and it is `-1` exactly for -1.
- **Polynomials.** A `Polynomial` is a `map<nat, real>` without zero values. This is the
  invariant `__init__` and `_clean_terms` establish. The exponents are natural numbers:
  no operation of the core can produce a negative exponent.
- **Spec functions beside loops.** Every operation that the source writes as a loop over
  dictionaries is a compiled `method` with that loop. The method is proved equal to a
  ghost function that states the result coefficient by coefficient. The algebra is then
  proved about the ghost functions:
  - ring laws;
  - degree and leading coefficient of a product;
  - the division identity `p == q*d + r` with `deg r < deg d`, and its uniqueness;
  - the gcd as a greatest common divisor.
- **Parser state.** The `Parser` object is a `class` whose `currentTokenIndex` field (the source's `current_token_index`) its methods
  advance. The methods are proved equal to mutually recursive functions over the token
  list.
- **Exceptions.** Every exception the core raises is an `Err` of the matching kind.
  Nothing is assumed of callers that the source checks itself.

## Model

A method that is proved equal to a ghost function also stands for that function: its row
covers the function as well. So `Tokenizer.TokenizeString` covers `Tokenizer.Tokenize`,
`Evaluation.Evaluate` covers `Evaluation.Eval`, and `Pipeline.ParseAndEvaluate` covers
`Pipeline.Interpret`. `Legacy.PolynomialSums` covers the readers `Legacy.PolynomialFrom`,
`Legacy.PolynomialOf` and `Legacy.PolynomialAsWritten`, which differ only in the term
reader they pass.

| member | source | states |
|---|---|---|
| Polynomials.Ext | polynomial_parser/polynomial.py:12-29 | Two polynomials with the same coefficient at every exponent are equal: the dictionary holds no zero entries, so its contents are determined by its coefficients |
| Polynomials.Clean | polynomial_parser/polynomial.py:6-29 | The cleaned polynomial has the coefficient of the given terms at every exponent, and no exponent the terms lack |
| Polynomials.CleanTerms | polynomial_parser/polynomial.py:25-29 | The delete loop keeps exactly the exponents whose coefficient is non-zero, with their coefficients unchanged |
| Polynomials.New | polynomial_parser/polynomial.py:6-23 | The constructor's copy loop gives the cleaned terms; the result is the zero polynomial exactly when every given coefficient is zero |
| Polynomials.MaxKey | polynomial_parser/polynomial.py:36 | `max(self.terms.keys())` of a non-empty polynomial is an exponent of it that no other exponent exceeds |
| Polynomials.Degree | polynomial_parser/polynomial.py:39-42 | The degree is -1 exactly for the zero polynomial; otherwise it is an exponent with a non-zero coefficient, and every coefficient above it is zero |
| Polynomials.Lead | polynomial_parser/polynomial.py:31-37 | The leading coefficient is zero exactly for the zero polynomial, and otherwise is the coefficient at the degree |
| Polynomials.LeadingTerm | polynomial_parser/polynomial.py:31-37 | `_leading_term` is `(None, 0)` for zero, and otherwise the degree with its non-zero coefficient |
| Polynomials.IsZero | polynomial_parser/polynomial.py:44-46 | `is_zero` holds exactly when every coefficient is zero |
| Polynomials.IsConstant | polynomial_parser/polynomial.py:48-54 | `is_constant` holds exactly when every coefficient above exponent 0 is zero, that is when the degree is at most 0 |
| Polynomials.DegreeIs | polynomial_parser/polynomial.py:39-42 | A non-zero coefficient at n with only zeros above fixes the degree at n and the leading coefficient at the one at n |
| Polynomials.Const | polynomial_parser/polynomial.py:125 | `Polynomial({0: c})` has c at exponent 0 and zero elsewhere |
| Polynomials.Mono | polynomial_parser/polynomial.py:235 | `Polynomial({k: c})` has c at exponent k and zero elsewhere |
| Polynomials.One | polynomial_parser/polynomial.py:181 | `Polynomial({0: 1})` has coefficient 1 at exponent 0 only, with degree 0 and leading coefficient 1 |
| Polynomials.Sum | polynomial_parser/polynomial.py:123-133 | The value of `p + q`: the coefficients add exponent by exponent |
| Polynomials.Neg | polynomial_parser/polynomial.py:138-139 | The value of `-p`: every coefficient negated |
| Polynomials.Sub | polynomial_parser/polynomial.py:141-146 | The value of `p - q`: the coefficients subtract exponent by exponent |
| Polynomials.Scale | polynomial_parser/polynomial.py:155-157 | The value of `p * c` for a number c: every coefficient times c |
| Polynomials.Add | polynomial_parser/polynomial.py:123-133 | The copy-and-accumulate loop of `__add__` computes the sum |
| Polynomials.Negate | polynomial_parser/polynomial.py:138-139 | `__neg__` computes the negation |
| Polynomials.Subtract | polynomial_parser/polynomial.py:141-146 | `__sub__`, which is `self + (-other)`, computes the difference |
| Polynomials.ScalarMul | polynomial_parser/polynomial.py:154-157 | `__mul__` by an int or Fraction computes the scaled polynomial |
| Polynomials.SumComm | polynomial_parser/polynomial.py:123-133 | Addition is commutative |
| Polynomials.SumAssoc | polynomial_parser/polynomial.py:123-133 | Addition is associative |
| Polynomials.SumZero | polynomial_parser/polynomial.py:123-133 | The zero polynomial is neutral for addition |
| Polynomials.SumNeg | polynomial_parser/polynomial.py:138-146 | `p + (-p)` and `p - p` are the zero polynomial |
| Polynomials.SubZeroIff | polynomial_parser/polynomial.py:141-146 | `p - q` is zero exactly when p equals q |
| Polynomials.SubAddBack | polynomial_parser/polynomial.py:123-146 | `(p - q) + q == p`: subtraction is undone by addition |
| Polynomials.ScaleOne | polynomial_parser/polynomial.py:155-157 | Scaling by 1 changes nothing |
| Polynomials.ScaleZero | polynomial_parser/polynomial.py:155-157 | Scaling by 0 gives the zero polynomial |
| Polynomials.ScaleScale | polynomial_parser/polynomial.py:155-157 | Scaling by a and then by b is scaling by a*b |
| Polynomials.NegIsScale | polynomial_parser/fractional_polynomial.py:62 | Negation is multiplication by -1, as `numerator * -1` writes it |
| Polynomials.NegNeg | polynomial_parser/polynomial.py:138-139 | Negating twice gives the polynomial back |
| Polynomials.ScaleSum | polynomial_parser/polynomial.py:123-157 | Scaling distributes over addition |
| Polynomials.ScaleNonZero | polynomial_parser/polynomial.py:155-157 | Scaling by a non-zero c keeps the exponents and the degree, multiplies the leading coefficient by c, and keeps a polynomial non-zero |
| Polynomials.ScaleInverse | polynomial_parser/polynomial_math.py:31-33 | Scaling by c and then by 1/c gives the polynomial back, for c non-zero |
| Polynomials.SumDominated | polynomial_parser/polynomial.py:123-133 | Adding a polynomial of lower degree keeps the degree and the leading coefficient |
| Polynomials.SumDegreeBound | polynomial_parser/polynomial.py:123-133 | A sum has degree at most the larger degree of its operands |
| Products.Product | polynomial_parser/polynomial.py:161-168 | The value of `p * q`: the coefficient at k is the convolution, the sum over i of p's coefficient at i times q's at k - i |
| Products.CoefProduct | polynomial_parser/polynomial.py:161-168 | The product's coefficient at k is the convolution, and it is zero above the sum of the degrees |
| Products.ProductZero | polynomial_parser/polynomial.py:161-168 | A product with the zero polynomial is zero, on either side |
| Products.ProductSumLeft | polynomial_parser/polynomial.py:161-168 | Multiplication distributes over addition on the left |
| Products.ProductSumRight | polynomial_parser/polynomial.py:161-168 | Multiplication distributes over addition on the right |
| Products.ProductScaleLeft | polynomial_parser/polynomial.py:154-168 | Scaling a factor by c scales the product by c |
| Products.ProductConstRight | polynomial_parser/polynomial.py:154-168 | Multiplying by the constant polynomial c is scaling by c, so both branches of `__mul__` agree |
| Products.ProductMonoMono | polynomial_parser/polynomial.py:164-166 | One term times one term: c1 x^n1 * c2 x^n2 is (c1*c2) x^(n1+n2) |
| Products.ProductOne | polynomial_parser/polynomial.py:181-187 | The constant 1 is neutral for multiplication, on either side |
| Products.ProductComm | polynomial_parser/polynomial.py:161-168 | Multiplication is commutative |
| Products.ProductAssoc | polynomial_parser/polynomial.py:161-168 | Multiplication is associative |
| Products.ProductDegree | polynomial_parser/polynomial.py:161-168 | For non-zero factors the degrees add and the leading coefficients multiply |
| Products.ProductZeroIff | polynomial_parser/polynomial.py:161-168 | A product is zero exactly when one factor is zero: there are no zero divisors |
| Products.AccumulateTermProduct | polynomial_parser/polynomial.py:163-166 | The inner loop of `__mul__` adds one term of p times q to the accumulated dictionary |
| Products.Mul | polynomial_parser/polynomial.py:161-168 | The double loop of `__mul__` computes the product |
| Products.PowAdd | polynomial_parser/polynomial.py:170-199 | `p^(m+n) == p^m * p^n` |
| Products.PowSquare | polynomial_parser/polynomial.py:195 | Squaring the base: `(b*b)^m == b^(2m)` |
| Products.PowerStep | polynomial_parser/polynomial.py:190-197 | One round of square-and-multiply keeps `result * base^n` unchanged, for odd and for even n |
| Products.Power | polynomial_parser/polynomial.py:170-199 | `power(n)` raises ValueError for a negative n and otherwise returns p multiplied by itself n times, with 1 for n = 0 |
| Division.QuotientTerm | polynomial_parser/polynomial.py:229-235 | The quotient term `lead(r)/lead(d) x^(deg r - deg d)` is non-zero, with that degree and that coefficient |
| Division.QuotientTermOfLeads | polynomial_parser/polynomial.py:224-235 | The quotient term is built from the two `_leading_term` results, and `term_exp < 0` cannot occur inside the loop |
| Division.StepDegree | polynomial_parser/polynomial.py:235-238 | Subtracting the quotient term times the divisor lowers the degree of the remainder |
| Division.StepKeepsValue | polynomial_parser/polynomial.py:235-238 | A step keeps `quotient * d + remainder` unchanged |
| Division.LongDivisionCorrect | polynomial_parser/polynomial.py:223-238 | When the loop ends, `q*d + r` still equals its starting value, and r is zero or of lower degree than d |
| Division.DivmodCorrect | polynomial_parser/polynomial.py:204-243 | For a non-zero divisor, `divmod_polynomial` succeeds with `p == q*d + r` and r zero or of lower degree than d |
| Division.DivmodByZero | polynomial_parser/polynomial.py:208-212 | Dividing by the zero polynomial gives (0, 0) when p is zero, and ValueError otherwise |
| Division.DivisionUnique | polynomial_parser/polynomial.py:204-243 | Quotient and remainder are unique: two divisions of p by d with reduced remainders agree |
| Division.DivmodIff | polynomial_parser/polynomial.py:204-243 | For d non-zero, `divmod(p, d) == (q, r)` exactly when `p == q*d + r` with r reduced |
| Division.DivmodOfMultiple | polynomial_parser/polynomial.py:204-243 | Dividing k*d by d gives quotient k and remainder zero |
| Division.DivmodSmall | polynomial_parser/polynomial.py:223 | When deg p < deg d the loop does not run: quotient zero, remainder p |
| Division.DivmodQuotientDegree | polynomial_parser/polynomial.py:204-243 | When deg p >= deg d the quotient has degree deg p - deg d |
| Division.DivmodPolynomial | polynomial_parser/polynomial.py:204-243 | The method with its loop computes the division; for a non-zero divisor it succeeds with the division identity |
| PolynomialMath.DividesTrans | polynomial_parser/polynomial_math.py:6-35 | Divisibility is transitive |
| PolynomialMath.DividesCombination | polynomial_parser/polynomial_math.py:17-21 | A common divisor of x and y divides `q*x + y` and `y - q*x`, which is why a Euclid step keeps the common divisors |
| PolynomialMath.DividesDegree | polynomial_parser/polynomial_math.py:6-35 | A divisor of a non-zero polynomial is non-zero and of no larger degree |
| PolynomialMath.Remainder | polynomial_parser/polynomial_math.py:19 | The remainder of a by a non-zero b is smaller than b and satisfies `q*b + r == a` |
| PolynomialMath.EuclidDivides | polynomial_parser/polynomial_math.py:14-26 | The result of the Euclid loop divides both inputs |
| PolynomialMath.EuclidGreatest | polynomial_parser/polynomial_math.py:14-26 | Every common divisor of the inputs divides the result of the Euclid loop |
| PolynomialMath.EuclidZeroIff | polynomial_parser/polynomial_math.py:14-26 | The Euclid loop gives zero exactly when both inputs are zero |
| PolynomialMath.MonicAssociate | polynomial_parser/polynomial_math.py:28-33 | Dividing by the leading coefficient gives a polynomial that divides g and that g divides |
| PolynomialMath.MonicLead | polynomial_parser/polynomial_math.py:28-33 | The made-monic gcd has leading coefficient 1 and the same degree |
| PolynomialMath.MonicAssociatesEqual | polynomial_parser/polynomial_math.py:28-35 | Two monic polynomials that divide each other are equal, so the monic gcd is unique |
| PolynomialMath.GcdMonic | polynomial_parser/polynomial_math.py:6-35 | The gcd is zero exactly when both inputs are zero, and otherwise has leading coefficient 1 |
| PolynomialMath.GcdWithZero | polynomial_parser/polynomial_math.py:17-35 | gcd(p, 0) is p made monic, and gcd(0, 0) is 0 |
| PolynomialMath.GcdDivides | polynomial_parser/polynomial_math.py:6-35 | The gcd divides both inputs |
| PolynomialMath.GcdGreatest | polynomial_parser/polynomial_math.py:6-35 | Every common divisor of the inputs divides the gcd |
| PolynomialMath.GcdDividesExactly | polynomial_parser/fractional_polynomial.py:46-51 | Dividing either input by a non-zero gcd leaves remainder zero, so the source's warning about a non-zero remainder is never printed |
| PolynomialMath.GcdOfConstant | polynomial_parser/fractional_polynomial.py:41-44 | If one input is a non-zero constant, the gcd is the constant 1 |
| PolynomialMath.GcdComm | polynomial_parser/polynomial_math.py:6-35 | gcd(a, b) == gcd(b, a) |
| PolynomialMath.PolynomialGcd | polynomial_parser/polynomial_math.py:6-35 | The method's loop and its monic step compute the gcd; the `except ValueError` branch is never taken, because b is non-zero inside the loop |
| Fractional.ProductCancel | polynomial_parser/fractional_polynomial.py:46-54 | Multiplication by a non-zero polynomial can be cancelled, so a fraction divided through by the gcd keeps its value |
| Fractional.SameValueTrans | polynomial_parser/fractional_polynomial.py:8-71 | Two fractions with the same value as a third, whose denominator is non-zero, have the same value as each other (cross-multiplied) |
| Fractional.SameValueScale | polynomial_parser/fractional_polynomial.py:61-63 | Multiplying numerator and denominator by the same number keeps the value |
| Fractional.SameValueFold | polynomial_parser/fractional_polynomial.py:65-71 | Dividing the numerator by a non-zero constant denominator c gives a fraction over 1 with the same value |
| Fractional.ConstantIsConst | polynomial_parser/fractional_polynomial.py:65-66 | A non-zero constant denominator is the constant polynomial of its leading coefficient, which is non-zero |
| Fractional.ReduceFactors | polynomial_parser/fractional_polynomial.py:41-54 | After division by the gcd, numerator and denominator times the gcd give back the originals, and the gcd is non-zero |
| Fractional.ReduceCoprime | polynomial_parser/fractional_polynomial.py:41-54 | After division by the gcd, numerator and denominator have gcd 1 |
| Fractional.GcdScale | polynomial_parser/fractional_polynomial.py:59-71 | Multiplying either argument by a non-zero number does not change the monic gcd, so the sign and constant steps keep the fraction reduced |
| Fractional.SimplifyValue | polynomial_parser/fractional_polynomial.py:30-71 | `_simplify` keeps the value of the fraction: the new fraction cross-multiplies to the old one |
| Fractional.FixSignNormal | polynomial_parser/fractional_polynomial.py:59-71 | The sign step makes a reduced fraction normal: positive leading denominator coefficient, gcd 1 |
| Fractional.SimplifyNormal | polynomial_parser/fractional_polynomial.py:30-71 | After `_simplify` the denominator is non-zero with positive leading coefficient, numerator and denominator have gcd 1, and a zero numerator sits over 1 |
| Fractional.SimplifyZero | polynomial_parser/fractional_polynomial.py:36-39 | A zero numerator gives 0 over 1 |
| Fractional.SimplifyPositiveConstant | polynomial_parser/fractional_polynomial.py:65-71 | Over a positive constant denominator c the fraction becomes numerator/c over 1 |
| Fractional.SimplifyNegativeConstant | polynomial_parser/fractional_polynomial.py:61-63 | Over a negative constant denominator both parts are only negated, because the `elif` skips the division by the constant |
| Fractional.SimplifyNotIdempotent | polynomial_parser/fractional_polynomial.py:59-71 | x over -2 simplifies to -x over 2, and simplifying -x over 2 again gives the different fraction -1/2 x over 1 |
| Fractional.ReduceParts | polynomial_parser/fractional_polynomial.py:41-57 | The gcd step: the quotients of numerator and denominator by the gcd, or the parts unchanged when the gcd is 1 |
| Fractional.FixSignParts | polynomial_parser/fractional_polynomial.py:59-71 | The sign and constant-denominator step as the source writes it |
| Fractional.SimplifyParts | polynomial_parser/fractional_polynomial.py:30-71 | `_simplify` as a method computes the simplified fraction |
| Fractional.New | polynomial_parser/fractional_polynomial.py:8-28 | The constructor raises ValueError exactly when the denominator is zero; otherwise the result is normal and has the value numerator/denominator |
| Fractional.LiftIsOverOne | polynomial_parser/fractional_polynomial.py:130-132 | A polynomial lifted to a fraction is itself over 1 |
| Fractional.OperatorsTotal | polynomial_parser/fractional_polynomial.py:130-188 | On normal fractions `+ - *` always succeed with a normal result; `/` raises exactly when the divisor's numerator is zero |
| Fractional.AddMulComm | polynomial_parser/fractional_polynomial.py:130-171 | Fraction addition and multiplication are commutative |
| Fractional.AddValue | polynomial_parser/fractional_polynomial.py:130-139 | The sum has the value of the cross-multiplied numerator over the product of the denominators |
| Fractional.MulValue | polynomial_parser/fractional_polynomial.py:162-171 | The product has the value of numerator times numerator over denominator times denominator |
| Fractional.SumRespectsValue | polynomial_parser/fractional_polynomial.py:136-137 | Replacing the operands by fractions of equal value gives a sum of equal value |
| Fractional.SubRespectsValue | polynomial_parser/fractional_polynomial.py:150-151 | Replacing the operands by fractions of equal value gives a difference of equal value |
| Fractional.MulRespectsValue | polynomial_parser/fractional_polynomial.py:168-169 | Replacing the operands by fractions of equal value gives a product of equal value |
| Fractional.DivRespectsValue | polynomial_parser/fractional_polynomial.py:185-186 | Replacing the operands by fractions of equal value gives a quotient of equal value |
| Fractional.NegRespectsValue | polynomial_parser/evaluator.py:40 | Negating the numerator respects equal values |
| Fractional.Plus | polynomial_parser/fractional_polynomial.py:130-139 | `__add__` computes the simplified cross-multiplied sum |
| Fractional.Minus | polynomial_parser/fractional_polynomial.py:144-153 | `__sub__` computes the simplified cross-multiplied difference |
| Fractional.Times | polynomial_parser/fractional_polynomial.py:162-171 | `__mul__` computes the simplified product |
| Fractional.Divide | polynomial_parser/fractional_polynomial.py:176-188 | `__truediv__` raises ValueError for a zero divisor and otherwise computes the simplified quotient |
| FractionalRendering.IsOneIff | polynomial_parser/fractional_polynomial.py:85 | "constant with coefficient 1 at exponent 0" holds exactly for the polynomial 1 |
| FractionalRendering.FracTextOverOne | polynomial_parser/fractional_polynomial.py:85-86 | A fraction over 1 is written as its numerator |
| FractionalRendering.FracTextExact | polynomial_parser/fractional_polynomial.py:93-99 | When the denominator divides the numerator exactly, the text is the quotient's |
| FractionalRendering.FracTextMixed | polynomial_parser/fractional_polynomial.py:100-118 | With a non-zero remainder r the text is `q - (-r) / (d)` or `q + (r) / (d)` by r's leading sign; the remainder shown never starts with '-', and the shown parts combine back to the numerator |
| FractionalRendering.FracTextProper | polynomial_parser/fractional_polynomial.py:88-91 | When the numerator's degree is below the denominator's, the text is `(n) / (d)` |
| FractionalRendering.FracToString | polynomial_parser/fractional_polynomial.py:73-125 | `__str__` computes the fraction's text; the `except ValueError` fallback is unreachable because the denominator is never zero there |
| Rendering.VarText | polynomial_parser/polynomial.py:80-85 | The variable part is empty exactly for exponent 0, and starts with x otherwise |
| Rendering.TermTextCases | polynomial_parser/polynomial.py:68-93 | A term is written as its coefficient at exponent 0, as `x^e` for coefficient 1, `-x^e` for -1, and `c*x^e` otherwise |
| Rendering.TermTextSign | polynomial_parser/polynomial.py:68-93 | A term's text is non-empty and starts with '-' exactly when its coefficient is negative |
| Rendering.DescendingSorted | polynomial_parser/polynomial.py:61 | The exponents are listed in strictly descending order |
| Rendering.DescendingComplete | polynomial_parser/polynomial.py:61 | Every exponent of the polynomial is listed |
| Rendering.DescendingStartsAtDegree | polynomial_parser/polynomial.py:61 | The list starts at the degree, followed by the other exponents in descending order |
| Rendering.TermTextsAt | polynomial_parser/polynomial.py:63-95 | One text per listed exponent, each the text of that term |
| Rendering.JoinContinued | polynomial_parser/polynomial.py:97-119 | Joining non-empty texts after a first term puts ` - ` or ` + ` before the rest of the text |
| Rendering.RenderZero | polynomial_parser/polynomial.py:58-59 | The zero polynomial is written "0" |
| Rendering.RenderStep | polynomial_parser/polynomial.py:56-121 | A non-zero polynomial is written as its leading term, then ` + ` or ` - ` and the text of the rest |
| Rendering.RenderSign | polynomial_parser/polynomial.py:56-121 | A non-zero polynomial's text starts with '-' exactly when its leading coefficient is negative |
| Rendering.RenderMonomial | polynomial_parser/polynomial.py:56-121 | A single term is written as that term's text |
| Rendering.CollectTermTexts | polynomial_parser/polynomial.py:63-95 | The first loop of `__str__` computes the term texts |
| Rendering.JoinTermTexts | polynomial_parser/polynomial.py:97-119 | The join loop computes the joined text, skipping empty texts |
| Rendering.ToString | polynomial_parser/polynomial.py:56-121 | `__str__` computes the polynomial's text |
| Text.NatTextRoundTrip | polynomial_parser/parser.py:124 | `int` of the decimal text of n is n |
| Text.StripSlice | beta_v/v2.py:308 | `strip()` removes whitespace only, and only from the two ends |
| Text.StripKeeps | beta_v/v2.py:308 | A text without whitespace at its ends is unchanged by `strip()` |
| Text.IntValueDigits | polynomial_parser/parser.py:109 | `int` of a non-empty string of ASCII digits is its decimal value |
| Text.IntValueRejects | polynomial_parser/parser.py:106-112 | `int` fails on a text holding a character other than whitespace, a digit, `_` or a sign |
| Text.IndexOf | beta_v/v2.py:332 | `find` gives the first position holding the character |
| Text.FractionValueSlashes | beta_v/v2.py:380-385 | A coefficient text with two or more `/` does not split into exactly two parts and raises ValueError |
| Text.ExponentText | beta_v/v2.py:363-368 | A negative or unreadable exponent raises ValueError |
| Tokenizer.DigitsEnd | polynomial_parser/tokenizer.py:33 | `\d+` stops at the first non-digit |
| Tokenizer.NumberEnd | polynomial_parser/tokenizer.py:33 | A match of `\d+(\/\d+)?` is not empty |
| Tokenizer.NumberMatchFacts | polynomial_parser/tokenizer.py:33 | The NUMBER match holds only digits and '/' and is an integer or a fraction text |
| Tokenizer.NumberMaximal | polynomial_parser/tokenizer.py:33 | The NUMBER match is maximal: no digit follows it, and a `/digit` after the digits is always taken |
| Tokenizer.MatchAtFacts | polynomial_parser/tokenizer.py:32-53 | The combined pattern matches exactly at a recognised character; the token value fits its type, and the token starts an operand exactly when its first character is `x` or `(` |
| Tokenizer.TokenizeString | polynomial_parser/tokenizer.py:26-88 | The scanning loop computes the tokenizer's result |
| Tokenizer.TokenizeFromError | polynomial_parser/tokenizer.py:84-85 | The scan raises ValueError exactly when a non-whitespace character is not recognised |
| Tokenizer.CollectStep | polynomial_parser/tokenizer.py:55-82 | Appending a token after the MUL_IMPLICIT check keeps the collected tokens well placed |
| Tokenizer.TokenizeFromText | polynomial_parser/tokenizer.py:43-88 | The token values spell the input without its whitespace |
| Tokenizer.TokenizeCorrect | polynomial_parser/tokenizer.py:26-88 | `tokenize` fails with ValueError exactly on an unrecognised non-whitespace character; otherwise the list ends with the one EOF token, each value fits its type, MUL_IMPLICIT stands exactly between an operand end (number, x, `)`) and an operand start (x, `(`), and the values spell the input without whitespace |
| ImplicitMultiply.InsertUpTo | polynomial_parser/implicit_multiply.py:16-47 | After n iterations the output has the n tokens and one `*` for each triggering pair among them |
| ImplicitMultiply.InsertImplicitMultiplication | polynomial_parser/implicit_multiply.py:5-48 | The loop computes the pass's result |
| ImplicitMultiply.InsertKeepsTokens | polynomial_parser/implicit_multiply.py:16-47 | Apart from the inserted `*` tokens the pass keeps every token, in order |
| ImplicitMultiply.InsertPositions | polynomial_parser/implicit_multiply.py:16-47 | Token i lands after the `*` tokens inserted before it; a `*` follows it exactly when it and the next token form one of the five pairs |
| ImplicitMultiply.InsertLeavesNoPairs | polynomial_parser/implicit_multiply.py:32-45 | After the pass no two adjacent tokens form one of the five pairs |
| ImplicitMultiply.InsertWithoutPairs | polynomial_parser/implicit_multiply.py:16-47 | A token list without such pairs passes unchanged |
| ImplicitMultiply.InsertCorrect | polynomial_parser/implicit_multiply.py:5-48 | The pass inserts only `*` tokens, leaves no pair behind, changes a list without pairs not at all, and is idempotent |
| ImplicitMultiply.InsertAfterTokenize | polynomial_parser/__init__.py:16-20 | On the tokenizer's output the pass changes nothing, because the tokenizer already put MUL_IMPLICIT between every such pair |
| Ast.MakeBinOp | polynomial_parser/ast_nodes.py:23-28 | `BinOpNode` accepts exactly `+ - * /` and raises ValueError for anything else |
| Ast.MakeUnaryOp | polynomial_parser/ast_nodes.py:36-40 | `UnaryOpNode` accepts exactly `-` and raises ValueError for anything else |
| Ast.ConstructorsWellFormed | polynomial_parser/ast_nodes.py:20-40 | Trees built by the validating constructors are well formed |
| Ast.RenderNoParens | polynomial_parser/polynomial.py:56-121 | With a coefficient formatter that writes no parentheses, a polynomial's text has none |
| Ast.NodeTextParens | polynomial_parser/ast_nodes.py:17-18 | A well-formed tree's text holds exactly one `(` and one `)` per binary node: it is fully parenthesised |
| Ast.BinaryNodeParens | polynomial_parser/ast_nodes.py:30-31 | A binary node's text adds one pair of parentheses to those of its operands |
| Ast.UnaryNodeParens | polynomial_parser/ast_nodes.py:42-43 | A unary node's text adds no parentheses |
| Parsing.ExponentValue | polynomial_parser/parser.py:123-128 | An exponent that is not a non-negative integer raises ValueError |
| Parsing.At | polynomial_parser/parser.py:22-24 | `current_token` is the token at the position, or IndexError past the end |
| Parsing.EatAt | polynomial_parser/parser.py:26-31 | `eat` moves one step exactly when the current token has the type; otherwise SyntaxError, or IndexError past the end |
| Parsing.MultiplicativeOp | polynomial_parser/parser.py:64-72 | A multiplicative token's node operator is `*` or `/`, and always `*` for MUL_IMPLICIT |
| Parsing.ParseExpression | polynomial_parser/parser.py:40-50 | A parsed expression is well formed and consumes at least one token; on an EOF-ended list it never raises IndexError and stops before the end |
| Parsing.ExpressionLoop | polynomial_parser/parser.py:44-48 | The `+`/`-` loop keeps the tree well formed and, on an EOF-ended list, stays in bounds |
| Parsing.ParseTerm | polynomial_parser/parser.py:52-78 | A parsed term is well formed and consumes at least one token; on an EOF-ended list it never raises IndexError |
| Parsing.TermLoop | polynomial_parser/parser.py:59-76 | The `*`/`/`/MUL_IMPLICIT loop keeps the tree well formed and stays in bounds |
| Parsing.ExpressionLoopStep | polynomial_parser/parser.py:44-48 | One round of the loop eats the operator, parses a term and nests the tree so far as the left operand |
| Parsing.ExponentAt | polynomial_parser/parser.py:117-130 | The optional `^ NUMBER` stays in bounds on an EOF-ended list |
| Parsing.ParseFactor | polynomial_parser/parser.py:80-136 | A parsed factor is well formed and consumes at least one token; on an EOF-ended list it never raises IndexError |
| Parsing.ParseFrom | polynomial_parser/parser.py:33-38 | `parse` succeeds exactly when the expression is followed by EOF, and then returns that expression's well-formed tree. An expression followed by any other token raises SyntaxError. An error inside the expression is passed on unchanged. It never raises IndexError on an EOF-ended list |
| Parsing.NumberTextCoefficient | polynomial_parser/parser.py:104-110 | An integer NUMBER gives its value; `a/b` gives a/b, or ZeroDivisionError when b is 0 |
| Parsing.NumberTextExponent | polynomial_parser/parser.py:123-128 | After `^`, an integer NUMBER gives its value and a fraction NUMBER raises ValueError |
| Parsing.FactorNumber | polynomial_parser/parser.py:101-112 | A NUMBER factor is the constant polynomial of its value, or ZeroDivisionError for `a/0` |
| Parsing.FactorVariable | polynomial_parser/parser.py:114-133 | `x` alone is x^1; `x ^ n` is x^n; `x ^` followed by a non-NUMBER is a SyntaxError; a fraction exponent is a ValueError |
| Parsing.ImplicitParsesAsStar | polynomial_parser/parser.py:59-76 | Token lists that differ only in MUL_IMPLICIT versus OPERATOR `*` parse to the same result |
| Parsing.ReplaceImplicit | polynomial_parser/parser.py:69-72 | Replacing one MUL_IMPLICIT by an OPERATOR `*` does not change the parse |
| Parsing.TermOfProduct | polynomial_parser/parser.py:52-78 | `a * b` followed by a non-multiplicative token parses to the node with that operator over the two factors |
| Parsing.LeftNested | polynomial_parser/parser.py:40-50 | `a ± b ± c` nests to the left: `((a ± b) ± c)` |
| Parsing.UnaryWrapsPower | polynomial_parser/parser.py:84-88 | `- x ^ n` is the negation of x^n: the unary minus binds looser than `^` |
| Parsing.PowerOfGroupRejected | polynomial_parser/parser.py:33-38 | A parenthesised group followed by `^` is left unparsed, so `parse` raises SyntaxError |
| Parsing.NegatedGroupFactor | polynomial_parser/parser.py:80-88 | In `d * - g`, the unary minus applies to the factor after it |
| Parsing.Parser.constructor | polynomial_parser/parser.py:18-20 | The parser starts at position 0 of the token list |
| Parsing.Parser.Eat | polynomial_parser/parser.py:26-31 | The method advances the position exactly when the current token has the type; otherwise it reports the error and does not move |
| Parsing.Parser.Parse | polynomial_parser/parser.py:33-38 | The object's `parse` computes the spec parse from its position |
| Parsing.Parser.Expression | polynomial_parser/parser.py:40-50 | The method computes the spec expression and leaves the position where it ends |
| Parsing.Parser.MoreTerms | polynomial_parser/parser.py:44-48 | The method's loop computes the spec loop and leaves the position where it ends |
| Parsing.Parser.Term | polynomial_parser/parser.py:52-78 | The method computes the spec term and leaves the position where it ends |
| Parsing.Parser.MoreFactors | polynomial_parser/parser.py:59-76 | The method's loop computes the spec loop and leaves the position where it ends |
| Parsing.Parser.Factor | polynomial_parser/parser.py:80-136 | The method computes the spec factor and leaves the position where it ends |
| Evaluation.Evaluate | polynomial_parser/evaluator.py:9-45 | The evaluator computes the spec evaluation: children first, left before right |
| Evaluation.EvalLeaf | polynomial_parser/evaluator.py:11-12 | A leaf evaluates to its polynomial over 1, which is normal |
| Evaluation.NegationNormal | polynomial_parser/evaluator.py:38-40 | Negating a normal fraction succeeds with a normal result of the negated value |
| Evaluation.ApplyNormal | polynomial_parser/evaluator.py:22-31 | On normal operands an operator succeeds exactly for `+ - * /` with a non-zero divisor, with a normal result; otherwise ValueError |
| Evaluation.EvalBinOp | polynomial_parser/evaluator.py:14-31 | A binary node applies its operator to its children's values |
| Evaluation.EvalUnaryOp | polynomial_parser/evaluator.py:33-42 | A unary node negates for `-` and raises ValueError otherwise |
| Evaluation.EvalNormal | polynomial_parser/evaluator.py:9-45 | Every successful evaluation is a normal fraction |
| Evaluation.EvalFailsIff | polynomial_parser/evaluator.py:9-45 | A well-formed tree fails to evaluate exactly when it divides by a zero value, always with ValueError; the unknown-operator branches are unreachable |
| Evaluation.DivisionByZero | polynomial_parser/evaluator.py:28-29 | `/` by a right operand of value zero raises ValueError |
| Evaluation.EvalNegation | polynomial_parser/evaluator.py:33-40 | Unary minus gives the negated value of its operand |
| Evaluation.ApplyDenotes | polynomial_parser/evaluator.py:22-29 | Applying an operator to fractions of given values gives the value its rule of fractions states |
| Evaluation.EvalDenotes | polynomial_parser/evaluator.py:9-45 | The evaluation of a tree has the value the tree denotes by exact fraction arithmetic, with a non-zero denominator |
| Pipeline.ParseAndEvaluate | polynomial_parser/__init__.py:10-34 | `parse_and_evaluate` tokenizes, inserts the implicit `*`, parses and evaluates, passing every error on |
| Pipeline.InterpretCorrect | polynomial_parser/__init__.py:10-34 | Tokenizer failures are ValueErrors; the implicit pass changes nothing; a parse failure is passed on and is never an IndexError; a parsed tree is well formed and fails exactly when it divides by zero; a result is normal and has the value the tree denotes |
| Legacy.Without | beta_v/v2.py:288 | `replace(" ", "")` leaves no space |
| Legacy.WithoutKeeps | beta_v/v2.py:288 | Removing spaces keeps the count of every other character, and changes a text without spaces not at all |
| Legacy.DelimitMinus | beta_v/v2.py:299 | `replace("-", "+-")` adds one character per '-' |
| Legacy.DelimitMinusFacts | beta_v/v2.py:299 | After the replacement every '-' follows a '+', and apart from the '+' signs the text is unchanged |
| Legacy.Split | beta_v/v2.py:303 | `split` gives one piece more than the separators in the text |
| Legacy.SplitJoin | beta_v/v2.py:303 | The pieces hold no separator, and joining them with it gives the text back |
| Legacy.SplitSigned | beta_v/v2.py:299-303 | When every '-' follows a '+', each piece has a '-' only at its start |
| Legacy.VariableExponent | beta_v/v2.py:359-370 | A variable part that is not `x` or `x^n` raises ValueError; any accepted one starts with x |
| Legacy.VariableExponentText | beta_v/v2.py:360-364 | `x` has exponent 1 and `x^n` exponent n |
| Legacy.CoefficientValue | beta_v/v2.py:377-399 | A coefficient fails with ValueError, or ZeroDivisionError for a fraction; an empty one is 0 with a variable part and an error without |
| Legacy.PlainShape | beta_v/v2.py:344-375 | Without '*' a term fails only with ValueError |
| Legacy.ShapeAsWritten | beta_v/v2.py:334-375 | As written, a term fails only with ValueError |
| Legacy.TermShape | beta_v/v2.py:334-375 | With the exponent read in the '*' branch too, a term fails only with ValueError |
| Legacy.SignedBody | beta_v/v2.py:308-328 | Reading the sign fails only with ValueError |
| Legacy.SignedTerm | beta_v/v2.py:377-406 | A term that is read always contributes a term |
| Legacy.SignedTermNegates | beta_v/v2.py:322-325 | The leading '-' negates the coefficient and changes nothing else |
| Legacy.Term | beta_v/v2.py:307-406 | A term is skipped exactly when it strips to "" or "0"; a lone "-" is a ValueError; every failure is a ValueError or a ZeroDivisionError |
| Legacy.TermAsWritten | beta_v/v2.py:307-406 | As written, a term is skipped exactly when it strips to "" or "0", and fails only with ValueError or ZeroDivisionError |
| Legacy.ParsePolynomial | beta_v/v2.py:280-410 | The reader computes the polynomial of the text, with the exponent read in the '*' branch |
| Legacy.CollectTerms | beta_v/v2.py:305-407 | The loop computes the accumulated terms, stopping at the first failing term |
| Legacy.CollectSums | beta_v/v2.py:305-407 | The accumulation succeeds exactly when every term reads; a failure is the error of the first failing term; a success holds at each exponent the sum of the coefficients read at it |
| Legacy.PolynomialSums | beta_v/v2.py:280-410 | A text without anything but spaces is the zero polynomial; otherwise the reader succeeds exactly when every term text reads, fails with the first failing term's error, and has at each exponent the sum of the terms' coefficients there |
| Legacy.SpacesIgnored | beta_v/v2.py:288 | Spaces in the text do not change the result |
| Legacy.DelimitMinusWithout | beta_v/v2.py:299 | A text without '-' is unchanged by the replacement |
| Legacy.SingleTerm | beta_v/v2.py:295-410 | A text without spaces or signs is one term, and the polynomial is that term's |
| Legacy.TermTextsSigned | beta_v/v2.py:295-303 | The term texts join back to the delimited text, hold no '+', and have a '-' only at their start |
| Legacy.TermConstant | beta_v/v2.py:372-387 | The integer n reads as the constant n, and "0" is skipped |
| Legacy.TermFraction | beta_v/v2.py:380-385 | `a/b` reads as the constant a/b, and raises ZeroDivisionError for b = 0 |
| Legacy.TermImplicit | beta_v/v2.py:344-370 | `dx` and `dx^n` read as d at exponent 1 or n, with coefficient 1 when d is empty |
| Legacy.TermStar | beta_v/v2.py:334-342 | With the correction, `d*x` and `d*x^n` read as `dx` and `dx^n` do |
| Legacy.TermNegated | beta_v/v2.py:322-328 | A leading '-' negates the term read after it |
| Legacy.StarWithoutCoefficient | beta_v/v2.py:386-396 | `*x^n` reads with coefficient 0, because an empty coefficient with a variable part is left at zero |
| Legacy.StarExponentLost | beta_v/v2.py:334-342 | As written, `d*x^n` reads as d at exponent 0; the correction reads it at exponent n |
| Legacy.StarPolynomialLost | beta_v/v2.py:334-342 | As written, the text `d*x^n` is the constant d; the correction gives d x^n |
| Legacy.ThreeXSquared | beta_v/v2_test.py:5 | As written, "3*x^2" is the constant 3; the correction gives 3x^2 |

## Where the code and its documentation differ

The model follows the code in each of these cases.

- **Zero divisor in `divmod_polynomial`.** Dividing the zero polynomial by the zero
  polynomial returns `(0, 0)`. Any other division by zero raises ValueError. See
  `Division.DivmodByZero`.
- **Constructing a fraction with a zero denominator.** This raises ValueError, whether or
  not the numerator is zero as well. There is no separate error for 0/0. See
  `Fractional.New`.
- **Error kinds.** The error kinds are Python's own:
  - ValueError for an unrecognised character, a bad number, a zero divisor or an
    unknown operator;
  - SyntaxError for a token the grammar does not expect;
  - ZeroDivisionError for a literal `a/0`, raised by `Fraction` and not caught.
- **`_simplify` is not idempotent.** Its `elif` means a negative constant denominator is
  only negated. It is not also divided out: x over -2 becomes -x over 2, and a second
  simplification gives -1/2 x over 1. See `Fractional.SimplifyNegativeConstant` and
  `Fractional.SimplifyNotIdempotent`. The result is still in lowest terms with a positive
  leading denominator coefficient, which is what `Fractional.Normal` states.
- **Powers in the parser.** The docstring's grammar (parser.py:11-16) reads
  `factor -> power (^ power)*`, where a power is a NUMBER, a VARIABLE or a parenthesised
  expression. That grammar admits `(x+1)^2`, `2^3` and `x^x`. The code takes `^` only
  directly after a VARIABLE, and it requires a NUMBER after the `^` (parser.py:114-133).
  So `(x+1)^2` leaves the `^` unparsed and `parse` raises SyntaxError
  (`Parsing.PowerOfGroupRejected`). A non-NUMBER exponent such as in `x^x` raises
  SyntaxError too (`Parsing.FactorVariable`).
- **`parse_polynomial` and `*`.** Its docstring promises terms of the form `a*x^n`, but
  the code drops the exponent after a `*`. See "## Findings".

## Left out

- **Type checks.** The `isinstance` guards, the TypeError they raise, and the `NotImplemented`
  returns are left out. Every argument already has its Dafny type.
- **Reflected operators.** `__radd__`, `__rsub__`, `__rmul__`, `__rtruediv__` and
  `_to_polynomial` are left out. Mixed operands are lifted explicitly: a number c becomes
  `Const(c)`, and a polynomial p becomes p over 1 (`Fractional.Lift`).
- **Key conversion in the constructor.** In `Polynomial.__init__`, `int(exp)` and
  `Fraction(coeff)` run inside a `try`. In the model the keys are already natural numbers
  and the values reals.
- **`print` calls.** The warnings in `_simplify`, `polynomial_gcd` and
  `FractionalPolynomial.__str__` are output only. Each is on a branch that is proved
  unreachable. The message inside `parse_and_evaluate` is output only as well. Exception
  message texts are not modelled.
- **Coefficient text.** `str(Fraction)` is a parameter `fmt` of the rendering functions.
  `Rendering.ValidFormatter` lists what the proofs assume of it. The model does not
  compute a real number's numerator and denominator.
- **Unicode in `int()` and `\d`.** Both also accept non-ASCII digits. The model accepts
  `0`-`9` only. Whitespace is Python's `str.isspace` set, written out in
  `Text.IsWhitespace`.
- **`token.value = '*'` in the parser.** The source assigns to a MUL_IMPLICIT token's
  value, changing a token object shared with the caller. The model uses `*` as the node
  operator instead (`Parsing.MultiplicativeOp`). A MUL_IMPLICIT token's value is already
  `*`, so nothing observable changes.
- **IndexError past the end of the token list.** This is modelled as the error kind
  IndexError. `Parsing.ParseFrom` proves it cannot happen on an EOF-ended list, and
  `tokenize` always produces one.
- The regular-expression engine is not modelled. The one pattern the tokenizer uses is
  written out as `Tokenizer.MatchAt`.
- **Parser examples.** The parses of example strings are proved as token-list shapes, not
  for concrete string literals: `Parsing.LeftNested`, `Parsing.UnaryWrapsPower`,
  `Parsing.PowerOfGroupRejected` and `Parsing.NegatedGroupFactor`.
- **`Polynomial.__str__` turning zero into "0"** is proved (`Rendering.RenderZero`).
  The text of a fraction is proved only case by case.
- **v2.py's own `Polynomial` class** (v2.py:4-274) is not part of this model.
  `parse_polynomial` builds one from its dictionary. Its constructor drops zero
  coefficients (v2.py:11-30) just as the package's does, so the model builds the
  package's `Polynomial` with `Clean`.
- **Term sign in `parse_polynomial`.** The source multiplies the coefficient by a sign
  `term_sign` of 1 or -1. The model carries a flag `negative` and negates. The two agree
  on every coefficient.
- **`Legacy.ParsePolynomial` reads the exponent after a `*`**, unlike the code as written.
  This is the correction described under "## Findings". The code as written is
  `Legacy.ShapeAsWritten`, `Legacy.TermAsWritten` and `Legacy.PolynomialAsWritten`.
- **`Legacy.StarWithoutCoefficient`**: a term `*x` keeps the coefficient 0, as the code
  does. This is modelled as written.
- Command-line front ends, `partial_fraction.py`, `formatting.py`, and the v1 and v3
  parsers are not part of this model.

## Findings

| source | as written | input that shows it | evidently intended | confidence | as-written member | corrected member |
|---|---|---|---|---|---|---|
| beta_v/v2.py:334-342 | In the `*` branch the variable part is checked to start with `x`, but its exponent is never read, so `exp` stays 0 | `"3*x^2"` reads as the constant 3 | 3x^2: the docstring promises `a*x^n`, and v2_test.py:5 expects `3*x^2 + x - 5` to come back unchanged | not executed | Legacy.TermAsWritten, Legacy.StarExponentLost, Legacy.ThreeXSquared | Legacy.Term, Legacy.TermShape, Legacy.TermStar |
