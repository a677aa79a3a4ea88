/**
 * The regular expressions of the two numeric tokenizers, each as a
 * hand-written matcher `Match…(t, p)` that returns the end of the match
 * Python's `re` finds when it tries the pattern at position `p` of `t`
 * (greedy quantifiers with backtracking), or `None`.
 *
 * Beside each matcher stands the pattern read as a language, `…In(t, p, e)`:
 * "t[p..e] is a string the regular expression describes", written
 * quantifier by quantifier with existentially chosen split points and no
 * greedy choice in it.  For every one of these patterns the greedy,
 * backtracking match is the longest string of the language that starts at
 * `p`, and the lemmas prove exactly that of the matchers: what a matcher
 * returns is in the language (`…Sound`), and every string of the language
 * starting at `p` ends at or before it (`…Longest`), so the matcher fails
 * only where no string of the language starts.
 */
module Patterns {
  import opened Wrappers
  import opened Text

  /** The eleven patterns: five of extractor_rojo.py, six of extractor_imagenes.py. */
  datatype Pattern =
    | Caudal         // [+\-]?\d+\.?\d*\s*m³/h?
    | Volumen        // [+\-]?\d+\.?\d*\s*m³
    | SignedDecimal  // [+\-]?\d+\.?\d+
    | NumberLetter   // \d+[a-zA-Z]
    | Integer        // \d+
    | Decimal        // \d+\.\d+
    | WordInteger    // \b\d+\b
    | Percent        // \d+\.?\d*\s*%
    | Currency       // [\$€£]\s*\d+\.?\d*
    | Date           // \d{1,2}[/-]\d{1,2}[/-]\d{2,4}
    | Phone          // [\d\s\-\(\)]{10,}

  predicate IsSign(c: char) { c == '+' || c == '-' }

  predicate IsCurrencySymbol(c: char) { c == '$' || c == '\U{20AC}' || c == '\U{A3}' }

  predicate IsDateSep(c: char) { c == '/' || c == '-' }

  predicate IsPhoneChar(c: char) { IsDigit(c) || IsSpace(c) || c == '-' || c == '(' || c == ')' }

  // ---------------------------------------------------------------------
  // Runs of one character class, and their declarative reading

  ghost predicate AllDigits(t: string, i: int, j: int) {
    0 <= i <= j <= |t| && forall k :: i <= k < j ==> IsDigit(t[k])
  }

  ghost predicate AllSpaces(t: string, i: int, j: int) {
    0 <= i <= j <= |t| && forall k :: i <= k < j ==> IsSpace(t[k])
  }

  ghost predicate AllPhone(t: string, i: int, j: int) {
    0 <= i <= j <= |t| && forall k :: i <= k < j ==> IsPhoneChar(t[k])
  }

  /** End of the longest digit run from `q`. */
  function DigitsEnd(t: string, q: nat): (e: nat)
    requires q <= |t|
    ensures q <= e <= |t| && AllDigits(t, q, e)
    ensures e == |t| || !IsDigit(t[e])
    decreases |t| - q
  {
    if q < |t| && IsDigit(t[q]) then DigitsEnd(t, q + 1) else q
  }

  /** End of the longest whitespace run from `q`. */
  function SpacesEnd(t: string, q: nat): (e: nat)
    requires q <= |t|
    ensures q <= e <= |t| && AllSpaces(t, q, e)
    ensures e == |t| || !IsSpace(t[e])
    decreases |t| - q
  {
    if q < |t| && IsSpace(t[q]) then SpacesEnd(t, q + 1) else q
  }

  /** End of the longest run of `[\d\s\-\(\)]` from `q`. */
  function PhoneEnd(t: string, q: nat): (e: nat)
    requires q <= |t|
    ensures q <= e <= |t| && AllPhone(t, q, e)
    ensures e == |t| || !IsPhoneChar(t[e])
    decreases |t| - q
  {
    if q < |t| && IsPhoneChar(t[q]) then PhoneEnd(t, q + 1) else q
  }

  /** `[+\-]?` tried greedily: it takes the sign when there is one. */
  function SignSkip(t: string, p: nat): (q: nat)
    requires p <= |t|
    ensures q <= |t|
  {
    if p < |t| && IsSign(t[p]) then p + 1 else p
  }

  /** `[+\-]?` read as a language. */
  ghost predicate SignIn(t: string, p: int, q: int) {
    q == p || (q == p + 1 && 0 <= p < |t| && IsSign(t[p]))
  }

  /** A run of one class that is followed by a character outside the class is the longest run. */
  lemma DigitsUnique(t: string, q: nat, e: nat)
    requires AllDigits(t, q, e) && (e == |t| || !IsDigit(t[e]))
    ensures e == DigitsEnd(t, q)
  {
  }

  /** No digit run from `q` goes past the longest one. */
  lemma DigitsLongest(t: string, q: nat, e: nat)
    requires AllDigits(t, q, e)
    ensures e <= DigitsEnd(t, q)
  {
  }

  lemma SpacesUnique(t: string, q: nat, e: nat)
    requires AllSpaces(t, q, e) && (e == |t| || !IsSpace(t[e]))
    ensures e == SpacesEnd(t, q)
  {
  }

  // ---------------------------------------------------------------------
  // The number `\d+\.?\d*` shared by four patterns

  /** `\d+\.?\d*` tried greedily from a digit. */
  function NumberEnd(t: string, q: nat): (e: nat)
    requires q < |t| && IsDigit(t[q])
    ensures q < e <= |t|
  {
    var a := DigitsEnd(t, q);
    if a < |t| && t[a] == '.' then DigitsEnd(t, a + 1) else a
  }

  /** `\d+\.?\d*` read as a language. */
  ghost predicate NumberIn(t: string, i: int, j: int) {
    exists a :: 0 <= i < a <= j <= |t| && AllDigits(t, i, a) &&
      (AllDigits(t, a, j) || (a < j && t[a] == '.' && AllDigits(t, a + 1, j)))
  }

  lemma NumberSound(t: string, q: nat)
    requires q < |t| && IsDigit(t[q])
    ensures NumberIn(t, q, NumberEnd(t, q))
  {
    var a := DigitsEnd(t, q);
    assert AllDigits(t, q, a);
    if a < |t| && t[a] == '.' {
      assert AllDigits(t, a + 1, NumberEnd(t, q));
    } else {
      assert AllDigits(t, a, a);
    }
  }

  /** Every number starting at `q` ends at or before the greedy one ... */
  lemma NumberLongest(t: string, q: nat, j: int)
    requires NumberIn(t, q, j)
    ensures q < |t| && IsDigit(t[q]) && j <= NumberEnd(t, q)
  {
    var a :| 0 <= q < a <= j <= |t| && AllDigits(t, q, a) &&
      (AllDigits(t, a, j) || (a < j && t[a] == '.' && AllDigits(t, a + 1, j)));
    assert IsDigit(t[q]);
    if AllDigits(t, a, j) {
      assert AllDigits(t, q, j);
      DigitsLongest(t, q, j);
    } else {
      DigitsUnique(t, q, a);
      DigitsLongest(t, a + 1, j);
    }
  }

  /** ... and one followed by a character that cannot continue it is the greedy one. */
  lemma NumberUnique(t: string, q: nat, j: int)
    requires NumberIn(t, q, j)
    requires j == |t| || (0 <= j < |t| && !IsDigit(t[j]) && t[j] != '.')
    ensures q < |t| && IsDigit(t[q]) && j == NumberEnd(t, q)
  {
    NumberLongest(t, q, j);
    var a :| 0 <= q < a <= j <= |t| && AllDigits(t, q, a) &&
      (AllDigits(t, a, j) || (a < j && t[a] == '.' && AllDigits(t, a + 1, j)));
    if AllDigits(t, a, j) {
      assert AllDigits(t, q, j);
      DigitsUnique(t, q, j);
    } else {
      DigitsUnique(t, q, a);
      DigitsUnique(t, a + 1, j);
    }
  }

  // ---------------------------------------------------------------------
  // caudal: [+\-]?\d+\.?\d*\s*m³/h?

  function MatchCaudal(t: string, p: nat): Option<nat>
    requires p <= |t|
  {
    var q := SignSkip(t, p);
    if q < |t| && IsDigit(t[q]) then
      var w := SpacesEnd(t, NumberEnd(t, q));
      if w + 3 <= |t| && t[w] == 'm' && t[w + 1] == Cubed && t[w + 2] == '/' then
        Some(if w + 3 < |t| && t[w + 3] == 'h' then w + 4 else w + 3)
      else None
    else None
  }

  ghost predicate CaudalIn(t: string, p: int, e: int) {
    exists q, n, w :: CaudalSplit(t, p, e, q, n, w)
  }

  /** The sign ends at `q`, the number at `n`, the blanks at `w`; then `m³/` and maybe `h`. */
  ghost predicate CaudalSplit(t: string, p: int, e: int, q: int, n: int, w: int) {
    SignIn(t, p, q) && NumberIn(t, q, n) && AllSpaces(t, n, w) &&
    w + 3 <= e <= |t| && t[w] == 'm' && t[w + 1] == Cubed && t[w + 2] == '/' &&
    (e == w + 3 || (e == w + 4 && t[w + 3] == 'h'))
  }

  lemma CaudalSound(t: string, p: nat)
    requires p <= |t| && MatchCaudal(t, p).Some?
    ensures CaudalIn(t, p, MatchCaudal(t, p).value)
  {
    var q := SignSkip(t, p);
    var n := NumberEnd(t, q);
    NumberSound(t, q);
    var w := SpacesEnd(t, n);
    assert CaudalSplit(t, p, MatchCaudal(t, p).value, q, n, w);
  }

  lemma CaudalLongest(t: string, p: nat, e: int)
    requires CaudalIn(t, p, e)
    ensures MatchCaudal(t, p).Some? && e <= MatchCaudal(t, p).value
  {
    var q, n, w :| CaudalSplit(t, p, e, q, n, w);
    UnitPrefixGreedy(t, p, q, n, w);
    CaudalTail(t, p, w, e);
  }

  /** Once the unit starts at `w`, the greedy match ends at the longest tail. */
  lemma CaudalTail(t: string, p: nat, w: int, e: int)
    requires p <= |t| && SignSkip(t, p) < |t| && IsDigit(t[SignSkip(t, p)])
    requires w == SpacesEnd(t, NumberEnd(t, SignSkip(t, p)))
    requires w + 3 <= e <= |t| && t[w] == 'm' && t[w + 1] == Cubed && t[w + 2] == '/'
    requires e == w + 3 || (e == w + 4 && t[w + 3] == 'h')
    ensures MatchCaudal(t, p).Some? && e <= MatchCaudal(t, p).value
  {
  }

  /** Sign, number and blanks before a unit are all the greedy ones. */
  lemma UnitPrefixGreedy(t: string, p: nat, q: int, n: int, w: int)
    requires SignIn(t, p, q) && NumberIn(t, q, n) && AllSpaces(t, n, w)
    requires w < |t| && !IsSpace(t[w]) && !IsDigit(t[w]) && t[w] != '.'
    ensures q == SignSkip(t, p) && q < |t| && IsDigit(t[q])
    ensures n == NumberEnd(t, q) && w == SpacesEnd(t, n)
  {
    NumberLongest(t, q, n);
    assert q == SignSkip(t, p);
    if n < w { assert IsSpace(t[n]); }
    NumberUnique(t, q, n);
    SpacesUnique(t, n, w);
  }

  // ---------------------------------------------------------------------
  // volumen: [+\-]?\d+\.?\d*\s*m³

  function MatchVolumen(t: string, p: nat): Option<nat>
    requires p <= |t|
  {
    var q := SignSkip(t, p);
    if q < |t| && IsDigit(t[q]) then
      var w := SpacesEnd(t, NumberEnd(t, q));
      if w + 2 <= |t| && t[w] == 'm' && t[w + 1] == Cubed then Some(w + 2) else None
    else None
  }

  ghost predicate VolumenIn(t: string, p: int, e: int) {
    exists q, n, w :: SignIn(t, p, q) && NumberIn(t, q, n) && AllSpaces(t, n, w) &&
      e == w + 2 <= |t| && t[w] == 'm' && t[w + 1] == Cubed
  }

  lemma VolumenSound(t: string, p: nat)
    requires p <= |t| && MatchVolumen(t, p).Some?
    ensures VolumenIn(t, p, MatchVolumen(t, p).value)
  {
    var q := SignSkip(t, p);
    var n := NumberEnd(t, q);
    NumberSound(t, q);
    var w := SpacesEnd(t, n);
    assert SignIn(t, p, q) && NumberIn(t, q, n) && AllSpaces(t, n, w);
  }

  lemma VolumenLongest(t: string, p: nat, e: int)
    requires VolumenIn(t, p, e)
    ensures MatchVolumen(t, p).Some? && e <= MatchVolumen(t, p).value
  {
    var q, n, w :| SignIn(t, p, q) && NumberIn(t, q, n) && AllSpaces(t, n, w) &&
      e == w + 2 <= |t| && t[w] == 'm' && t[w + 1] == Cubed;
    VolumenLongestAt(t, p, q, n, w);
  }

  lemma VolumenLongestAt(t: string, p: nat, q: int, n: int, w: int)
    requires SignIn(t, p, q) && NumberIn(t, q, n) && AllSpaces(t, n, w)
    requires w + 2 <= |t| && t[w] == 'm' && t[w + 1] == Cubed
    ensures MatchVolumen(t, p) == Some(w + 2)
  {
    UnitPrefixGreedy(t, p, q, n, w);
  }

  // ---------------------------------------------------------------------
  // decimal of extractor_rojo.py: [+\-]?\d+\.?\d+

  function MatchSignedDecimal(t: string, p: nat): Option<nat>
    requires p <= |t|
  {
    var q := SignSkip(t, p);
    if q < |t| && IsDigit(t[q]) then
      var a := DigitsEnd(t, q);
      if a + 1 < |t| && t[a] == '.' && IsDigit(t[a + 1]) then Some(DigitsEnd(t, a + 1))
      else if a - q >= 2 then Some(a)
      else None
    else None
  }

  ghost predicate SignedDecimalIn(t: string, p: int, e: int) {
    exists q, a, b :: SignIn(t, p, q) && q < a && AllDigits(t, q, a) &&
      (b == a || (b == a + 1 && a < |t| && t[a] == '.')) && b < e && AllDigits(t, b, e)
  }

  lemma SignedDecimalSound(t: string, p: nat)
    requires p <= |t| && MatchSignedDecimal(t, p).Some?
    ensures SignedDecimalIn(t, p, MatchSignedDecimal(t, p).value)
  {
    var q := SignSkip(t, p);
    var a := DigitsEnd(t, q);
    var e := MatchSignedDecimal(t, p).value;
    if a + 1 < |t| && t[a] == '.' && IsDigit(t[a + 1]) {
      assert SignIn(t, p, q) && AllDigits(t, q, a) && AllDigits(t, a + 1, e);
    } else {
      assert SignIn(t, p, q) && AllDigits(t, q, a - 1) && AllDigits(t, a - 1, e);
    }
  }

  lemma SignedDecimalLongest(t: string, p: nat, e: int)
    requires SignedDecimalIn(t, p, e)
    ensures MatchSignedDecimal(t, p).Some? && e <= MatchSignedDecimal(t, p).value
  {
    var q, a, b :| SignIn(t, p, q) && q < a && AllDigits(t, q, a) &&
      (b == a || (b == a + 1 && a < |t| && t[a] == '.')) && b < e && AllDigits(t, b, e);
    SignedDecimalLongestAt(t, p, e, q, a, b);
  }

  lemma SignedDecimalLongestAt(t: string, p: nat, e: int, q: int, a: int, b: int)
    requires SignIn(t, p, q) && q < a && AllDigits(t, q, a)
    requires b == a || (b == a + 1 && a < |t| && t[a] == '.')
    requires b < e && AllDigits(t, b, e)
    ensures MatchSignedDecimal(t, p).Some? && e <= MatchSignedDecimal(t, p).value
  {
    assert IsDigit(t[q]);
    assert q == SignSkip(t, p);
    if b == a {
      assert AllDigits(t, q, e);
      DigitsLongest(t, q, e);
    } else {
      DigitsUnique(t, q, a);
      assert IsDigit(t[a + 1]);
      DigitsLongest(t, a + 1, e);
    }
  }

  // ---------------------------------------------------------------------
  // numero_letra: \d+[a-zA-Z]

  function MatchNumberLetter(t: string, p: nat): Option<nat>
    requires p <= |t|
  {
    if p < |t| && IsDigit(t[p]) then
      var a := DigitsEnd(t, p);
      if a < |t| && IsAsciiLetter(t[a]) then Some(a + 1) else None
    else None
  }

  ghost predicate NumberLetterIn(t: string, p: int, e: int) {
    p + 1 < e <= |t| && AllDigits(t, p, e - 1) && IsAsciiLetter(t[e - 1])
  }

  lemma NumberLetterSound(t: string, p: nat)
    requires p <= |t| && MatchNumberLetter(t, p).Some?
    ensures NumberLetterIn(t, p, MatchNumberLetter(t, p).value)
  {
  }

  lemma NumberLetterLongest(t: string, p: nat, e: int)
    requires NumberLetterIn(t, p, e)
    ensures MatchNumberLetter(t, p).Some? && e <= MatchNumberLetter(t, p).value
  {
    assert IsDigit(t[p]);
    DigitsUnique(t, p, e - 1);
  }

  // ---------------------------------------------------------------------
  // entero of extractor_rojo.py: \d+

  function MatchInteger(t: string, p: nat): Option<nat>
    requires p <= |t|
  {
    if p < |t| && IsDigit(t[p]) then Some(DigitsEnd(t, p)) else None
  }

  ghost predicate IntegerIn(t: string, p: int, e: int) {
    p < e && AllDigits(t, p, e)
  }

  lemma IntegerSound(t: string, p: nat)
    requires p <= |t| && MatchInteger(t, p).Some?
    ensures IntegerIn(t, p, MatchInteger(t, p).value)
  {
  }

  lemma IntegerLongest(t: string, p: nat, e: int)
    requires IntegerIn(t, p, e)
    ensures MatchInteger(t, p).Some? && e <= MatchInteger(t, p).value
  {
    DigitsLongest(t, p, e);
  }

  // ---------------------------------------------------------------------
  // decimal of extractor_imagenes.py: \d+\.\d+

  function MatchDecimal(t: string, p: nat): Option<nat>
    requires p <= |t|
  {
    if p < |t| && IsDigit(t[p]) then
      var a := DigitsEnd(t, p);
      if a + 1 < |t| && t[a] == '.' && IsDigit(t[a + 1]) then Some(DigitsEnd(t, a + 1)) else None
    else None
  }

  ghost predicate DecimalIn(t: string, p: int, e: int) {
    exists a :: p < a && AllDigits(t, p, a) && a < |t| && t[a] == '.' && a + 1 < e && AllDigits(t, a + 1, e)
  }

  lemma DecimalSound(t: string, p: nat)
    requires p <= |t| && MatchDecimal(t, p).Some?
    ensures DecimalIn(t, p, MatchDecimal(t, p).value)
  {
    var a := DigitsEnd(t, p);
    assert AllDigits(t, p, a) && AllDigits(t, a + 1, MatchDecimal(t, p).value);
  }

  lemma DecimalLongest(t: string, p: nat, e: int)
    requires DecimalIn(t, p, e)
    ensures MatchDecimal(t, p).Some? && e <= MatchDecimal(t, p).value
  {
    var a :| p < a && AllDigits(t, p, a) && a < |t| && t[a] == '.' && a + 1 < e && AllDigits(t, a + 1, e);
    assert IsDigit(t[p]);
    DigitsUnique(t, p, a);
    assert IsDigit(t[a + 1]);
    DigitsLongest(t, a + 1, e);
  }

  // ---------------------------------------------------------------------
  // entero of extractor_imagenes.py: \b\d+\b

  /** `\b` at position `i`: a word character on exactly one side. */
  predicate Boundary(t: string, i: nat)
    requires i <= |t|
  {
    (0 < i && IsWordChar(t[i - 1])) != (i < |t| && IsWordChar(t[i]))
  }

  function MatchWordInteger(t: string, p: nat): Option<nat>
    requires p <= |t|
  {
    if p < |t| && IsDigit(t[p]) && Boundary(t, p) then
      var a := DigitsEnd(t, p);
      if Boundary(t, a) then Some(a) else None
    else None
  }

  ghost predicate WordIntegerIn(t: string, p: int, e: int) {
    0 <= p < e && AllDigits(t, p, e) && Boundary(t, p) && Boundary(t, e)
  }

  lemma WordIntegerSound(t: string, p: nat)
    requires p <= |t| && MatchWordInteger(t, p).Some?
    ensures WordIntegerIn(t, p, MatchWordInteger(t, p).value)
  {
  }

  lemma WordIntegerLongest(t: string, p: nat, e: int)
    requires WordIntegerIn(t, p, e)
    ensures MatchWordInteger(t, p).Some? && e <= MatchWordInteger(t, p).value
  {
    assert IsDigit(t[p]) && IsDigit(t[e - 1]);
    assert e == |t| || !IsWordChar(t[e]);
    DigitsUnique(t, p, e);
  }

  // ---------------------------------------------------------------------
  // porcentaje: \d+\.?\d*\s*%

  function MatchPercent(t: string, p: nat): Option<nat>
    requires p <= |t|
  {
    if p < |t| && IsDigit(t[p]) then
      var w := SpacesEnd(t, NumberEnd(t, p));
      if w < |t| && t[w] == '%' then Some(w + 1) else None
    else None
  }

  ghost predicate PercentIn(t: string, p: int, e: int) {
    exists n, w :: NumberIn(t, p, n) && AllSpaces(t, n, w) && e == w + 1 <= |t| && t[w] == '%'
  }

  lemma PercentSound(t: string, p: nat)
    requires p <= |t| && MatchPercent(t, p).Some?
    ensures PercentIn(t, p, MatchPercent(t, p).value)
  {
    var n := NumberEnd(t, p);
    NumberSound(t, p);
    var w := SpacesEnd(t, n);
    assert NumberIn(t, p, n) && AllSpaces(t, n, w);
  }

  lemma PercentLongest(t: string, p: nat, e: int)
    requires PercentIn(t, p, e)
    ensures MatchPercent(t, p).Some? && e <= MatchPercent(t, p).value
  {
    var n, w :| NumberIn(t, p, n) && AllSpaces(t, n, w) && e == w + 1 <= |t| && t[w] == '%';
    UnitPrefixGreedy(t, p, p, n, w);
  }

  // ---------------------------------------------------------------------
  // moneda: [\$€£]\s*\d+\.?\d*

  function MatchCurrency(t: string, p: nat): Option<nat>
    requires p <= |t|
  {
    if p < |t| && IsCurrencySymbol(t[p]) then
      var w := SpacesEnd(t, p + 1);
      if w < |t| && IsDigit(t[w]) then Some(NumberEnd(t, w)) else None
    else None
  }

  ghost predicate CurrencyIn(t: string, p: int, e: int) {
    exists w :: 0 <= p < |t| && IsCurrencySymbol(t[p]) && AllSpaces(t, p + 1, w) && NumberIn(t, w, e)
  }

  lemma CurrencySound(t: string, p: nat)
    requires p <= |t| && MatchCurrency(t, p).Some?
    ensures CurrencyIn(t, p, MatchCurrency(t, p).value)
  {
    var w := SpacesEnd(t, p + 1);
    NumberSound(t, w);
    assert AllSpaces(t, p + 1, w) && NumberIn(t, w, MatchCurrency(t, p).value);
  }

  lemma CurrencyLongest(t: string, p: nat, e: int)
    requires CurrencyIn(t, p, e)
    ensures MatchCurrency(t, p).Some? && e <= MatchCurrency(t, p).value
  {
    var w :| 0 <= p < |t| && IsCurrencySymbol(t[p]) && AllSpaces(t, p + 1, w) && NumberIn(t, w, e);
    NumberLongest(t, w, e);
    SpacesUnique(t, p + 1, w);
  }

  // ---------------------------------------------------------------------
  // fecha: \d{1,2}[/-]\d{1,2}[/-]\d{2,4}

  function MatchDate(t: string, p: nat): Option<nat>
    requires p <= |t|
  {
    var a := DigitsEnd(t, p);
    if 1 <= a - p <= 2 && a < |t| && IsDateSep(t[a]) then
      var b := DigitsEnd(t, a + 1);
      if 1 <= b - (a + 1) <= 2 && b < |t| && IsDateSep(t[b]) then
        var c := DigitsEnd(t, b + 1);
        if c - (b + 1) >= 2 then Some(if c - (b + 1) > 4 then b + 5 else c) else None
      else None
    else None
  }

  ghost predicate DateIn(t: string, p: int, e: int) {
    exists a, b ::
      AllDigits(t, p, a) && 1 <= a - p <= 2 && a < |t| && IsDateSep(t[a]) &&
      AllDigits(t, a + 1, b) && 1 <= b - (a + 1) <= 2 && b < |t| && IsDateSep(t[b]) &&
      AllDigits(t, b + 1, e) && 2 <= e - (b + 1) <= 4
  }

  lemma DateSound(t: string, p: nat)
    requires p <= |t| && MatchDate(t, p).Some?
    ensures DateIn(t, p, MatchDate(t, p).value)
  {
    var a := DigitsEnd(t, p);
    var b := DigitsEnd(t, a + 1);
    assert AllDigits(t, p, a) && AllDigits(t, a + 1, b) && AllDigits(t, b + 1, MatchDate(t, p).value);
  }

  lemma DateLongest(t: string, p: nat, e: int)
    requires DateIn(t, p, e)
    ensures MatchDate(t, p).Some? && e <= MatchDate(t, p).value
  {
    var a, b :|
      AllDigits(t, p, a) && 1 <= a - p <= 2 && a < |t| && IsDateSep(t[a]) &&
      AllDigits(t, a + 1, b) && 1 <= b - (a + 1) <= 2 && b < |t| && IsDateSep(t[b]) &&
      AllDigits(t, b + 1, e) && 2 <= e - (b + 1) <= 4;
    DateLongestAt(t, p, a, b, e);
  }

  lemma DateLongestAt(t: string, p: nat, a: int, b: int, e: int)
    requires AllDigits(t, p, a) && 1 <= a - p <= 2 && a < |t| && IsDateSep(t[a])
    requires AllDigits(t, a + 1, b) && 1 <= b - (a + 1) <= 2 && b < |t| && IsDateSep(t[b])
    requires AllDigits(t, b + 1, e) && 2 <= e - (b + 1) <= 4
    ensures MatchDate(t, p).Some? && e <= MatchDate(t, p).value
  {
    DigitsUnique(t, p, a);
    DigitsUnique(t, a + 1, b);
    DigitsLongest(t, b + 1, e);
    DateFromSplit(t, p, a, b);
  }

  /** With the first two runs fixed, the matcher takes at most four digits of the third. */
  lemma DateFromSplit(t: string, p: nat, a: nat, b: nat)
    requires p <= a < |t| && DigitsEnd(t, p) == a && 1 <= a - p <= 2 && IsDateSep(t[a])
    requires a < b < |t| && DigitsEnd(t, a + 1) == b && 1 <= b - (a + 1) <= 2 && IsDateSep(t[b])
    requires DigitsEnd(t, b + 1) - (b + 1) >= 2
    ensures MatchDate(t, p) == Some(if DigitsEnd(t, b + 1) - (b + 1) > 4 then b + 5 else DigitsEnd(t, b + 1))
  {
  }

  // ---------------------------------------------------------------------
  // telefono: [\d\s\-\(\)]{10,}

  function MatchPhone(t: string, p: nat): Option<nat>
    requires p <= |t|
  {
    var e := PhoneEnd(t, p);
    if e - p >= 10 then Some(e) else None
  }

  ghost predicate PhoneIn(t: string, p: int, e: int) {
    p + 10 <= e && AllPhone(t, p, e)
  }

  lemma PhoneSound(t: string, p: nat)
    requires p <= |t| && MatchPhone(t, p).Some?
    ensures PhoneIn(t, p, MatchPhone(t, p).value)
  {
  }

  lemma PhoneLongest(t: string, p: nat, e: int)
    requires PhoneIn(t, p, e)
    ensures MatchPhone(t, p).Some? && e <= MatchPhone(t, p).value
  {
  }

  // ---------------------------------------------------------------------
  // All patterns together

  /** Trying a pattern at `p`: the end of the match, which is never empty. */
  function MatchAt(pat: Pattern, t: string, p: nat): (r: Option<nat>)
    requires p <= |t|
    ensures r.Some? ==> p < r.value <= |t|
  {
    match pat
    case Caudal => MatchCaudal(t, p)
    case Volumen => MatchVolumen(t, p)
    case SignedDecimal => MatchSignedDecimal(t, p)
    case NumberLetter => MatchNumberLetter(t, p)
    case Integer => MatchInteger(t, p)
    case Decimal => MatchDecimal(t, p)
    case WordInteger => MatchWordInteger(t, p)
    case Percent => MatchPercent(t, p)
    case Currency => MatchCurrency(t, p)
    case Date => MatchDate(t, p)
    case Phone => MatchPhone(t, p)
  }

  ghost predicate Accepts(pat: Pattern, t: string, p: int, e: int) {
    match pat
    case Caudal => CaudalIn(t, p, e)
    case Volumen => VolumenIn(t, p, e)
    case SignedDecimal => SignedDecimalIn(t, p, e)
    case NumberLetter => NumberLetterIn(t, p, e)
    case Integer => IntegerIn(t, p, e)
    case Decimal => DecimalIn(t, p, e)
    case WordInteger => WordIntegerIn(t, p, e)
    case Percent => PercentIn(t, p, e)
    case Currency => CurrencyIn(t, p, e)
    case Date => DateIn(t, p, e)
    case Phone => PhoneIn(t, p, e)
  }

  /** Each matcher returns the longest string of its pattern's language that starts at `p`. */
  lemma MatchIsLongest(pat: Pattern, t: string, p: nat)
    requires p <= |t|
    ensures MatchAt(pat, t, p).Some? ==> Accepts(pat, t, p, MatchAt(pat, t, p).value)
    ensures forall e :: Accepts(pat, t, p, e) ==> MatchAt(pat, t, p).Some? && e <= MatchAt(pat, t, p).value
  {
    if MatchAt(pat, t, p).Some? {
      match pat
      case Caudal => CaudalSound(t, p);
      case Volumen => VolumenSound(t, p);
      case SignedDecimal => SignedDecimalSound(t, p);
      case NumberLetter => NumberLetterSound(t, p);
      case Integer => IntegerSound(t, p);
      case Decimal => DecimalSound(t, p);
      case WordInteger => WordIntegerSound(t, p);
      case Percent => PercentSound(t, p);
      case Currency => CurrencySound(t, p);
      case Date => DateSound(t, p);
      case Phone => PhoneSound(t, p);
    }
    forall e | Accepts(pat, t, p, e) ensures MatchAt(pat, t, p).Some? && e <= MatchAt(pat, t, p).value {
      match pat
      case Caudal => CaudalLongest(t, p, e);
      case Volumen => VolumenLongest(t, p, e);
      case SignedDecimal => SignedDecimalLongest(t, p, e);
      case NumberLetter => NumberLetterLongest(t, p, e);
      case Integer => IntegerLongest(t, p, e);
      case Decimal => DecimalLongest(t, p, e);
      case WordInteger => WordIntegerLongest(t, p, e);
      case Percent => PercentLongest(t, p, e);
      case Currency => CurrencyLongest(t, p, e);
      case Date => DateLongest(t, p, e);
      case Phone => PhoneLongest(t, p, e);
    }
  }
}
