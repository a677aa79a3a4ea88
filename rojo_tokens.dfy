/**
 * `extraer_numeros` of extractor_rojo.py: five patterns tried one after the
 * other over the whole text, every match recorded as a token whose value is
 * the stripped match, then repeated `(valor, posicion)` keys removed.
 */
module RojoTokens {
  import opened Wrappers
  import opened Text
  import P = Patterns
  import opened Scanning

  /** The `tipo` of a token: 'caudal', 'volumen', 'decimal', 'numero_letra', 'entero'. */
  datatype Kind = Caudal | Volumen | Decimal | NumeroLetra | Entero

  /** A token `{tipo, valor, posicion}`. */
  datatype Token = Token(kind: Kind, value: string, pos: nat)

  /** The order of the `patrones` list. */
  const Order: seq<Kind> := [Caudal, Volumen, Decimal, NumeroLetra, Entero]

  /** The position of a kind in `Order`. */
  function Rank(k: Kind): (n: nat)
    ensures n < |Order| && Order[n] == k
  {
    match k
    case Caudal => 0
    case Volumen => 1
    case Decimal => 2
    case NumeroLetra => 3
    case Entero => 4
  }

  /** The regular expression of each kind. */
  function PatternOf(k: Kind): P.Pattern {
    match k
    case Caudal => P.Caudal
    case Volumen => P.Volumen
    case Decimal => P.SignedDecimal
    case NumeroLetra => P.NumberLetter
    case Entero => P.Integer
  }

  /** The deduplication key `(valor, posicion)`. */
  function Key(tok: Token): (string, nat) { (tok.value, tok.pos) }

  ghost predicate InText(spans: seq<Span>, t: string) {
    forall i :: 0 <= i < |spans| ==> spans[i].start <= spans[i].end <= |t|
  }

  /** The tokens the inner loop appends for a list of matches of one pattern. */
  function SpanTokens(k: Kind, t: string, spans: seq<Span>): (toks: seq<Token>)
    requires InText(spans, t)
    ensures |toks| == |spans|
  {
    if spans == [] then []
    else
      var sp := spans[|spans| - 1];
      SpanTokens(k, t, spans[..|spans| - 1]) + [Token(k, Strip(t[sp.start..sp.end]), sp.start)]
  }

  /** The token made of each match. */
  lemma {:induction false} SpanTokensAt(k: Kind, t: string, spans: seq<Span>)
    requires InText(spans, t)
    ensures forall i :: 0 <= i < |spans| ==>
      SpanTokens(k, t, spans)[i] == Token(k, Strip(t[spans[i].start..spans[i].end]), spans[i].start)
  {
    if spans != [] {
      var init := spans[..|spans| - 1];
      SpanTokensAt(k, t, init);
      forall i | 0 <= i < |init| ensures init[i] == spans[i] { }
    }
  }

  /** The matches of pattern `k`, as tokens. */
  function KindTokens(k: Kind, t: string): seq<Token> {
    SpanTokens(k, t, FindAll(PatternOf(k), t))
  }

  /** The list `numeros` once the outer loop has gone through the kinds `ks`. */
  function RawFrom(t: string, ks: seq<Kind>): seq<Token> {
    if ks == [] then [] else RawFrom(t, ks[..|ks| - 1]) + KindTokens(ks[|ks| - 1], t)
  }

  /** `numeros` before the duplicates are removed. */
  function Raw(t: string): seq<Token> { RawFrom(t, Order) }

  /** What `extraer_numeros` returns. */
  function Extract(t: string): seq<Token> { Dedup(Raw(t), Key) }

  /** The token is a match of its kind's pattern at its position, and its value is the matched text. */
  ghost predicate IsMatch(t: string, tok: Token) {
    tok.pos + |tok.value| <= |t| && tok.value == t[tok.pos..tok.pos + |tok.value|] &&
    P.MatchAt(PatternOf(tok.kind), t, tok.pos) == Some(tok.pos + |tok.value|)
  }

  /** Pattern order first, then position. */
  predicate Before(a: Token, b: Token) {
    Rank(a.kind) < Rank(b.kind) || (a.kind == b.kind && a.pos < b.pos)
  }

  /** None of the five patterns begins or ends with whitespace, so the `.strip()` keeps the match as it is. */
  lemma MatchTrimmed(k: Kind, t: string, p: nat)
    requires p <= |t| && P.MatchAt(PatternOf(k), t, p).Some?
    ensures !IsSpace(t[p]) && !IsSpace(t[P.MatchAt(PatternOf(k), t, p).value - 1])
    ensures Strip(t[p..P.MatchAt(PatternOf(k), t, p).value]) == t[p..P.MatchAt(PatternOf(k), t, p).value]
  {
    var e := P.MatchAt(PatternOf(k), t, p).value;
    assert t[p..e][0] == t[p] && t[p..e][e - p - 1] == t[e - 1];
    StripTrimmed(t[p..e]);
  }

  /** Each token of one pattern is a match of that pattern. */
  lemma KindTokensMatch(k: Kind, t: string)
    ensures forall i :: 0 <= i < |KindTokens(k, t)| ==>
      KindTokens(k, t)[i].kind == k && IsMatch(t, KindTokens(k, t)[i])
  {
    var spans := FindAll(PatternOf(k), t);
    SpanTokensAt(k, t, spans);
    FindAllMatches(PatternOf(k), t);
    forall i | 0 <= i < |spans| ensures IsMatch(t, KindTokens(k, t)[i]) {
      SpanIsMatch(k, t, spans[i].start, spans[i].end);
    }
  }

  lemma SpanIsMatch(k: Kind, t: string, p: nat, e: nat)
    requires p <= e <= |t| && P.MatchAt(PatternOf(k), t, p) == Some(e)
    ensures IsMatch(t, Token(k, Strip(t[p..e]), p))
  {
    MatchTrimmed(k, t, p);
  }

  /** The tokens of one pattern come in increasing position. */
  lemma KindTokensOrdered(k: Kind, t: string)
    ensures forall i, j :: 0 <= i < j < |KindTokens(k, t)| ==> KindTokens(k, t)[i].pos < KindTokens(k, t)[j].pos
  {
    SpanTokensAt(k, t, FindAll(PatternOf(k), t));
  }

  /** One more pass of the outer loop appends the tokens of one more pattern. */
  lemma RawFromSnoc(t: string, ks: seq<Kind>, k: Kind)
    ensures RawFrom(t, ks + [k]) == RawFrom(t, ks) + KindTokens(k, t)
  {
    assert (ks + [k])[..|ks|] == ks;
  }

  /** Every token collected over the kinds `ks` is a match of one of them. */
  lemma {:induction false} RawFromMatch(t: string, ks: seq<Kind>)
    ensures forall i :: 0 <= i < |RawFrom(t, ks)| ==> RawFrom(t, ks)[i].kind in ks && IsMatch(t, RawFrom(t, ks)[i])
  {
    if ks != [] {
      var init := ks[..|ks| - 1];
      RawFromMatch(t, init);
      KindTokensMatch(ks[|ks| - 1], t);
      AppendMatches(t, ks, RawFrom(t, init), KindTokens(ks[|ks| - 1], t));
    }
  }

  lemma AppendMatches(t: string, ks: seq<Kind>, prev: seq<Token>, cur: seq<Token>)
    requires ks != []
    requires forall i :: 0 <= i < |prev| ==> prev[i].kind in ks[..|ks| - 1] && IsMatch(t, prev[i])
    requires forall i :: 0 <= i < |cur| ==> cur[i].kind == ks[|ks| - 1] && IsMatch(t, cur[i])
    ensures forall i :: 0 <= i < |prev + cur| ==> (prev + cur)[i].kind in ks && IsMatch(t, (prev + cur)[i])
  {
    assert ks == ks[..|ks| - 1] + [ks[|ks| - 1]];
  }

  /** Kinds listed in increasing rank. */
  predicate Ascending(ks: seq<Kind>) {
    forall i, j :: 0 <= i < j < |ks| ==> Rank(ks[i]) < Rank(ks[j])
  }

  /** The tokens collected over kinds of increasing rank are in rank order, then position order. */
  lemma {:induction false} RawFromOrdered(t: string, ks: seq<Kind>)
    requires Ascending(ks)
    ensures forall i, j :: 0 <= i < j < |RawFrom(t, ks)| ==> Before(RawFrom(t, ks)[i], RawFrom(t, ks)[j])
  {
    if ks != [] {
      var init := ks[..|ks| - 1];
      var k := ks[|ks| - 1];
      RawFromOrdered(t, init);
      RawFromMatch(t, init);
      KindTokensMatch(k, t);
      KindTokensOrdered(k, t);
      var prev := RawFrom(t, init);
      forall i | 0 <= i < |prev| ensures Rank(prev[i].kind) < Rank(k) {
        var m :| 0 <= m < |init| && init[m] == prev[i].kind;
        assert ks[m] == init[m];
      }
      AppendOrdered(prev, KindTokens(k, t), k);
    }
  }

  lemma AppendOrdered(prev: seq<Token>, cur: seq<Token>, k: Kind)
    requires forall i, j :: 0 <= i < j < |prev| ==> Before(prev[i], prev[j])
    requires forall i :: 0 <= i < |prev| ==> Rank(prev[i].kind) < Rank(k)
    requires forall i :: 0 <= i < |cur| ==> cur[i].kind == k
    requires forall i, j :: 0 <= i < j < |cur| ==> cur[i].pos < cur[j].pos
    ensures forall i, j :: 0 <= i < j < |prev + cur| ==> Before((prev + cur)[i], (prev + cur)[j])
  {
  }

  /** The tokens of every listed kind are among the tokens collected over the list. */
  lemma {:induction false} RawFromContains(t: string, ks: seq<Kind>, k: Kind)
    requires k in ks
    ensures forall x :: x in KindTokens(k, t) ==> x in RawFrom(t, ks)
  {
    var init := ks[..|ks| - 1];
    if k != ks[|ks| - 1] {
      var m :| 0 <= m < |ks| && ks[m] == k;
      assert init[m] == k;
      RawFromContains(t, init, k);
    }
  }

  /** Every match the scan reports becomes a raw token. */
  lemma SpanInRaw(t: string, k: Kind, i: nat)
    requires i < |FindAll(PatternOf(k), t)|
    ensures var sp := FindAll(PatternOf(k), t)[i];
      Token(k, Strip(t[sp.start..sp.end]), sp.start) in Raw(t)
  {
    SpanTokensAt(k, t, FindAll(PatternOf(k), t));
    assert Order[Rank(k)] == k;
    RawFromContains(t, Order, k);
  }

  /**
   * A raw token hides every token of a later pattern with the same value at
   * the same position: that one is a repeat and is dropped.
   */
  lemma Shadowed(t: string, a: Token, b: Token)
    requires a in Raw(t) && Key(a) == Key(b) && Rank(a.kind) < Rank(b.kind)
    ensures b !in Extract(t)
  {
    RawOrdered(t);
    ShadowedIn(Raw(t), a, b);
  }

  /** In any list ordered by `Before`, a token hides the later-pattern tokens with its key. */
  lemma ShadowedIn(raw: seq<Token>, a: Token, b: Token)
    requires forall i, j :: 0 <= i < j < |raw| ==> Before(raw[i], raw[j])
    requires a in raw && Key(a) == Key(b) && Rank(a.kind) < Rank(b.kind)
    ensures b !in Dedup(raw, Key)
  {
    var j :| 0 <= j < |raw| && raw[j] == a;
    forall x | x in Dedup(raw, Key) && Key(x) == Key(a) ensures Rank(x.kind) <= Rank(a.kind) {
      DedupFirst(raw, Key, x);
      var i :| 0 <= i < |raw| && raw[i] == x && IsFirst(raw, Key, i);
      FirstNotAfter(raw, i, j);
    }
  }

  /** The first token with a key comes no later in pattern order than any other token with that key. */
  lemma FirstNotAfter(raw: seq<Token>, i: nat, j: nat)
    requires forall p, q :: 0 <= p < q < |raw| ==> Before(raw[p], raw[q])
    requires i < |raw| && j < |raw| && IsFirst(raw, Key, i) && Key(raw[i]) == Key(raw[j])
    ensures Rank(raw[i].kind) <= Rank(raw[j].kind)
  {
    assert !(j < i);
    if i < j {
      assert Before(raw[i], raw[j]);
    }
  }

  /**
   * When two patterns report the same span, the later pattern's token is a
   * repeat of the earlier one's and is dropped.
   */
  lemma SpanShadowed(t: string, k1: Kind, k2: Kind, i: nat, j: nat)
    requires Rank(k1) < Rank(k2)
    requires i < |FindAll(PatternOf(k1), t)| && j < |FindAll(PatternOf(k2), t)|
    requires FindAll(PatternOf(k1), t)[i] == FindAll(PatternOf(k2), t)[j]
    ensures var sp := FindAll(PatternOf(k2), t)[j];
      Token(k2, t[sp.start..sp.end], sp.start) !in Extract(t)
  {
    var sp := FindAll(PatternOf(k2), t)[j];
    FindAllMatches(PatternOf(k2), t);
    MatchTrimmed(k2, t, sp.start);
    SpanInRaw(t, k1, i);
    Shadowed(t, Token(k1, Strip(t[sp.start..sp.end]), sp.start), Token(k2, t[sp.start..sp.end], sp.start));
  }

  /**
   * On "12" the decimal pattern and the integer pattern report the same
   * span, so by `SpanShadowed` only the 'decimal' token is returned. The
   * decimal pattern needs two digits: it does not match at position 1.
   */
  lemma ScanTwelve()
    ensures FindAll(P.SignedDecimal, "12") == [Span(0, 2)]
    ensures FindAll(P.Integer, "12") == [Span(0, 2)]
    ensures P.MatchAt(P.SignedDecimal, "12", 1) == None
  {
    MatchTableFacts(P.SignedDecimal, "12");
    var ms := MatchTable(P.SignedDecimal, "12");
    assert ms[0] == Some(2);
    assert ms[1] == None;
    assert ms[2] == None;
    MatchTableFacts(P.Integer, "12");
    var ns := MatchTable(P.Integer, "12");
    assert ns[0] == Some(2);
    assert ns[1] == Some(2);
    assert ns[2] == None;
  }

  /** Every returned token is a match of its kind's pattern, with the matched text as its value. */
  lemma ExtractMatches(t: string)
    ensures forall i :: 0 <= i < |Extract(t)| ==> IsMatch(t, Extract(t)[i])
  {
    var raw := Raw(t);
    var d := Extract(t);
    RawFromMatch(t, Order);
    DedupMembers(raw, Key);
    forall i | 0 <= i < |d| ensures IsMatch(t, d[i]) {
      assert d[i] in raw;
      var m :| 0 <= m < |raw| && raw[m] == d[i];
    }
  }

  /**
   * The returned tokens are in the order of the `patrones` list (caudal,
   * volumen, decimal, numero_letra, entero), and by position within a pattern.
   */
  lemma ExtractOrdered(t: string)
    ensures forall i, j :: 0 <= i < j < |Extract(t)| ==> Before(Extract(t)[i], Extract(t)[j])
  {
    RawOrdered(t);
    DedupKeepsOrder(Raw(t), Key, Before);
  }

  /** The raw list is in pattern order, then position order. */
  lemma RawOrdered(t: string)
    ensures forall i, j :: 0 <= i < j < |Raw(t)| ==> Before(Raw(t)[i], Raw(t)[j])
  {
    OrderAscending();
    RawFromOrdered(t, Order);
  }

  lemma OrderAscending()
    ensures Ascending(Order)
  {
    forall i | 0 <= i < |Order| ensures Rank(Order[i]) == i { }
  }

  /** The inner loop of `extraer_numeros`: one token per match of pattern `k`, with the stripped match as value. */
  method TokenizeMatches(k: Kind, t: string, spans: seq<Span>) returns (found: seq<Token>)
    requires InText(spans, t)
    ensures found == SpanTokens(k, t, spans)
  {
    found := [];
    for m := 0 to |spans|
      invariant found == SpanTokens(k, t, spans[..m])
    {
      assert spans[..m + 1][..m] == spans[..m];
      var sp := spans[m];
      found := found + [Token(k, Strip(t[sp.start..sp.end]), sp.start)];
    }
    assert spans[..|spans|] == spans;
  }

  /** The outer loop of `extraer_numeros`: the tokens of every pattern, in the order of `patrones`. */
  method CollectTokens(t: string) returns (raw: seq<Token>)
    ensures raw == Raw(t)
  {
    raw := [];
    for n := 0 to |Order|
      invariant raw == RawFrom(t, Order[..n])
    {
      var k := Order[n];
      var spans := FindAll(PatternOf(k), t);
      SpansInText(k, t);
      var found := TokenizeMatches(k, t, spans);
      RawFromStep(t, Order, n);
      raw := raw + found;
    }
    RawFromAll(t);
  }

  lemma SpansInText(k: Kind, t: string)
    ensures InText(FindAll(PatternOf(k), t), t)
  {
  }

  /** One pass of the outer loop over `Order`. */
  lemma RawFromStep(t: string, ks: seq<Kind>, n: nat)
    requires n < |ks|
    ensures RawFrom(t, ks[..n + 1]) == RawFrom(t, ks[..n]) + KindTokens(ks[n], t)
  {
    assert ks[..n + 1][..n] == ks[..n];
  }

  lemma RawFromAll(t: string)
    ensures RawFrom(t, Order[..|Order|]) == Raw(t)
  {
    assert Order[..|Order|] == Order;
  }

  /**
   * `extraer_numeros`: the tokens of all patterns, then the loop over
   * `vistos` that drops every token whose key was met before.
   */
  method ExtractNumbers(t: string) returns (numbers: seq<Token>)
    ensures numbers == Extract(t)
    ensures forall i, j :: 0 <= i < j < |numbers| ==> Key(numbers[i]) != Key(numbers[j])
    ensures KeySet(numbers, Key) == KeySet(Raw(t), Key)
    ensures forall i :: 0 <= i < |numbers| ==> IsMatch(t, numbers[i])
    ensures forall i, j :: 0 <= i < j < |numbers| ==> Before(numbers[i], numbers[j])
  {
    var raw := CollectTokens(t);
    numbers := RemoveRepeats(raw, Key);
    ExtractMatches(t);
    ExtractOrdered(t);
  }
}
