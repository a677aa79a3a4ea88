/**
 * The rest of extractor_imagenes.py: `extraer_texto_completo` with the OCR
 * engine as an input, the line structure of `extraer_texto_estructurado`,
 * the per-kind counts and the report of `procesar_imagen`.
 */
module ImagenesPipeline {
  import opened Wrappers
  import opened Text
  import opened ImagenesTokens

  // ---------------------------------------------------------------------
  // The full text

  /**
   * `extraer_texto_completo`: `ocr` is what preprocessing and OCR produce,
   * `None` when either raises. The text is stripped, and a failure gives
   * the empty text instead of an exception.
   */
  function FullText(ocr: Option<string>): (t: string)
    ensures ocr.None? ==> t == ""
    ensures t == [] || (!IsSpace(t[0]) && !IsSpace(t[|t| - 1]))
    ensures ocr.Some? ==> 0 <= StripOffset(ocr.value) && StripOffset(ocr.value) + |t| <= |ocr.value|
    ensures ocr.Some? ==> t == ocr.value[StripOffset(ocr.value)..StripOffset(ocr.value) + |t|]
    ensures ocr.Some? ==> forall k :: 0 <= k < |ocr.value| && !(StripOffset(ocr.value) <= k < StripOffset(ocr.value) + |t|) ==>
      IsSpace(ocr.value[k])
  {
    match ocr
    case None => ""
    case Some(s) => StripFacts(s); Strip(s)
  }

  /** The full text is already stripped: stripping it again changes nothing. */
  lemma FullTextStripped(ocr: Option<string>)
    ensures Strip(FullText(ocr)) == FullText(ocr)
  {
    StripTrimmed(FullText(ocr));
  }

  // ---------------------------------------------------------------------
  // Lines

  /** The list comprehension over `parts`: each piece stripped, blank ones dropped. */
  function NonBlank(parts: seq<string>): seq<string> {
    if parts == [] then []
    else
      var s := Strip(parts[|parts| - 1]);
      NonBlank(parts[..|parts| - 1]) + (if s == "" then [] else [s])
  }

  /** The positions of `s` whose element satisfies `p`, in increasing order. */
  function Where<T>(s: seq<T>, p: T -> bool): (f: seq<nat>)
    ensures forall i :: 0 <= i < |f| ==> f[i] < |s| && p(s[f[i]])
    ensures forall i, j :: 0 <= i < j < |f| ==> f[i] < f[j]
    ensures forall k :: 0 <= k < |s| && p(s[k]) ==> k in f
  {
    if s == [] then []
    else
      var n := |s| - 1;
      var prev := Where(s[..n], p);
      assert forall k :: 0 <= k < n ==> s[..n][k] == s[k];
      prev + (if p(s[n]) then [n] else [])
  }

  /** `Where` grows by the last index when the last element qualifies. */
  lemma WhereStep<T>(s: seq<T>, p: T -> bool)
    requires s != []
    ensures Where(s, p) == Where(s[..|s| - 1], p) + (if p(s[|s| - 1]) then [|s| - 1] else [])
  {
  }

  /** A piece the comprehension keeps. */
  predicate NonBlankPiece(piece: string) { Strip(piece) != "" }

  /** `lineas`: the stripped, non-empty lines of the text, in order. */
  function Lines(t: string): seq<string> { NonBlank(Split(t, '\n')) }

  /**
   * The comprehension keeps, in order, the stripped form of each non-blank
   * piece: every result is non-empty and stripped, it comes from a piece,
   * and every non-blank piece contributes.
   */
  lemma {:induction false} NonBlankFacts(parts: seq<string>)
    ensures |NonBlank(parts)| <= |parts|
    ensures forall i :: 0 <= i < |NonBlank(parts)| ==>
      NonBlank(parts)[i] != "" && Strip(NonBlank(parts)[i]) == NonBlank(parts)[i]
    ensures forall s :: s in NonBlank(parts) <==> s != "" && exists k :: 0 <= k < |parts| && Strip(parts[k]) == s
  {
    if parts != [] {
      var init := parts[..|parts| - 1];
      var s := Strip(parts[|parts| - 1]);
      NonBlankFacts(init);
      StripIdempotent(parts[|parts| - 1]);
      assert parts == init + [parts[|parts| - 1]];
      forall x ensures x in NonBlank(parts) <==> x != "" && exists k :: 0 <= k < |parts| && Strip(parts[k]) == x {
        NonBlankMember(init, parts[|parts| - 1], x);
      }
    }
  }

  /** One step of the membership part of `NonBlankFacts`: a last piece joins the earlier ones. */
  lemma NonBlankMember(init: seq<string>, last: string, x: string)
    requires x in NonBlank(init) <==> x != "" && exists k :: 0 <= k < |init| && Strip(init[k]) == x
    ensures x in NonBlank(init + [last]) <==> x != "" && exists k :: 0 <= k < |init| + 1 && Strip((init + [last])[k]) == x
  {
    var parts := init + [last];
    assert parts[..|parts| - 1] == init;
    StripIdempotent(last);
    if x != "" && (exists k :: 0 <= k < |parts| && Strip(parts[k]) == x) {
      var k :| 0 <= k < |parts| && Strip(parts[k]) == x;
      if k < |init| { assert Strip(init[k]) == x; }
    }
    if x in NonBlank(init) {
      var k :| 0 <= k < |init| && Strip(init[k]) == x;
      assert Strip(parts[k]) == x;
    }
  }

  /** The kept pieces, stripped, each once, in the order of the pieces. */
  lemma {:induction false} NonBlankInOrder(parts: seq<string>)
    ensures |NonBlank(parts)| == |Where(parts, NonBlankPiece)|
    ensures forall i :: 0 <= i < |NonBlank(parts)| ==> NonBlank(parts)[i] == Strip(parts[Where(parts, NonBlankPiece)[i]])
  {
    if parts != [] {
      var init := parts[..|parts| - 1];
      NonBlankInOrder(init);
      WhereStep(parts, NonBlankPiece);
    }
  }

  /** A piece of a split holds no separator, and so neither does its stripped form. */
  lemma StripKeepsOut(p: string, c: char)
    requires forall j :: 0 <= j < |p| ==> p[j] != c
    ensures forall j :: 0 <= j < |Strip(p)| ==> Strip(p)[j] != c
  {
    StripFacts(p);
    forall j | 0 <= j < |Strip(p)| ensures Strip(p)[j] != c {
      assert Strip(p)[j] == p[StripOffset(p) + j];
    }
  }

  /**
   * The lines of a text: at most one per newline plus one, each non-empty,
   * stripped and free of newlines, and exactly the stripped non-blank
   * pieces of `texto.split('\n')`.
   */
  lemma LinesFacts(t: string)
    ensures |Lines(t)| <= Count(t, '\n') + 1
    ensures |Lines(t)| == |Where(Split(t, '\n'), NonBlankPiece)|
    ensures forall i :: 0 <= i < |Lines(t)| ==>
      Lines(t)[i] == Strip(Split(t, '\n')[Where(Split(t, '\n'), NonBlankPiece)[i]])
    ensures forall i :: 0 <= i < |Lines(t)| ==> Lines(t)[i] != "" && Strip(Lines(t)[i]) == Lines(t)[i]
    ensures forall i, j :: 0 <= i < |Lines(t)| && 0 <= j < |Lines(t)[i]| ==> Lines(t)[i][j] != '\n'
    ensures forall s :: s in Lines(t) <==>
      s != "" && exists k :: 0 <= k < |Split(t, '\n')| && Strip(Split(t, '\n')[k]) == s
  {
    var parts := Split(t, '\n');
    NonBlankFacts(parts);
    NonBlankInOrder(parts);
    SplitPieces(t, '\n');
    forall i | 0 <= i < |Lines(t)| ensures forall j :: 0 <= j < |Lines(t)[i]| ==> Lines(t)[i][j] != '\n' {
      assert Lines(t)[i] in NonBlank(parts);
      var k :| 0 <= k < |parts| && Strip(parts[k]) == Lines(t)[i];
      StripKeepsOut(parts[k], '\n');
    }
  }

  // ---------------------------------------------------------------------
  // Titles and paragraphs

  /** A short line in upper case is taken for a title. */
  predicate IsTitle(line: string) { |line| < 50 && IsUpper(line) }

  /** `re.search(r'\d+', linea)`: the line holds a digit. */
  predicate HasDigit(line: string) { exists i :: 0 <= i < |line| && IsDigit(line[i]) }

  /** The lines taken for titles, in order. */
  function Titles(ls: seq<string>): seq<string> {
    if ls == [] then []
    else Titles(ls[..|ls| - 1]) + (if IsTitle(ls[|ls| - 1]) then [ls[|ls| - 1]] else [])
  }

  /** The other lines, in order, whether or not they hold digits. */
  function Paragraphs(ls: seq<string>): seq<string> {
    if ls == [] then []
    else Paragraphs(ls[..|ls| - 1]) + (if IsTitle(ls[|ls| - 1]) then [] else [ls[|ls| - 1]])
  }

  /** A line that is not taken for a title. */
  predicate NotTitle(line: string) { !IsTitle(line) }

  /** The titles are the title lines, each once, in the order of the lines. */
  lemma {:induction false} TitlesInOrder(ls: seq<string>)
    ensures |Titles(ls)| == |Where(ls, IsTitle)|
    ensures forall i :: 0 <= i < |Titles(ls)| ==> Titles(ls)[i] == ls[Where(ls, IsTitle)[i]]
  {
    if ls != [] {
      var init := ls[..|ls| - 1];
      TitlesInOrder(init);
      WhereStep(ls, IsTitle);
    }
  }

  /** The paragraphs are the other lines, each once, in the order of the lines. */
  lemma {:induction false} ParagraphsInOrder(ls: seq<string>)
    ensures |Paragraphs(ls)| == |Where(ls, NotTitle)|
    ensures forall i :: 0 <= i < |Paragraphs(ls)| ==> Paragraphs(ls)[i] == ls[Where(ls, NotTitle)[i]]
  {
    if ls != [] {
      var init := ls[..|ls| - 1];
      ParagraphsInOrder(init);
      WhereStep(ls, NotTitle);
    }
  }

  /** Together the two lists hold every line once. */
  lemma {:induction false} TitlesParagraphs(ls: seq<string>)
    ensures |Titles(ls)| + |Paragraphs(ls)| == |ls|
    ensures multiset(Titles(ls)) + multiset(Paragraphs(ls)) == multiset(ls)
  {
    if ls != [] {
      var init := ls[..|ls| - 1];
      TitlesParagraphs(init);
      TitlesParagraphsStep(ls);
      SplitStep(Titles(init), Paragraphs(init), ls, Titles(ls), Paragraphs(ls));
    }
  }

  /** The last line goes to exactly one of the two lists. */
  lemma TitlesParagraphsStep(ls: seq<string>)
    requires ls != []
    ensures var init, last := ls[..|ls| - 1], ls[|ls| - 1];
      (Titles(ls) == Titles(init) + [last] && Paragraphs(ls) == Paragraphs(init)) ||
      (Titles(ls) == Titles(init) && Paragraphs(ls) == Paragraphs(init) + [last])
  {
  }

  /** Sending the last element to one of two lists that split the others splits the whole list. */
  lemma SplitStep<T>(ts0: seq<T>, ps0: seq<T>, whole: seq<T>, ts: seq<T>, ps: seq<T>)
    requires whole != []
    requires |ts0| + |ps0| == |whole| - 1 && multiset(ts0) + multiset(ps0) == multiset(whole[..|whole| - 1])
    requires var last := whole[|whole| - 1];
      (ts == ts0 + [last] && ps == ps0) || (ts == ts0 && ps == ps0 + [last])
    ensures |ts| + |ps| == |whole|
    ensures multiset(ts) + multiset(ps) == multiset(whole)
  {
    var last := whole[|whole| - 1];
    assert whole == whole[..|whole| - 1] + [last];
    assert multiset(whole) == multiset(whole[..|whole| - 1]) + multiset{last};
    if ts == ts0 + [last] && ps == ps0 {
      assert multiset(ts) == multiset(ts0) + multiset{last};
    } else {
      assert multiset(ps) == multiset(ps0) + multiset{last};
    }
  }

  /** Every title satisfies the title rule. */
  lemma {:induction false} TitlesAreTitles(ls: seq<string>)
    ensures forall i :: 0 <= i < |Titles(ls)| ==> IsTitle(Titles(ls)[i])
  {
    if ls != [] {
      TitlesAreTitles(ls[..|ls| - 1]);
    }
  }

  /** No paragraph satisfies the title rule. */
  lemma {:induction false} ParagraphsAreNotTitles(ls: seq<string>)
    ensures forall i :: 0 <= i < |Paragraphs(ls)| ==> !IsTitle(Paragraphs(ls)[i])
  {
    if ls != [] {
      ParagraphsAreNotTitles(ls[..|ls| - 1]);
    }
  }

  /**
   * `isupper()` needs a cased character and no lower-case one: digits do not
   * stop a line from being a title, but a line of digits alone is none.
   */
  lemma TitleExamples()
    ensures IsTitle("LECTURA 123")
    ensures !IsTitle("123")
    ensures !IsTitle("Lectura")
  {
    assert IsAsciiUpper("LECTURA 123"[0]);
    assert IsAsciiLower("Lectura"[1]);
  }

  /** The result of `extraer_texto_estructurado`. */
  datatype TextStructure = TextStructure(titles: seq<string>, paragraphs: seq<string>, totalLines: nat)

  /** The loop of `extraer_texto_estructurado` over the lines. */
  method Classify(ls: seq<string>) returns (titles: seq<string>, paragraphs: seq<string>)
    ensures titles == Titles(ls) && paragraphs == Paragraphs(ls)
  {
    titles, paragraphs := [], [];
    for i := 0 to |ls|
      invariant titles == Titles(ls[..i]) && paragraphs == Paragraphs(ls[..i])
    {
      assert ls[..i + 1][..i] == ls[..i];
      var line := ls[i];
      if |line| < 50 && IsUpper(line) {
        titles := titles + [line];
      } else if HasDigit(line) {
        paragraphs := paragraphs + [line];
      } else {
        paragraphs := paragraphs + [line];
      }
    }
    assert ls[..|ls|] == ls;
  }

  /**
   * `extraer_texto_estructurado`: the titles and paragraphs of the text's
   * lines, which together account for every line.
   */
  method StructureText(t: string) returns (st: TextStructure)
    ensures st == TextStructure(Titles(Lines(t)), Paragraphs(Lines(t)), |Lines(t)|)
    ensures st.totalLines == |st.titles| + |st.paragraphs|
  {
    var lines := Lines(t);
    var titles, paragraphs := Classify(lines);
    TitlesParagraphs(lines);
    st := TextStructure(titles, paragraphs, |lines|);
  }

  // ---------------------------------------------------------------------
  // Counts per kind

  /** The number of tokens of kind `k`. */
  function CountOf(ns: seq<Token>, k: Kind): nat {
    if ns == [] then 0
    else CountOf(ns[..|ns| - 1], k) + (if ns[|ns| - 1].kind == k then 1 else 0)
  }

  /** `por_tipo.get(tipo, 0)`. */
  function Get(m: map<Kind, nat>, k: Kind): nat { if k in m then m[k] else 0 }

  /** `por_tipo` once the counting loop has gone through `ns`. */
  function ByKind(ns: seq<Token>): map<Kind, nat> {
    if ns == [] then map[]
    else
      var m := ByKind(ns[..|ns| - 1]);
      var k := ns[|ns| - 1].kind;
      m[k := Get(m, k) + 1]
  }

  /**
   * `por_tipo` has a key exactly for the kinds that occur, and each key
   * holds the number of tokens of that kind.
   */
  lemma {:induction false} ByKindFacts(ns: seq<Token>)
    ensures forall k :: k in ByKind(ns) <==> exists i :: 0 <= i < |ns| && ns[i].kind == k
    ensures forall k :: Get(ByKind(ns), k) == CountOf(ns, k)
  {
    if ns != [] {
      var init := ns[..|ns| - 1];
      ByKindFacts(init);
      forall k ensures k in ByKind(ns) <==> exists i :: 0 <= i < |ns| && ns[i].kind == k {
        if exists i :: 0 <= i < |init| && init[i].kind == k {
          var i :| 0 <= i < |init| && init[i].kind == k;
          assert ns[i].kind == k;
        }
        if exists i :: 0 <= i < |ns| && ns[i].kind == k {
          var i :| 0 <= i < |ns| && ns[i].kind == k;
          if i < |init| { assert init[i].kind == k; }
        }
      }
    }
  }

  /** The counts of the six kinds add up to the number of tokens, `total`. */
  lemma {:induction false} CountsSum(ns: seq<Token>)
    ensures CountOf(ns, Decimal) + CountOf(ns, Entero) + CountOf(ns, Porcentaje) +
      CountOf(ns, Moneda) + CountOf(ns, Fecha) + CountOf(ns, Telefono) == |ns|
  {
    if ns != [] {
      CountsSum(ns[..|ns| - 1]);
    }
  }

  /** The counting loop of `procesar_imagen`. */
  method CountByKind(ns: seq<Token>) returns (byKind: map<Kind, nat>)
    ensures byKind == ByKind(ns)
    ensures forall k :: k in byKind <==> exists i :: 0 <= i < |ns| && ns[i].kind == k
    ensures forall k :: k in byKind ==> byKind[k] == CountOf(ns, k)
  {
    byKind := map[];
    for i := 0 to |ns|
      invariant byKind == ByKind(ns[..i])
    {
      assert ns[..i + 1][..i] == ns[..i];
      var kind := ns[i].kind;
      byKind := byKind[kind := (if kind in byKind then byKind[kind] else 0) + 1];
    }
    assert ns[..|ns|] == ns;
    ByKindFacts(ns);
  }

  // ---------------------------------------------------------------------
  // The report

  /** `resumen_numeros`. */
  datatype NumberSummary = NumberSummary(total: nat, byKind: map<Kind, nat>)

  /** The dictionary `procesar_imagen` returns. */
  datatype ImageReport = ImageReport(
    file: string, fullText: string, numbers: seq<Token>, summary: NumberSummary, structure: TextStructure)

  /** The message of the `FileNotFoundError`. */
  function MissingImage(path: string): string { "La imagen " + path + " no existe" }

  /**
   * What `procesar_imagen` returns for an image file named `name` at
   * `path`, given whether the file exists and what OCR reads.
   */
  function Image(path: string, name: string, exists_: bool, ocr: Option<string>): Result<ImageReport, string> {
    if !exists_ then Failure(MissingImage(path))
    else
      var full := FullText(ocr);
      var numbers := Extract(full);
      var lines := Lines(full);
      Success(ImageReport(name, full, numbers, NumberSummary(|numbers|, ByKind(numbers)),
        TextStructure(Titles(lines), Paragraphs(lines), |lines|)))
  }

  /**
   * A missing file is the only error; otherwise the report holds the
   * stripped OCR text, its tokens and their counts per kind, which add up
   * to the total, and a structure that accounts for every line. A failed
   * OCR gives an empty text with no tokens and no lines.
   */
  lemma ImageCases(path: string, name: string, exists_: bool, ocr: Option<string>)
    ensures var r := Image(path, name, exists_, ocr);
      (r.Failure? <==> !exists_) &&
      (r.Failure? ==> r.error == MissingImage(path)) &&
      (r.Success? ==>
        var rep := r.value;
        rep.file == name && rep.fullText == FullText(ocr) && rep.numbers == Extract(rep.fullText) &&
        rep.summary.total == |rep.numbers| &&
        Get(rep.summary.byKind, Decimal) + Get(rep.summary.byKind, Entero) + Get(rep.summary.byKind, Porcentaje) +
          Get(rep.summary.byKind, Moneda) + Get(rep.summary.byKind, Fecha) + Get(rep.summary.byKind, Telefono) ==
          rep.summary.total &&
        rep.structure.totalLines == |rep.structure.titles| + |rep.structure.paragraphs| &&
        (ocr.None? ==> rep.fullText == "" && rep.numbers == [] && rep.structure == TextStructure([], [], 0)))
  {
    if exists_ {
      var numbers := Extract(FullText(ocr));
      ByKindFacts(numbers);
      CountsSum(numbers);
      TitlesParagraphs(Lines(FullText(ocr)));
      if ocr.None? {
        ExtractEmpty();
        assert Split("", '\n') == [""];
      }
    }
  }

  /** `procesar_imagen` without the JSON file. */
  method ProcessImage(path: string, name: string, exists_: bool, ocr: Option<string>)
    returns (r: Result<ImageReport, string>)
    ensures r == Image(path, name, exists_, ocr)
  {
    if !exists_ {
      return Failure(MissingImage(path));
    }
    var full := FullText(ocr);
    var numbers := ExtractNumbers(full);
    var structure := StructureText(full);
    var byKind := CountByKind(numbers);
    r := Success(ImageReport(name, full, numbers, NumberSummary(|numbers|, byKind), structure));
  }
}
