/**
 * `procesar_caudalimetro` of extractor_rojo.py: the candidate areas of a
 * meter photograph, the OCR text of each widened area, the texts joined
 * with spaces, and the numbers found in them.
 *
 * The image library and the OCR engine are parameters: whether the file
 * exists, the image size, the bounding rectangles of the red contours, and
 * `ocr`, which gives the raw text Tesseract reads inside a rectangle, or
 * `None` when it raises.
 */
module RojoPipeline {
  import opened Wrappers
  import opened Text
  import opened RojoRegions
  import opened RojoTokens

  /** One entry of `texto_rojo`. */
  datatype RedText = RedText(area: nat, text: string, original: Rect, expanded: Rect)

  /** The `resumen` dictionary. */
  datatype Summary = Summary(totalAreas: nat, totalTexts: nat, totalNumbers: nat)

  /**
   * The result dictionary. `numbers` and `summary` are the optional keys
   * `numeros_encontrados` and `resumen`; `error` is the key present only
   * when no red area was found.
   */
  datatype MeterReport = MeterReport(
    file: string,
    redTexts: seq<RedText>,
    fullText: string,
    areasDetected: nat,
    numbers: Option<seq<Token>>,
    summary: Option<Summary>,
    error: Option<string>)

  /** The exceptions that leave `procesar_caudalimetro`. */
  datatype MeterError = FileNotFound(message: string) | OcrFailed

  const NoRedAreas: string := "No se detectaron \U{E1}reas rojas en la imagen"

  function MissingImage(path: string): string { "La imagen " + path + " no existe" }

  /** `extraer_texto_de_area` on the widened area: the stripped OCR text, or `None` when OCR raises. */
  function AreaText(r: Rect, width: int, height: int, ocr: Rect -> Option<string>): Option<string> {
    match ocr(Expand(r, width, height, ExpansionX, ExpansionY))
    case None => None
    case Some(s) => Some(Strip(s))
  }

  /**
   * The entries the loop over `enumerate(areas_rojas)` appends, or `None`
   * when one of the OCR calls raises.
   */
  function Entries(areas: seq<Rect>, width: int, height: int, ocr: Rect -> Option<string>): Option<seq<RedText>> {
    if areas == [] then Some([])
    else
      var r := areas[|areas| - 1];
      match Entries(areas[..|areas| - 1], width, height, ocr)
      case None => None
      case Some(es) =>
        match AreaText(r, width, height, ocr)
        case None => None
        case Some(s) =>
          if s == "" then Some(es)
          else Some(es + [RedText(|areas|, s, r, Expand(r, width, height, ExpansionX, ExpansionY))])
  }

  /** The list `[t['texto'] for t in textos_rojos]`. */
  function Texts(es: seq<RedText>): (ts: seq<string>)
    ensures |ts| == |es| && forall k :: 0 <= k < |es| ==> ts[k] == es[k].text
  {
    if es == [] then [] else Texts(es[..|es| - 1]) + [es[|es| - 1].text]
  }

  /** The result for the detected areas `areas` of an existing image. */
  function Report(name: string, areas: seq<Rect>, width: int, height: int, ocr: Rect -> Option<string>): Result<MeterReport, MeterError> {
    if areas == [] then Success(MeterReport(name, [], "", 0, None, None, Some(NoRedAreas)))
    else
      match Entries(areas, width, height, ocr)
      case None => Failure(OcrFailed)
      case Some(es) =>
        var full := Join(" ", Texts(es));
        var numbers := Extract(full);
        Success(MeterReport(name, es, full, |areas|, Some(numbers), Some(Summary(|areas|, |es|, |numbers|)), None))
  }

  /** What `procesar_caudalimetro` returns or raises. */
  function Meter(path: string, name: string, exists_: bool, width: int, height: int,
                 bounds: seq<Rect>, ocr: Rect -> Option<string>): Result<MeterReport, MeterError>
  {
    if !exists_ then Failure(FileNotFound(MissingImage(path)))
    else Report(name, SortByY(Kept(bounds)), width, height, ocr)
  }

  // ---------------------------------------------------------------------
  // The entries

  /** The OCR calls fail as a whole exactly when one of them raises. */
  lemma {:induction false} EntriesFail(areas: seq<Rect>, width: int, height: int, ocr: Rect -> Option<string>)
    ensures Entries(areas, width, height, ocr).None? <==>
      exists i :: 0 <= i < |areas| && AreaText(areas[i], width, height, ocr).None?
  {
    if areas != [] {
      var init := areas[..|areas| - 1];
      EntriesFail(init, width, height, ocr);
      if exists i :: 0 <= i < |init| && AreaText(init[i], width, height, ocr).None? {
        var i :| 0 <= i < |init| && AreaText(init[i], width, height, ocr).None?;
        assert areas[i] == init[i];
      }
      forall i | 0 <= i < |init| ensures areas[i] == init[i] { }
    }
  }

  /** One area per entry: its number counts from 1, its rectangles are the area and its widening, and its text is the non-empty OCR result. */
  lemma {:induction false} EntriesWellFormed(areas: seq<Rect>, width: int, height: int, ocr: Rect -> Option<string>)
    requires Entries(areas, width, height, ocr).Some?
    ensures var es := Entries(areas, width, height, ocr).value;
      |es| <= |areas| &&
      forall k :: 0 <= k < |es| ==>
        1 <= es[k].area <= |areas| && es[k].original == areas[es[k].area - 1] &&
        es[k].expanded == Expand(es[k].original, width, height, ExpansionX, ExpansionY) &&
        es[k].text != "" && AreaText(es[k].original, width, height, ocr) == Some(es[k].text)
  {
    if areas != [] {
      var init := areas[..|areas| - 1];
      EntriesWellFormed(init, width, height, ocr);
      var prev := Entries(init, width, height, ocr).value;
      forall k | 0 <= k < |prev| ensures areas[prev[k].area - 1] == init[prev[k].area - 1] { }
    }
  }

  /** Area numbers strictly increase along the list. */
  lemma {:induction false} EntriesIncreasing(areas: seq<Rect>, width: int, height: int, ocr: Rect -> Option<string>)
    requires Entries(areas, width, height, ocr).Some?
    ensures var es := Entries(areas, width, height, ocr).value;
      forall i, j :: 0 <= i < j < |es| ==> es[i].area < es[j].area
  {
    if areas != [] {
      var init := areas[..|areas| - 1];
      EntriesIncreasing(init, width, height, ocr);
      EntriesWellFormed(init, width, height, ocr);
    }
  }

  /** Some entry carries area number `a`. */
  ghost predicate HasEntry(es: seq<RedText>, a: int) {
    exists k :: 0 <= k < |es| && es[k].area == a
  }

  lemma HasEntrySnoc(es: seq<RedText>, e: RedText, a: int)
    ensures HasEntry(es + [e], a) <==> HasEntry(es, a) || e.area == a
  {
    var s := es + [e];
    if HasEntry(s, a) {
      var k :| 0 <= k < |s| && s[k].area == a;
      if k < |es| { assert es[k] == s[k]; }
    }
    if HasEntry(es, a) {
      var k :| 0 <= k < |es| && es[k].area == a;
      assert s[k] == es[k];
    }
    assert s[|es|] == e;
  }

  lemma HasEntryBound(es: seq<RedText>, a: int, n: int)
    requires forall k :: 0 <= k < |es| ==> es[k].area <= n
    requires a > n
    ensures !HasEntry(es, a)
  {
  }

  /** Every area whose OCR text is not empty, and only such an area, has an entry. */
  lemma {:induction false} EntriesComplete(areas: seq<Rect>, width: int, height: int, ocr: Rect -> Option<string>)
    requires Entries(areas, width, height, ocr).Some?
    ensures forall i :: 0 <= i < |areas| ==>
      AreaText(areas[i], width, height, ocr).Some? &&
      (AreaText(areas[i], width, height, ocr).value != "" <==> HasEntry(Entries(areas, width, height, ocr).value, i + 1))
  {
    EntriesFail(areas, width, height, ocr);
    if areas != [] {
      var n := |areas| - 1;
      var init := areas[..n];
      var r := areas[n];
      EntriesComplete(init, width, height, ocr);
      EntriesWellFormed(init, width, height, ocr);
      var prev := Entries(init, width, height, ocr).value;
      var es := Entries(areas, width, height, ocr).value;
      var s := AreaText(r, width, height, ocr).value;
      var e := RedText(n + 1, s, r, Expand(r, width, height, ExpansionX, ExpansionY));
      assert es == if s == "" then prev else prev + [e];
      forall i | 0 <= i < |areas|
        ensures AreaText(areas[i], width, height, ocr).value != "" <==> HasEntry(es, i + 1)
      {
        if s != "" { HasEntrySnoc(prev, e, i + 1); }
        if i < n {
          assert areas[i] == init[i];
        } else {
          HasEntryBound(prev, i + 1, n);
        }
      }
    }
  }

  /** An OCR failure in a prefix of the areas fails the whole loop. */
  lemma {:induction false} EntriesPrefixFail(areas: seq<Rect>, n: nat, width: int, height: int, ocr: Rect -> Option<string>)
    requires n <= |areas| && Entries(areas[..n], width, height, ocr).None?
    ensures Entries(areas, width, height, ocr).None?
  {
    EntriesFail(areas[..n], width, height, ocr);
    var i :| 0 <= i < n && AreaText(areas[..n][i], width, height, ocr).None?;
    assert areas[i] == areas[..n][i];
    EntriesFail(areas, width, height, ocr);
  }

  // ---------------------------------------------------------------------
  // The result

  /**
   * The shape of the result: the `error` key is present exactly when no
   * area was detected, and then the numbers and the summary are absent;
   * otherwise the summary counts the areas, the texts (never more than the
   * areas) and the numbers found in the joined texts.
   */
  lemma ReportShape(name: string, areas: seq<Rect>, width: int, height: int, ocr: Rect -> Option<string>)
    requires Report(name, areas, width, height, ocr).Success?
    ensures var rep := Report(name, areas, width, height, ocr).value;
      rep.file == name &&
      rep.areasDetected == |areas| &&
      (rep.error.Some? <==> rep.areasDetected == 0) &&
      (rep.areasDetected == 0 ==>
        rep.error == Some(NoRedAreas) && rep.numbers.None? && rep.summary.None? && rep.redTexts == [] && rep.fullText == "") &&
      (rep.areasDetected > 0 ==>
        rep.numbers.Some? && rep.summary.Some? &&
        rep.fullText == Join(" ", Texts(rep.redTexts)) &&
        rep.numbers.value == Extract(rep.fullText) &&
        rep.summary.value == Summary(rep.areasDetected, |rep.redTexts|, |rep.numbers.value|) &&
        rep.summary.value.totalTexts <= rep.summary.value.totalAreas)
  {
    if areas != [] {
      EntriesWellFormed(areas, width, height, ocr);
    }
  }

  /**
   * `es` are the entries of the loop over `areas`: numbered from 1 in
   * strictly increasing order, each the widened area with that number and
   * its non-empty text, and present for exactly the areas whose text is not
   * empty.
   */
  ghost predicate EntriesOf(es: seq<RedText>, areas: seq<Rect>, width: int, height: int, ocr: Rect -> Option<string>) {
    (forall i, j :: 0 <= i < j < |es| ==> es[i].area < es[j].area) &&
    (forall k :: 0 <= k < |es| ==>
      1 <= es[k].area <= |areas| && es[k].original == areas[es[k].area - 1] &&
      es[k].expanded == Expand(es[k].original, width, height, ExpansionX, ExpansionY) &&
      es[k].text != "" && AreaText(es[k].original, width, height, ocr) == Some(es[k].text)) &&
    (forall i :: 0 <= i < |areas| ==>
      (AreaText(areas[i], width, height, ocr) != Some("") <==> HasEntry(es, i + 1)))
  }

  /** The entries of a result are the entries of the loop over the detected areas. */
  lemma ReportEntries(name: string, areas: seq<Rect>, width: int, height: int, ocr: Rect -> Option<string>)
    requires Report(name, areas, width, height, ocr).Success?
    ensures EntriesOf(Report(name, areas, width, height, ocr).value.redTexts, areas, width, height, ocr)
  {
    ReportRedTexts(name, areas, width, height, ocr);
    if areas != [] {
      EntriesFacts(areas, width, height, ocr);
    }
  }

  /** The three facts about the entries, in the form the result states them. */
  lemma EntriesFacts(areas: seq<Rect>, width: int, height: int, ocr: Rect -> Option<string>)
    requires Entries(areas, width, height, ocr).Some?
    ensures EntriesOf(Entries(areas, width, height, ocr).value, areas, width, height, ocr)
  {
    EntriesWellFormed(areas, width, height, ocr);
    EntriesIncreasing(areas, width, height, ocr);
    EntriesComplete(areas, width, height, ocr);
  }

  /** The entries of a successful result are those of the loop. */
  lemma ReportRedTexts(name: string, areas: seq<Rect>, width: int, height: int, ocr: Rect -> Option<string>)
    requires Report(name, areas, width, height, ocr).Success?
    ensures areas == [] ==> Report(name, areas, width, height, ocr).value.redTexts == []
    ensures areas != [] ==> Entries(areas, width, height, ocr).Some?
    ensures areas != [] ==> Report(name, areas, width, height, ocr).value.redTexts == Entries(areas, width, height, ocr).value
  {
  }

  /** Reading the detected areas fails exactly when some OCR call raises. */
  lemma ReportFails(name: string, areas: seq<Rect>, width: int, height: int, ocr: Rect -> Option<string>)
    ensures Report(name, areas, width, height, ocr).Failure? <==>
      exists i :: 0 <= i < |areas| && AreaText(areas[i], width, height, ocr).None?
    ensures Report(name, areas, width, height, ocr).Failure? ==> Report(name, areas, width, height, ocr).error == OcrFailed
  {
    EntriesFail(areas, width, height, ocr);
  }

  /**
   * The whole call: a missing file raises `FileNotFoundError` with its
   * message; otherwise the result is the one for the detected candidates,
   * and every area an entry reports passed the noise filter.
   */
  lemma MeterCases(path: string, name: string, exists_: bool, width: int, height: int,
                   bounds: seq<Rect>, ocr: Rect -> Option<string>)
    ensures var r := Meter(path, name, exists_, width, height, bounds, ocr);
      (!exists_ <==> r == Failure(FileNotFound(MissingImage(path)))) &&
      (exists_ ==> r == Report(name, SortByY(Kept(bounds)), width, height, ocr)) &&
      (r.Success? ==> forall k :: 0 <= k < |r.value.redTexts| ==>
        r.value.redTexts[k].original in bounds && IsCandidate(r.value.redTexts[k].original))
  {
    var areas := SortByY(Kept(bounds));
    if exists_ {
      ReportFails(name, areas, width, height, ocr);
    }
    if exists_ && Report(name, areas, width, height, ocr).Success? {
      ReportEntries(name, areas, width, height, ocr);
      KeptMembers(bounds);
      var es := Report(name, areas, width, height, ocr).value.redTexts;
      forall k | 0 <= k < |es| ensures es[k].original in Kept(bounds) {
        assert es[k].original in multiset(areas);
      }
    }
  }

  /** The loop over `enumerate(areas_rojas)`: widen each area, read it, keep the non-empty texts. */
  method ReadAreas(areas: seq<Rect>, width: int, height: int, ocr: Rect -> Option<string>)
    returns (texts: Option<seq<RedText>>)
    ensures texts == Entries(areas, width, height, ocr)
  {
    var found: seq<RedText> := [];
    for i := 0 to |areas|
      invariant Entries(areas[..i], width, height, ocr) == Some(found)
    {
      assert areas[..i + 1][..i] == areas[..i];
      var expanded := Expand(areas[i], width, height, ExpansionX, ExpansionY);
      var read := ocr(expanded);
      if read.None? {
        EntriesPrefixFail(areas, i + 1, width, height, ocr);
        return None;
      }
      var text := Strip(read.value);
      if text != "" {
        found := found + [RedText(i + 1, text, areas[i], expanded)];
      }
    }
    assert areas[..|areas|] == areas;
    texts := Some(found);
  }

  /** `procesar_caudalimetro`. */
  method ProcessMeter(path: string, name: string, exists_: bool, width: int, height: int,
                      bounds: seq<Rect>, ocr: Rect -> Option<string>)
    returns (r: Result<MeterReport, MeterError>)
    ensures r == Meter(path, name, exists_, width, height, bounds, ocr)
  {
    if !exists_ {
      return Failure(FileNotFound(MissingImage(path)));
    }
    var areas := DetectCandidates(bounds);
    if areas == [] {
      return Success(MeterReport(name, [], "", 0, None, None, Some(NoRedAreas)));
    }
    var texts := ReadAreas(areas, width, height, ocr);
    if texts.None? {
      return Failure(OcrFailed);
    }
    var full := Join(" ", Texts(texts.value));
    var numbers := ExtractNumbers(full);
    r := Success(MeterReport(name, texts.value, full, |areas|, Some(numbers),
                             Some(Summary(|areas|, |texts.value|, |numbers|)), None));
  }
}
