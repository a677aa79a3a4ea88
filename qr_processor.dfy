/**
 * The decisions of qr_processor.py once a QR code has been read: the form
 * id taken from a URL path (`parsear_url_google_forms`), the Google Forms
 * check and the result of `procesar_qr_y_formulario`, the field guess of
 * `identificar_campo_formulario`, and the query update of
 * `generar_url_formulario_relleno`. Decoding the QR image and splitting a
 * URL into its parts are inputs.
 */
module QrProcessor {
  import opened Wrappers
  import opened Text

  // ---------------------------------------------------------------------
  // The form id

  /** `parts.index(x)`: the first position of `x`. */
  function FirstIndex(parts: seq<string>, x: string): (idx: nat)
    requires x in parts
    ensures idx < |parts| && parts[idx] == x
    ensures forall i :: 0 <= i < idx ==> parts[i] != x
  {
    if parts[0] == x then 0 else 1 + FirstIndex(parts[1..], x)
  }

  /**
   * The `form_id` of a URL path: under the substring test `'forms' in
   * path`, the segment right after the first segment that is exactly
   * `forms`, if there is one.
   */
  function FormId(path: string): Option<string> {
    if !Contains(path, "forms") then None
    else
      var parts := Split(path, '/');
      if "forms" in parts then
        var idx := FirstIndex(parts, "forms");
        if idx + 1 < |parts| then Some(parts[idx + 1]) else None
      else None
  }

  /** A segment of the path is a substring of it. */
  lemma SegmentInPath(path: string, k: nat)
    requires k < |Split(path, '/')|
    ensures Contains(path, Split(path, '/')[k])
  {
    JoinSplit(path, '/');
    PartOccursInJoin(['/'], Split(path, '/'), k);
    ContainsIff(path, Split(path, '/')[k]);
  }

  /** `idx` is the first segment that is exactly `forms`. */
  ghost predicate FirstForms(parts: seq<string>, idx: int) {
    0 <= idx < |parts| && parts[idx] == "forms" && forall i :: 0 <= i < idx ==> parts[i] != "forms"
  }

  /**
   * The segment rule on its own decides the form id (the substring test
   * only lets through paths that have a chance): there is an id exactly
   * when the first `forms` segment is not the last segment, and then the id
   * is the segment after it.
   */
  lemma FormIdRule(path: string)
    ensures FormId(path).Some? <==>
      exists idx :: FirstForms(Split(path, '/'), idx) && idx + 1 < |Split(path, '/')|
    ensures forall idx :: FirstForms(Split(path, '/'), idx) && idx + 1 < |Split(path, '/')| ==>
      FormId(path) == Some(Split(path, '/')[idx + 1])
  {
    var parts := Split(path, '/');
    if "forms" in parts {
      var k :| 0 <= k < |parts| && parts[k] == "forms";
      SegmentInPath(path, k);
      var idx := FirstIndex(parts, "forms");
      assert FirstForms(parts, idx);
      forall j | FirstForms(parts, j) ensures j == idx {
        assert !(j < idx) && !(idx < j);
      }
    }
  }

  /** `/myforms/x` passes the substring test, but no segment is exactly `forms`. */
  lemma FormIdNeedsSegment()
    ensures Contains("/myforms/x", "forms")
    ensures FormId("/myforms/x") == None
  {
    MyformsContains();
    MyformsSegments();
    assert "forms" != "" && "forms" != "myforms" && "forms" != "x";
  }

  lemma MyformsContains()
    ensures Contains("/myforms/x", "forms")
  {
    var path := "/myforms/x";
    assert path[3..8] == "forms";
    ContainsIff(path, "forms");
  }

  lemma MyformsSegments()
    ensures Split("/myforms/x", '/') == ["", "myforms", "x"]
  {
    var segs := ["", "myforms", "x"];
    assert Join(['/'], segs) == "/myforms/x";
    SplitJoin(segs, '/');
  }

  /**
   * On the path of a form URL, `/forms/d/FORM_ID/viewform`, the rule yields
   * the segment `d`, not the id that follows it.
   */
  lemma FormIdOfViewPath(id: string)
    requires forall j :: 0 <= j < |id| ==> id[j] != '/'
    ensures FormId("/forms/d/" + id + "/viewform") == Some("d")
  {
    ViewPathContains(id);
    ViewPathJoin(id);
    ViewPathSplit(id);
  }

  lemma ViewPathContains(id: string)
    ensures Contains("/forms/d/" + id + "/viewform", "forms")
  {
    var path := "/forms/d/" + id + "/viewform";
    assert path == "/forms/d/" + (id + "/viewform");
    assert path[1..6] == "/forms/d/"[1..6];
    ContainsIff(path, "forms");
  }

  lemma ViewPathJoin(id: string)
    ensures Join(['/'], ["", "forms", "d", id, "viewform"]) == "/forms/d/" + id + "/viewform"
  {
    var segs := ["", "forms", "d", id, "viewform"];
    assert Join(['/'], segs[3..]) == id + "/viewform";
    assert Join(['/'], segs[2..]) == "d/" + id + "/viewform";
    assert Join(['/'], segs[1..]) == "forms/d/" + id + "/viewform";
  }

  lemma ViewPathSplit(id: string)
    requires forall j :: 0 <= j < |id| ==> id[j] != '/'
    ensures Split(Join(['/'], ["", "forms", "d", id, "viewform"]), '/') == ["", "forms", "d", id, "viewform"]
  {
    var segs := ["", "forms", "d", id, "viewform"];
    assert forall k, j :: 0 <= k < |segs| && 0 <= j < |segs[k]| ==> segs[k][j] != '/';
    SplitJoin(segs, '/');
  }

  /** The id is `None` when the only `forms` segment is the last one. */
  lemma FormIdNoneAtEnd()
    ensures FormId("/forms") == None
  {
    var segs := ["", "forms"];
    assert Join(['/'], segs) == "/forms";
    SplitJoin(segs, '/');
  }

  // ---------------------------------------------------------------------
  // The form check and the result

  /** The QR content points to a Google form. */
  predicate IsGoogleForm(content: string) {
    Contains(content, "docs.google.com/forms") || Contains(content, "forms.gle")
  }

  /** The parts of a URL that `urlparse` and `parse_qs` produce. */
  datatype ParsedUrl = ParsedUrl(netloc: string, path: string, query: map<string, seq<string>>)

  /** What `parsear_url_google_forms` returns. */
  datatype FormInfo = FormInfo(url: string, formId: Option<string>, params: map<string, seq<string>>, domain: string)

  /** What `identificar_campo_formulario` returns. */
  datatype FieldInfo = FieldInfo(strategy: string, value: string, formId: Option<string>)

  /** The dictionary `procesar_qr_y_formulario` returns. */
  datatype QrResult =
    | Unreadable
    | NotAForm(qrContent: string)
    | Ready(qrContent: string, form: FormInfo, field: FieldInfo, meterValue: string, formUrl: string)

  const UnreadableMessage: string := "No se pudo escanear el c\U{F3}digo QR"
  const NotAFormMessage: string := "El QR code no apunta a un formulario de Google"

  /** The `exito` entry. */
  predicate Succeeded(r: QrResult) { r.Ready? }

  /** The `error` entry, absent on success. */
  function ErrorOf(r: QrResult): Option<string> {
    match r
    case Unreadable => Some(UnreadableMessage)
    case NotAForm(_) => Some(NotAFormMessage)
    case Ready(_, _, _, _, _) => None
  }

  /** `parsear_url_google_forms` on a URL whose parts are `parsed`. */
  function ParseForm(url: string, parsed: ParsedUrl): FormInfo {
    FormInfo(url, FormId(parsed.path), parsed.query, parsed.netloc)
  }

  /** `identificar_campo_formulario`: for now always the automatic strategy. */
  function IdentifyField(form: FormInfo, value: string): FieldInfo {
    FieldInfo("auto_detection", value, form.formId)
  }

  /**
   * `procesar_qr_y_formulario` given what the scanner read (`None` when it
   * found nothing) and how the content splits into URL parts. The result
   * succeeds exactly when the scanner read a non-empty content that points
   * to a Google form. Missing content gives the scan error; other content
   * gives the form error and carries the content. On success the form URL
   * is the content itself, the meter value passes through, and the field
   * guess uses the automatic strategy with the meter value and the path's
   * form id.
   */
  function ProcessQr(qr: Option<string>, meterValue: string, parse: string -> ParsedUrl): (r: QrResult)
    ensures Succeeded(r) <==> qr.Some? && qr.value != "" && IsGoogleForm(qr.value)
    ensures (qr.None? || qr.value == "") <==> ErrorOf(r) == Some(UnreadableMessage)
    ensures qr.Some? && qr.value != "" && !IsGoogleForm(qr.value) <==>
      ErrorOf(r) == Some(NotAFormMessage) && r.NotAForm? && r.qrContent == qr.value
    ensures Succeeded(r) ==>
      ErrorOf(r) == None && r.formUrl == qr.value && r.qrContent == qr.value &&
      r.meterValue == meterValue && r.form.url == qr.value &&
      r.form.formId == FormId(parse(qr.value).path) && r.form.params == parse(qr.value).query &&
      r.field == FieldInfo("auto_detection", meterValue, FormId(parse(qr.value).path))
  {
    if qr.None? || qr.value == "" then Unreadable
    else if !IsGoogleForm(qr.value) then NotAForm(qr.value)
    else
      var form := ParseForm(qr.value, parse(qr.value));
      Ready(qr.value, form, IdentifyField(form, meterValue), meterValue, qr.value)
  }

  // ---------------------------------------------------------------------
  // Pre-filling

  /** The query key of a form field. */
  function EntryKey(fieldId: string): string { "entry." + fieldId }

  /**
   * The update of `params` in `generar_url_formulario_relleno`: the field's
   * key maps to the single value, replacing any earlier list, and every
   * other key keeps its list.
   */
  method PrefillQuery(query: map<string, seq<string>>, fieldId: string, value: string)
    returns (params: map<string, seq<string>>)
    ensures params.Keys == query.Keys + {EntryKey(fieldId)}
    ensures params[EntryKey(fieldId)] == [value]
    ensures forall k :: k in query && k != EntryKey(fieldId) ==> params[k] == query[k]
  {
    params := query;
    params := params[EntryKey(fieldId) := [value]];
  }

  /**
   * `generar_url_formulario_relleno` up to `urlencode` and `urlunparse`:
   * the same location and path with the updated query.
   */
  method PrefillUrl(url: ParsedUrl, fieldId: string, value: string) returns (r: ParsedUrl)
    ensures r.netloc == url.netloc && r.path == url.path
    ensures r.query.Keys == url.query.Keys + {EntryKey(fieldId)}
    ensures r.query[EntryKey(fieldId)] == [value]
    ensures forall k :: k in url.query && k != EntryKey(fieldId) ==> r.query[k] == url.query[k]
  {
    var params := PrefillQuery(url.query, fieldId, value);
    r := url.(query := params);
  }

  /** Different field ids give different keys, so filling one field leaves the others alone. */
  lemma EntryKeysDistinct(a: string, b: string)
    requires a != b
    ensures EntryKey(a) != EntryKey(b)
  {
    assert EntryKey(a)[6..] == a && EntryKey(b)[6..] == b;
  }
}
