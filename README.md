# caudalia: a verified model of the meter-reading core

caudalia reads water meters from photographs. extractor_rojo.py finds the
figures a person underlined in red, widens each underline upwards, reads the
text there with OCR and pulls numbers with units (caudal `m³/h`, volumen
`m³`, decimal, number-with-letter, integer) out of the joined text.
extractor_imagenes.py reads a whole image, pulls six kinds of numbers
(decimal, integer, percentage, currency, date, telephone) with their line
numbers, and splits the text into titles and paragraphs. qr_processor.py
turns the content of a QR code into a Google Forms answer. app.py checks an
upload before it goes into the pipeline.

This project models all four in Dafny and proves what they promise.

- `Text` holds the Python string operations the code relies on:
  - `strip` and `lower`, with `isupper` for ASCII;
  - `in` on strings;
  - `split` with a single-character separator, and `join`.
- `Patterns` holds one hand-written matcher per regular expression, eleven in all. Each matcher returns where Python's greedy, backtracking match ends. Each pattern is also stated as a language without any greedy choice, and the lemmas prove that every matcher returns the longest string of its language.
- `Scanning` is `re.finditer`: leftmost, non-overlapping, resuming at each match end. It also holds the removal of repeated keys, which is generic.
- `RojoRegions`, `RojoTokens` and `RojoPipeline` cover extractor_rojo.py:
  - the candidate filter and the stable sort by `y`;
  - the widening of an area;
  - `extraer_numeros`;
  - the result of `procesar_caudalimetro`.
- `ImagenesTokens` and `ImagenesPipeline` cover extractor_imagenes.py:
  - `extraer_numeros`;
  - `extraer_texto_completo`;
  - `extraer_texto_estructurado`;
  - the counts of `procesar_imagen`.
- `QrProcessor` covers the form id rule, the Google Forms check, the result of `procesar_qr_y_formulario`, and the pre-fill query update.
- `App` covers `allowed_file` and the order of the checks in `process_image`.

Where the code changes state step by step, the model is a method with a loop (the candidate filter, both tokenizers, the entries loop, the line classification, the per-kind counts), proved equal to a function that is its specification; the properties are lemmas about those functions.

The inputs the code gets from libraries are parameters:
- the bounding rectangles of the red contours;
- the image size;
- the OCR result, as a function from a rectangle to an optional text, or as one optional text (`None` when the call raises);
- whether the file exists;
- the content the QR scanner read;
- the parts `urlparse` and `parse_qs` return.

`RojoRegions.IsRedPixel` defines the HSV mask of `detectar_areas_rojas` (extractor_rojo.py:47-59). Nothing else in the model uses it, because the contours found in that mask are inputs.

Characters are taken from ASCII plus `³`, `€` and `£`. `\d`, `\s`, `\w`, `str.lower` and `str.isupper` are modelled on that alphabet. `³` is a word character, as it is for Python.

Behaviour the code has and the model keeps:
- The widening moves the top up by `3·ey` but adds only `ey` to the height. Away from the top edge, the bottom therefore rises by `2·ey`, and the widened area covers the original vertically only when the original top is within `ey` of the image top. The docstring of `expandir_area_roja` (extractor_rojo.py:86) says the area is widened to take in the whole underlined text, and the comment at extractor_rojo.py:101 says it grows upwards, where the text above the underline is. The code does not keep the underline inside the area: it raises the bottom as well. The model follows the code (`RojoRegions.ExpandCoversVerticallyIff`).
- The decimal pattern of extractor_rojo.py, `[+\-]?\d+\.?\d+`, needs two digits but no point. So `12` is reported as 'decimal', and the 'entero' token with the same key is removed (`RojoTokens.ScanTwelve`, `RojoTokens.SpanShadowed`).
- For `/forms/d/FORM_ID/viewform` the form id rule yields `d`, the segment after `forms`, not the id the comment in the code describes (`QrProcessor.FormIdOfViewPath`).
- How a ten-digit number comes out depends on its two neighbours:
  - Each neighbour may be the edge of the text or a character that is neither a word character nor a phone character (for example `.`, `,` or `:`). Then the number is both an 'entero' and a 'telefono' match over the same span, and only the 'entero' token survives (`ImagenesTokens.ScanTenDigits`, `ImagenesTokens.SpanShadowed`).
  - A space, dash or parenthesis next to it is taken into the 'telefono' match. The two spans, and so the two keys, then differ, and both tokens are returned, as in a space followed by `1234567890` (`ImagenesTokens.ScanSpacedTenDigits`).
  - A word character next to it (a letter, `_` or `³`) leaves no word boundary there, so there is no 'entero' match and only the 'telefono' token is returned, as in `a1234567890` (`ImagenesTokens.ScanLetteredTenDigits`).

## Model

| member | source | states |
|---|---|---|
| Text.Lower | app.py:35 | `str.lower` maps every character, and only upper-case ASCII letters change |
| Text.ContainsIff | qr_processor.py:117 | `sub in s` holds exactly when `sub` occurs at some offset of `s` |
| Text.StripFacts | extractor_rojo.py:258 | `strip` returns the middle of its argument: no whitespace at either end of the result, and only whitespace cut off on each side (Python's whitespace: space, `\t` to `\r`, and `\x1c` to `\x1f`) |
| Text.StripIdempotent | extractor_imagenes.py:131 | stripping a stripped text changes nothing |
| Text.JoinSplit | qr_processor.py:119 | joining the pieces of `split` with the separator gives the text back |
| Text.SplitJoin | qr_processor.py:119 | splitting the join of separator-free pieces gives the pieces back |
| Text.SplitPieces | extractor_imagenes.py:131 | `split` gives one piece more than there are separators, and no piece contains the separator |
| Patterns.MatchAt | extractor_rojo.py:256 | a match tried at `p` is never empty and ends inside the text |
| Patterns.MatchIsLongest | extractor_rojo.py:247-253 | for each of the eleven patterns, the match is a string of the pattern's language, and no string of the language starting at `p` is longer |
| Patterns.CaudalLongest | extractor_rojo.py:248 | no caudal string `[+\-]?\d+\.?\d*\s*m³/h?` starting at `p` is longer than the match |
| Patterns.SignedDecimalLongest | extractor_rojo.py:250 | no decimal string `[+\-]?\d+\.?\d+` starting at `p` is longer than the match |
| Patterns.WordIntegerLongest | extractor_imagenes.py:92 | no digit run with a word boundary on both sides starting at `p` is longer than the match |
| Patterns.DateLongest | extractor_imagenes.py:95 | no date string starting at `p` is longer than the match |
| Patterns.PhoneLongest | extractor_imagenes.py:96 | no run of ten or more digits, spaces, dashes and parentheses starting at `p` is longer than the match |
| Scanning.FindAll | extractor_rojo.py:256 | the spans of `re.finditer` are non-empty, lie in the text, and follow one another without overlap |
| Scanning.FindAllMatches | extractor_rojo.py:256 | every span is the match the pattern makes at its start |
| Scanning.FindAllLeftmost | extractor_rojo.py:256 | no match starts at a position that no span covers, so the scan misses no leftmost match |
| Scanning.RemoveRepeats | extractor_rojo.py:266-272 | the dedup loop with its `vistos` set returns the list with repeated keys removed: keys distinct, the same key set as the input |
| Scanning.DedupIsFirstOccurrences | extractor_rojo.py:266-272 | the result is the subsequence of the elements whose key does not occur earlier |
| Scanning.DedupFirst | extractor_rojo.py:268-272 | every element kept is the first occurrence of its key |
| Scanning.DedupKeepsOrder | extractor_rojo.py:266-272 | any order the input follows, the result follows too |
| Scanning.DedupMembers | extractor_rojo.py:266-272 | nothing is added: every element kept comes from the input |
| Scanning.DedupOfDistinct | extractor_imagenes.py:110-116 | a list whose keys are already distinct is returned unchanged |
| Scanning.DedupIdempotent | extractor_imagenes.py:110-116 | removing repeats twice is the same as once |
| Scanning.DedupHead | extractor_imagenes.py:110-116 | the first element of a non-empty list is always kept |
| RojoRegions.KeptMembers | extractor_rojo.py:70-75 | a rectangle is kept exactly when it is among the bounding rectangles and is wider than 20 and taller than 5 |
| RojoRegions.KeptCount | extractor_rojo.py:70-75 | each candidate is kept as many times as it occurs, and a non-candidate never |
| RojoRegions.SortByY | extractor_rojo.py:78 | the sort is a permutation, is non-decreasing in `y`, and keeps contour order among rectangles at the same `y` |
| RojoRegions.DetectCandidates | extractor_rojo.py:70-80 | the filter loop and the sort: exactly the candidates, with their multiplicities, sorted by `y`, stable |
| RojoRegions.Expand | extractor_rojo.py:83-105 | the widened area lies in the image, inside it whenever the original is, and, away from the edges, is `ex` wider on each side and `3·ey` higher with `ey` more height |
| RojoRegions.ExpandCoversHorizontally | extractor_rojo.py:98-99 | horizontally the widened area covers the original one |
| RojoRegions.ExpandBottomRises | extractor_rojo.py:102-103 | away from the top edge the widened bottom is `2·ey` above the original bottom |
| RojoRegions.ExpandCoversVerticallyIff | extractor_rojo.py:102-103 | vertical cover holds exactly when the original top is at most `ey` |
| RojoRegions.DefaultExpansionCoversIff | extractor_rojo.py:84-103 | with the default expansion, vertical cover holds exactly for tops within 5 pixels of the image top |
| RojoTokens.MatchTrimmed | extractor_rojo.py:258 | no match starts or ends with whitespace, so the `strip` of a match is the match itself |
| RojoTokens.KindTokensOrdered | extractor_rojo.py:256-257 | the tokens of one pattern come in increasing position |
| RojoTokens.RawFromOrdered | extractor_rojo.py:255-263 | the raw list is ordered by pattern rank, then by position |
| RojoTokens.SpanInRaw | extractor_rojo.py:255-263 | every match of every pattern is in the raw list, with its stripped text and start |
| RojoTokens.Shadowed | extractor_rojo.py:265-272 | a raw token removes every token of a later pattern with the same value and position |
| RojoTokens.SpanShadowed | extractor_rojo.py:250-272 | when an earlier and a later pattern report the same span, the later pattern's token is not returned |
| RojoTokens.ScanTwelve | extractor_rojo.py:250-252 | on `12` the decimal and the integer pattern both report the span 0..2, and decimal does not match at 1 |
| RojoTokens.ExtractMatches | extractor_rojo.py:256-262 | each returned token is a match of its kind's pattern at its position, and its value is the matched text |
| RojoTokens.ExtractOrdered | extractor_rojo.py:247-272 | the returned tokens keep pattern order, then position order |
| RojoTokens.TokenizeMatches | extractor_rojo.py:257-263 | the inner loop produces one token per span, in span order |
| RojoTokens.CollectTokens | extractor_rojo.py:255-263 | the nested loops build the raw list over the five patterns in order |
| RojoTokens.ExtractNumbers | extractor_rojo.py:240-274 | `extraer_numeros` returns the first occurrences of the raw list, with distinct keys, every raw key present, every token a match, in pattern and position order |
| RojoPipeline.Texts | extractor_rojo.py:219 | the texts of the entries, one for each, in order |
| RojoPipeline.EntriesFail | extractor_rojo.py:190-196 | the loop raises exactly when some OCR call raises |
| RojoPipeline.EntriesPrefixFail | extractor_rojo.py:190-196 | once an OCR call has raised, the whole loop has raised |
| RojoPipeline.EntriesWellFormed | extractor_rojo.py:190-204 | each entry's `area` is in 1..count, its rectangles are that area and its widening, and its text is the non-empty OCR text of that area |
| RojoPipeline.EntriesIncreasing | extractor_rojo.py:198-204 | area numbers strictly increase along the entries |
| RojoPipeline.EntriesComplete | extractor_rojo.py:198-204 | an area has an entry exactly when its OCR text is not empty |
| RojoPipeline.ReadAreas | extractor_rojo.py:190-204 | the loop over the areas returns the entries, or the failure when an OCR call raises |
| RojoPipeline.ReportShape | extractor_rojo.py:170-235 | `error` is present exactly when no area was found, and then there are no numbers and no summary; otherwise the full text is the `' '.join` of the texts, the numbers are extracted from it, and the totals count areas, texts (at most the areas) and numbers |
| RojoPipeline.ReportEntries | extractor_rojo.py:190-204 | the entries of a result are increasing, well formed, and present exactly for the areas with non-empty text |
| RojoPipeline.ReportFails | extractor_rojo.py:196 | the result is an OCR failure exactly when an OCR call raises |
| RojoPipeline.MeterCases | extractor_rojo.py:159-168 | a missing file raises with its message; otherwise the result is the one for the sorted candidates, and every entry's area is a bounding rectangle that passed the filter |
| RojoPipeline.ProcessMeter | extractor_rojo.py:146-237 | `procesar_caudalimetro`, step by step, equals the result described above |
| ImagenesTokens.LineAtSplit | extractor_imagenes.py:106 | `linea` is the number of lines of the text before the position, between 1 and the position plus one |
| ImagenesTokens.LineAtMonotone | extractor_imagenes.py:106 | a later position never has a smaller line number |
| ImagenesTokens.KindTokensOrdered | extractor_imagenes.py:100-101 | the tokens of one pattern come in increasing position |
| ImagenesTokens.RawFromOrdered | extractor_imagenes.py:99-107 | the raw list is ordered by pattern rank (decimal, entero, porcentaje, moneda, fecha, telefono), then by position |
| ImagenesTokens.SpanInRaw | extractor_imagenes.py:99-107 | every match is in the raw list, with its unstripped text, start and line |
| ImagenesTokens.Shadowed | extractor_imagenes.py:110-116 | a raw token removes every token of a later pattern with the same value and position |
| ImagenesTokens.SpanShadowed | extractor_imagenes.py:109-116 | when an earlier and a later pattern report the same span, the later pattern's token is not returned |
| ImagenesTokens.ScanTenDigits | extractor_imagenes.py:92-96 | on `1234567890` the entero and telefono patterns both report the span 0..10 |
| ImagenesTokens.ScanSpacedTenDigits | extractor_imagenes.py:92-96 | on a space followed by `1234567890`, entero reports 1..11 and telefono 0..11, so the two keys differ |
| ImagenesTokens.ScanLetteredTenDigits | extractor_imagenes.py:92-96 | on `a1234567890` entero reports nothing and telefono reports 1..11 |
| ImagenesTokens.ScanDecimal | extractor_imagenes.py:91-92 | on `12.34` decimal reports 0..5, and entero reports `12` at 0 and `34` at 3 |
| ImagenesTokens.ExtractMatches | extractor_imagenes.py:100-107 | each returned token is a match of its kind's pattern at its position, its value is the raw match, and its line is the line of its position |
| ImagenesTokens.ExtractOrdered | extractor_imagenes.py:99-117 | the returned tokens keep pattern order, then position order |
| ImagenesTokens.ExtractEmpty | extractor_imagenes.py:77-118 | the empty text yields no tokens |
| ImagenesTokens.TokenizeMatches | extractor_imagenes.py:101-107 | the inner loop produces one token per span, with its line, in span order |
| ImagenesTokens.CollectTokens | extractor_imagenes.py:99-107 | the nested loops build the raw list over the six patterns in order |
| ImagenesTokens.ExtractNumbers | extractor_imagenes.py:77-118 | `extraer_numeros` returns the first occurrences of the raw list, with distinct keys, every raw key present, every token a match, in pattern and position order |
| ImagenesPipeline.FullText | extractor_imagenes.py:64-74 | a failure gives the empty text; otherwise the text is the OCR text with only whitespace cut off at both ends |
| ImagenesPipeline.FullTextStripped | extractor_imagenes.py:71 | the full text is already stripped |
| ImagenesPipeline.Where | extractor_imagenes.py:131 | the positions of a list whose elements satisfy a condition, strictly increasing, and every such position is among them |
| ImagenesPipeline.NonBlankFacts | extractor_imagenes.py:131 | the comprehension keeps exactly the non-empty stripped pieces, each stripped, no more of them than pieces |
| ImagenesPipeline.NonBlankInOrder | extractor_imagenes.py:131 | the kept lines are the stripped pieces at the non-blank positions, one line per such piece, in the order of the pieces |
| ImagenesPipeline.LinesFacts | extractor_imagenes.py:131 | the lines are at most one per newline plus one, non-empty, stripped and free of newlines; line `i` is the stripped piece of `split('\n')` at the `i`-th non-blank position, so the lines come one per non-blank piece, in order |
| ImagenesPipeline.TitlesParagraphs | extractor_imagenes.py:137-150 | titles and paragraphs together hold every line exactly once, so `total_lineas` is their total length |
| ImagenesPipeline.TitlesInOrder | extractor_imagenes.py:137-145 | title `i` is the line at the `i`-th title position, so the titles are the title lines in the order of the text |
| ImagenesPipeline.ParagraphsInOrder | extractor_imagenes.py:137-145 | paragraph `i` is the line at the `i`-th position that is not a title, so the paragraphs are the other lines in the order of the text |
| ImagenesPipeline.TitlesAreTitles | extractor_imagenes.py:139-140 | every title is shorter than 50 and upper case |
| ImagenesPipeline.ParagraphsAreNotTitles | extractor_imagenes.py:141-145 | no paragraph passes the title rule, whatever digits it holds |
| ImagenesPipeline.TitleExamples | extractor_imagenes.py:139 | digits do not stop a line from being a title, a line of digits alone is none, a line with a lower-case letter is none |
| ImagenesPipeline.Classify | extractor_imagenes.py:137-145 | the loop with its digit branch sends each line to titles or paragraphs by the title rule alone |
| ImagenesPipeline.StructureText | extractor_imagenes.py:121-151 | the structure holds the titles and paragraphs of the lines, and `total_lineas` equals their total |
| ImagenesPipeline.ByKindFacts | extractor_imagenes.py:194-198 | `por_tipo` has a key exactly for the kinds that occur, each holding the number of tokens of that kind |
| ImagenesPipeline.CountsSum | extractor_imagenes.py:187-198 | the counts of the six kinds add up to the number of tokens |
| ImagenesPipeline.CountByKind | extractor_imagenes.py:194-198 | the counting loop builds that map |
| ImagenesPipeline.ImageCases | extractor_imagenes.py:166-192 | a missing file is the only error; otherwise the report holds the stripped text, its tokens, counts adding up to the total, and a structure accounting for every line; a failed OCR gives no text, no tokens and no lines |
| ImagenesPipeline.ProcessImage | extractor_imagenes.py:154-207 | `procesar_imagen`, step by step, equals the report described above |
| QrProcessor.FirstIndex | qr_processor.py:121 | `list.index` returns the first position holding the value |
| QrProcessor.SegmentInPath | qr_processor.py:117-120 | every segment of the path is a substring of it, so the substring test never hides a `forms` segment |
| QrProcessor.FormIdRule | qr_processor.py:116-123 | there is a form id exactly when the first `forms` segment is not the last one, and then it is the next segment |
| QrProcessor.FormIdNeedsSegment | qr_processor.py:117-120 | `/myforms/x` passes the substring test yet has no form id |
| QrProcessor.FormIdOfViewPath | qr_processor.py:118-123 | on `/forms/d/ID/viewform` the form id is `d` |
| QrProcessor.FormIdNoneAtEnd | qr_processor.py:122-123 | a final `forms` segment gives no form id |
| QrProcessor.ProcessQr | qr_processor.py:204-233 | success exactly for non-empty content pointing to a Google form; the scan error for missing content, the form error with the content otherwise; on success the form URL is the content, the meter value passes through, and the field guess is the automatic one with the form id |
| QrProcessor.PrefillQuery | qr_processor.py:181-184 | the field's key maps to the single value, whatever it held, every other key is unchanged, and no other key is added |
| QrProcessor.PrefillUrl | qr_processor.py:180-189 | location and path are kept, and the query is updated as above |
| QrProcessor.EntryKeysDistinct | qr_processor.py:184 | different field ids give different keys |
| App.AfterLastDot | app.py:35 | the extension is the suffix after a dot and holds no dot, so that dot is the last one |
| App.AllowedFileIff | app.py:32-35 | a name is allowed exactly when the lower-cased text after its last dot is an allowed extension, and never without a dot |
| App.AllowedFileExamples | app.py:25-35 | `a.tar.PNG` and `.png` are allowed; `name.` and `png` are not |
| App.CheckUpload | app.py:474-483 | a missing image, an empty name and a refused extension each give their 400 in that order, and only a file that passes all three is saved |

## Left out

- The OpenCV steps before the bounding rectangles: the colour conversion, the morphology, `findContours` and `boundingRect`. These are library image operations; the rectangles are an input. `umbral_rojo` (extractor_rojo.py:24) is never used by the code.
- Image decoding with its PIL fallback (extractor_rojo.py:36-40), and `Image.open` in `procesar_caudalimetro`, which could raise. These are foreign libraries; the image size is an input.
- The OCR engine, including its configuration strings, and the crop in `extraer_texto_de_area`. Its result is an input, `None` when it raises.
- The PIL preprocessing of extractor_imagenes.py: grayscale, contrast 1.5, sharpness 2.0. This is floating-point image work. A failure of it is part of the `None` OCR result.
- pyzbar QR decoding and base64 decoding. These are foreign libraries; the scanned content is an input.
- `urlparse`, `parse_qs`, `urlencode` and `urlunparse`. The path, location and query map are inputs. `generar_url_formulario_relleno` is modelled up to the updated parts, not the rebuilt string.
- The `except` branch of `parsear_url_google_forms`, which needs `urlparse` to raise. It is not modelled.
- The debug drawing and `cv2.imwrite`, the JSON file of `procesar_imagen`, the `print` calls, the argparse `main` functions and `procesar_carpeta`. These are I/O.
- `ruta_completa` in `procesar_imagen`, which needs the file system's absolute path. It is not part of `ImagenesPipeline.ImageReport`.
- Flask routing, saving and removing the upload, `secure_filename`, CORS, the HTML page and everything after the three checks of `process_image`. These are transport and I/O.
- `ImagenesPipeline.ByKind`: does not model the insertion order of the `por_tipo` dictionary, which only shows in JSON output, because a Dafny map has no order.
- Unicode beyond the alphabet above: `\d`, `\s`, `\w`, `lower` and `isupper` on other characters. The model is confined to ASCII plus `³`, `€` and `£`.
- Text.IsWordChar, Text.LowerChar, Text.IsUpper: the OCR whitelists admit `ÁÉÍÓÚáéíóúÑñ` (extractor_rojo.py:140, extractor_imagenes.py:68), and the one at extractor_rojo.py:140 also admits `Σ` and `−`. The model treats all of these as characters that are neither letters nor word characters. In Python the letters among them are word characters and have a case. This changes three things:
  - where `\b` falls, so a digit run next to `Ñ` is an 'entero' in the model but not in Python;
  - whether a line counts as a title: Python finds `ÉÑ` upper case, where the model finds no cased character, and finds `PEñA` not upper case, where the model sees no lower-case letter;
  - what `lower` returns: Python maps `Á` to `á`, and the model leaves it unchanged.
- Python's `list.sort` is a library call. It is modelled by its specification (a stable insertion sort, `RojoRegions.SortByY`), not by Timsort.
- The single loop functions of the code are modelled as several loop methods, one for each loop. Examples: `TokenizeMatches` and `CollectTokens` for the nested loops of `extraer_numeros`; `ReadAreas` for the areas loop of `procesar_caudalimetro`.
