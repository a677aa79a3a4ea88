/**
 * The checks app.py makes on an upload before saving it: `allowed_file` and
 * the early returns of `process_image`.
 */
module App {
  import opened Wrappers
  import opened Text

  /** `ALLOWED_EXTENSIONS`. */
  const AllowedExtensions: set<string> := {"png", "jpg", "jpeg", "gif", "webp"}

  /** `filename.rsplit('.', 1)[1]`: the text after the last dot. */
  function AfterLastDot(s: string): (ext: string)
    requires '.' in s
    ensures |ext| < |s| && ext == s[|s| - |ext|..]
    ensures s[|s| - |ext| - 1] == '.'
    ensures forall j :: 0 <= j < |ext| ==> ext[j] != '.'
  {
    if s[|s| - 1] == '.' then ""
    else
      assert '.' in s[..|s| - 1] by {
        var i :| 0 <= i < |s| && s[i] == '.';
        assert s[..|s| - 1][i] == '.';
      }
      var ext := AfterLastDot(s[..|s| - 1]);
      assert s[..|s| - 1][|s| - 1 - |ext|..] + [s[|s| - 1]] == s[|s| - |ext| - 1..];
      ext + [s[|s| - 1]]
  }

  /** `allowed_file`: there is a dot, and the lower-cased text after the last one is an allowed extension. */
  function AllowedFile(filename: string): bool {
    '.' in filename && Lower(AfterLastDot(filename)) in AllowedExtensions
  }

  /** `i` is the position of the last dot. */
  ghost predicate LastDotAt(s: string, i: int) {
    0 <= i < |s| && s[i] == '.' && forall j :: i < j < |s| ==> s[j] != '.'
  }

  /**
   * A name is allowed exactly when it has a last dot and what follows it,
   * lower-cased, is one of the allowed extensions; a name without a dot is
   * never allowed.
   */
  lemma AllowedFileIff(filename: string)
    ensures AllowedFile(filename) <==>
      exists i :: LastDotAt(filename, i) && Lower(filename[i + 1..]) in AllowedExtensions
    ensures (forall j :: 0 <= j < |filename| ==> filename[j] != '.') ==> !AllowedFile(filename)
  {
    if '.' in filename {
      var ext := AfterLastDot(filename);
      var i := |filename| - |ext| - 1;
      AfterLastDotAt(filename);
      assert LastDotAt(filename, i) && filename[i + 1..] == ext;
      forall k | LastDotAt(filename, k) ensures filename[k + 1..] == ext {
        LastDotUnique(filename, i, k);
      }
    } else {
      forall k | 0 <= k < |filename| ensures !LastDotAt(filename, k) {
        assert filename[k] != '.';
      }
    }
  }

  /** The extension starts right after the last dot. */
  lemma AfterLastDotAt(s: string)
    requires '.' in s
    ensures LastDotAt(s, |s| - |AfterLastDot(s)| - 1)
    ensures s[|s| - |AfterLastDot(s)|..] == AfterLastDot(s)
  {
    var ext := AfterLastDot(s);
    var i := |s| - |ext| - 1;
    forall j | i < j < |s| ensures s[j] != '.' {
      assert s[j] == ext[j - i - 1];
    }
  }

  lemma LastDotUnique(s: string, i: int, k: int)
    requires LastDotAt(s, i) && LastDotAt(s, k)
    ensures i == k
  {
  }

  /**
   * Only the last extension counts and case does not matter; an empty
   * extension is refused, an empty stem is not, and a name without a dot is
   * refused.
   */
  lemma AllowedFileExamples()
    ensures AllowedFile("a.tar.PNG")
    ensures !AllowedFile("name.")
    ensures AllowedFile(".png")
    ensures !AllowedFile("png")
  {
    LastExtensionCounts();
    EmptyExtensionRefused();
    EmptyStemAllowed();
    AllowedFileIff("png");
  }

  lemma LastExtensionCounts()
    ensures AllowedFile("a.tar.PNG")
  {
    var f := "a.tar.PNG";
    assert LastDotAt(f, 5);
    assert f[6..] == "PNG";
    assert Lower("PNG") == "png";
    AllowedFileIff(f);
  }

  lemma EmptyExtensionRefused()
    ensures !AllowedFile("name.")
  {
    var f := "name.";
    assert f[4] == '.';
    assert AfterLastDot(f) == "";
  }

  lemma EmptyStemAllowed()
    ensures AllowedFile(".png")
  {
    var f := ".png";
    assert LastDotAt(f, 0);
    assert f[1..] == "png";
    assert Lower("png") == "png";
    AllowedFileIff(f);
  }

  // ---------------------------------------------------------------------
  // process_image

  const NoImageMessage: string := "No se proporcion\U{F3} ninguna imagen"
  const NoFileMessage: string := "No se seleccion\U{F3} ning\U{FA}n archivo"
  const BadTypeMessage: string := "Tipo de archivo no permitido"

  /** The outcome of the checks: a 400 answer, or the name of the file to save and process. */
  datatype Check = Rejected(status: nat, error: string) | Accepted(filename: string)

  /**
   * The checks of `process_image` on the `image` entry of the request
   * (`None` when the request has none), in the order the code makes them.
   * Every refusal is a 400, and a file reaches the save only when all
   * three checks pass.
   */
  function CheckUpload(image: Option<string>): (r: Check)
    ensures r.Rejected? ==> r.status == 400
    ensures image.None? <==> r == Rejected(400, NoImageMessage)
    ensures image == Some("") <==> r == Rejected(400, NoFileMessage)
    ensures (image.Some? && image.value != "" && !AllowedFile(image.value)) <==> r == Rejected(400, BadTypeMessage)
    ensures r.Accepted? <==> image.Some? && image.value != "" && AllowedFile(image.value)
    ensures r.Accepted? ==> r.filename == image.value
  {
    if image.None? then Rejected(400, NoImageMessage)
    else if image.value == "" then Rejected(400, NoFileMessage)
    else if !AllowedFile(image.value) then Rejected(400, BadTypeMessage)
    else Accepted(image.value)
  }
}
