/** The upload extension whitelist (`ALLOWED_EXTENSIONS` and `allowed_file`). */
module AllowedFiles {
  import Text

  /** The fixed, compiled-in set of accepted extensions. */
  const ALLOWED_EXTENSIONS: set<string> := {"png", "jpg", "jpeg", "gif"}

  /** Whether `ext`, lower-cased, is one of the allowed extensions. */
  predicate AllowedExtension(ext: string) {
    Text.Lower(ext) in ALLOWED_EXTENSIONS
  }

  /** `allowed_file`: the name contains a '.', and the text after its last
      '.', lower-cased, is one of the allowed extensions. */
  function AllowedFile(filename: string): (ok: bool)
    ensures ok ==> '.' in filename
  {
    '.' in filename && AllowedExtension(Text.RSplitOnce(filename, '.')[1])
  }

  /** A name without any '.' is always rejected. */
  lemma NoDotRejected(filename: string)
    requires '.' !in filename
    ensures !AllowedFile(filename)
  {
  }

  /** Only the suffix after the last '.' matters: whatever the prefix
      (further dots included), the verdict is that of the suffix. */
  lemma SuffixDecides(prefix: string, ext: string)
    requires '.' !in ext
    ensures AllowedFile(prefix + "." + ext) <==> AllowedExtension(ext)
  {
    Text.RSplitOnceOfJoin(prefix, '.', ext);
  }

  /** The verdict is that of the text after the last '.', when there is one. */
  lemma LastDotDecides(filename: string, i: int)
    requires 0 <= i < |filename| && filename[i] == '.' && '.' !in filename[i + 1..]
    ensures AllowedFile(filename) <==> AllowedExtension(filename[i + 1..])
  {
    Text.SplitAround(filename, i);
    SuffixDecides(filename[..i], filename[i + 1..]);
  }

  /** Reference characterisation: a name is allowed exactly when it splits
      as `stem + "." + ext` with no '.' in `ext` and an allowed `ext`. */
  lemma AllowedFileCharacterised(filename: string)
    ensures AllowedFile(filename) <==>
      exists i :: 0 <= i < |filename| && filename[i] == '.' && '.' !in filename[i + 1..]
                  && AllowedExtension(filename[i + 1..])
  {
    if AllowedFile(filename) {
      var i := Text.LastIndexOf(filename, '.').value;
      LastDotDecides(filename, i);
    }
    if exists i :: 0 <= i < |filename| && filename[i] == '.' && '.' !in filename[i + 1..]
                  && AllowedExtension(filename[i + 1..]) {
      var i :| 0 <= i < |filename| && filename[i] == '.' && '.' !in filename[i + 1..]
               && AllowedExtension(filename[i + 1..]);
      LastDotDecides(filename, i);
    }
  }

  /** The check ignores letter case: lower-casing the name first changes nothing. */
  lemma CaseInsensitive(filename: string)
    ensures AllowedFile(Text.Lower(filename)) == AllowedFile(filename)
  {
    var lower := Text.Lower(filename);
    if '.' in filename {
      var i := Text.LastIndexOf(filename, '.').value;
      LastDotDecides(filename, i);
      Text.LowerKeepsDots(filename, i);
      forall j | i + 1 <= j < |lower| ensures lower[j] != '.' {
        Text.LowerKeepsDots(filename, j);
      }
      assert '.' !in lower[i + 1..];
      LastDotDecides(lower, i);
      Text.LowerSlice(filename, i + 1);
      Text.LowerIdempotent(filename[i + 1..]);
    } else {
      forall j | 0 <= j < |lower| ensures lower[j] != '.' {
        Text.LowerKeepsDots(filename, j);
      }
    }
  }

  /** Several dots and an upper-case extension: accepted. */
  lemma AcceptsMultiDotUpperCase()
    ensures AllowedFile("A.TAR.PNG")
  {
    assert Text.Lower("PNG") == "png";
    SuffixDecides("A.TAR", "PNG");
    assert "A.TAR" + "." + "PNG" == "A.TAR.PNG";
  }

  /** A name that is only a '.' and an extension: accepted. */
  lemma AcceptsBareExtension()
    ensures AllowedFile(".png")
  {
    assert Text.Lower("png") == "png";
    SuffixDecides("", "png");
    assert "" + "." + "png" == ".png";
  }

  /** A plain lower-case name with one '.': accepted. */
  lemma AcceptsPlainJpg()
    ensures AllowedFile("cat.jpg")
  {
    assert Text.Lower("jpg") == "jpg";
    SuffixDecides("cat", "jpg");
    assert "cat" + "." + "jpg" == "cat.jpg";
  }

  /** An extension outside the set: rejected. */
  lemma RejectsForeignExtension()
    ensures !AllowedFile("photo.txt")
  {
    assert Text.Lower("txt") == "txt";
    assert Text.Lower("txt") !in ALLOWED_EXTENSIONS;
    SuffixDecides("photo", "txt");
    assert "photo" + "." + "txt" == "photo.txt";
  }

  /** A trailing '.' leaves an empty extension: rejected. */
  lemma RejectsEmptyExtension()
    ensures !AllowedFile("file.")
  {
    assert Text.Lower("") == "";
    assert Text.Lower("") !in ALLOWED_EXTENSIONS;
    SuffixDecides("file", "");
    assert "file" + "." + "" == "file.";
  }
}
