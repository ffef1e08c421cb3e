/** The upload filter `allowed_file` and the extension set it checks against. */
module Upload {
  import opened Text

  const AllowedExtensions: set<string> := {"pdf", "docx", "jpg", "jpeg", "png"}

  /** The text after the last '.' of `f`. */
  function Extension(f: string): (e: string)
    requires '.' in f
    ensures |e| < |f| && f[|f| - |e| - 1] == '.' && f[|f| - |e|..] == e
    ensures '.' !in e
    decreases |f|
  {
    var last := f[|f| - 1];
    if last == '.' then ""
    else
      assert f == f[..|f| - 1] + [last];
      Extension(f[..|f| - 1]) + [last]
  }

  /** `allowed_file`: there is a '.' and the lower-cased text after the last one is an allowed extension. */
  function AllowedFile(f: string): bool {
    '.' in f && Lower(Extension(f)) in AllowedExtensions
  }

  /** `f[k]` is the last '.' of `f`. */
  predicate LastDotAt(f: string, k: nat) {
    k < |f| && f[k] == '.' && '.' !in f[k + 1..]
  }

  lemma LastDotUnique(f: string, j: nat, k: nat)
    requires LastDotAt(f, j) && LastDotAt(f, k)
    ensures j == k
  {
  }

  /** `allowed_file(f)` holds exactly when the text after the last '.' of `f` is, lower-cased, an allowed extension. */
  lemma AllowedFileIff(f: string)
    ensures AllowedFile(f) <==>
              exists k: nat :: LastDotAt(f, k) && Lower(f[k + 1..]) in AllowedExtensions
  {
    if '.' in f {
      var e := Extension(f);
      var k0 := |f| - |e| - 1;
      assert f[k0 + 1..] == e;
      assert LastDotAt(f, k0);
      forall k: nat | LastDotAt(f, k) ensures k == k0 {
        LastDotUnique(f, k, k0);
      }
    } else {
      forall k: nat | LastDotAt(f, k) ensures false {
      }
    }
  }

  /** Accepted names are exactly those ending in '.' plus an allowed extension, in any case. */
  lemma AllowedFileForms(base: string, ext: string)
    requires '.' !in ext
    ensures AllowedFile(base + "." + ext) <==> Lower(ext) in AllowedExtensions
  {
    var f := base + "." + ext;
    assert f[|base|] == '.';
    assert f[|base| + 1..] == ext;
    assert LastDotAt(f, |base|);
    AllowedFileIff(f);
    forall k: nat | LastDotAt(f, k) ensures k == |base| {
      LastDotUnique(f, k, |base|);
    }
  }

  /** The examples: a name without an extension, with an empty one, or with `txt` is refused; `CV.PDF` is accepted. */
  lemma AllowedFileExamples()
    ensures !AllowedFile("a.")
    ensures !AllowedFile("pdf")
    ensures !AllowedFile("x.txt")
    ensures AllowedFile("CV.PDF")
  {
    assert "a." == "a" + "." + "";
    NamedExample("a", "", false);
    assert '.' !in "pdf";
    assert Lower("txt") == "txt";
    assert "x.txt" == "x" + "." + "txt";
    NamedExample("x", "txt", false);
    assert Lower("PDF") == "pdf";
    assert "CV.PDF" == "CV" + "." + "PDF";
    NamedExample("CV", "PDF", true);
  }

  lemma NamedExample(base: string, ext: string, allowed: bool)
    requires '.' !in ext
    requires allowed <==> Lower(ext) in AllowedExtensions
    ensures AllowedFile(base + "." + ext) == allowed
  {
    AllowedFileForms(base, ext);
  }

  /** An accepted name, lower-cased, ends in one of the suffixes the dispatch tests for. */
  lemma AllowedFileHasKnownSuffix(f: string)
    requires AllowedFile(f)
    ensures var l := Lower(f);
            EndsWith(l, ".pdf") || EndsWith(l, ".docx") || EndsWith(l, ".jpg")
            || EndsWith(l, ".jpeg") || EndsWith(l, ".png")
  {
    var e := Extension(f);
    var k := |f| - |e| - 1;
    var x := Lower(e);
    assert f == f[..k] + ("." + e);
    LowerDotSuffix(f[..k], e);
    SuffixEndsWith(Lower(f[..k]), "." + x);
    ExtensionSuffix(x, Lower(f));
  }

  lemma ExtensionSuffix(x: string, l: string)
    requires x in AllowedExtensions
    requires EndsWith(l, "." + x)
    ensures EndsWith(l, ".pdf") || EndsWith(l, ".docx") || EndsWith(l, ".jpg")
            || EndsWith(l, ".jpeg") || EndsWith(l, ".png")
  {
    if x == "pdf" {
      assert "." + x == ".pdf";
    } else if x == "docx" {
      assert "." + x == ".docx";
    } else if x == "jpg" {
      assert "." + x == ".jpg";
    } else if x == "jpeg" {
      assert "." + x == ".jpeg";
    } else {
      assert "." + x == ".png";
    }
  }

  lemma LowerDotSuffix(p: string, e: string)
    ensures Lower(p + ("." + e)) == Lower(p) + ("." + Lower(e))
  {
    LowerAppend(p, "." + e);
    LowerAppend(".", e);
    assert Lower(".") == ".";
  }

  lemma SuffixEndsWith(p: string, q: string)
    ensures EndsWith(p + q, q)
  {
    assert (p + q)[|p|..] == q;
  }
}
