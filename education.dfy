/**
 * `extract_education_from_resume`: the stripped lines of the text that mention, ignoring case,
 * one of the fifteen qualification keywords, in text order and with repeats kept.
 */
module Education {
  import opened Text

  const Qualifications: seq<string> := [
    "Bachelor's Degree", "Master's Degree", "Doctorate", "PhD",
    "Diploma", "Certification", "Year", "Grade", "Percentage",
    "College", "college", "University", "university", "HSC", "SSC"
  ]

  /** The `k`-th keyword, lower-cased, occurs in the lower-cased line. */
  predicate MentionsAt(line: string, k: nat)
    requires k < |Qualifications|
  {
    Contains(Lower(line), Lower(Qualifications[k]))
  }

  /** Some keyword occurs in the line, ignoring case. */
  predicate MentionsQualification(line: string) {
    exists k :: 0 <= k < |Qualifications| && MentionsAt(line, k)
  }

  /** What the extractor keeps from `lines`, defined line by line from the front. */
  function EducationLines(lines: seq<string>): seq<string> {
    if |lines| == 0 then []
    else
      var last := lines[|lines| - 1];
      EducationLines(lines[..|lines| - 1]) + (if MentionsQualification(last) then [Strip(last)] else [])
  }

  /** `extract_education_from_resume`: the loop over the lines. */
  method ExtractEducation(text: string) returns (education: seq<string>)
    ensures education == EducationLines(Split(text, '\n'))
  {
    var lines := Split(text, '\n');
    education := [];
    for i := 0 to |lines|
      invariant education == EducationLines(lines[..i])
    {
      var line := lines[i];
      var found := FindQualification(line);
      if found {
        education := education + [Strip(line)];
      }
      assert lines[..i + 1][..i] == lines[..i];
    }
    assert lines[..|lines|] == lines;
  }

  /** The inner loop over the keywords, left at the first one the line mentions. */
  method FindQualification(line: string) returns (found: bool)
    ensures found == MentionsQualification(line)
  {
    var lowered := Lower(line);
    var q := 0;
    found := false;
    while q < |Qualifications|
      invariant q <= |Qualifications|
      invariant !found
      invariant forall m :: 0 <= m < q ==> !MentionsAt(line, m)
    {
      if Contains(lowered, Lower(Qualifications[q])) {
        assert MentionsAt(line, q);
        found := true;
        break;
      }
      q := q + 1;
    }
  }

  /** The indices of the lines that mention a keyword, in increasing order. */
  function MatchingIndices(lines: seq<string>): seq<nat> {
    if |lines| == 0 then []
    else
      var n := |lines| - 1;
      MatchingIndices(lines[..n]) + (if MentionsQualification(lines[n]) then [n] else [])
  }

  /**
   * The result is exactly the stripped lines that mention a keyword, in order: the `i`-th entry
   * is the stripped `I[i]`-th line, where `I` lists, in increasing order, every index whose line
   * mentions a keyword and no other.
   */
  lemma {:induction false} EducationIndices(lines: seq<string>)
    ensures var ix := MatchingIndices(lines);
            (forall i :: 0 <= i < |ix| ==> ix[i] < |lines|)
            && (forall i, j :: 0 <= i < j < |ix| ==> ix[i] < ix[j])
            && (forall k :: 0 <= k < |lines| ==> (MentionsQualification(lines[k]) <==> k in ix))
            && |EducationLines(lines)| == |ix|
            && forall i :: 0 <= i < |ix| ==> EducationLines(lines)[i] == Strip(lines[ix[i]])
  {
    if |lines| > 0 {
      var n := |lines| - 1;
      var front := lines[..n];
      EducationIndices(front);
      assert forall k :: 0 <= k < n ==> front[k] == lines[k];
    }
  }

  /** The result is computed line by line: splitting the lines splits the result, repeats included. */
  lemma {:induction false} EducationLinesAppend(a: seq<string>, b: seq<string>)
    ensures EducationLines(a + b) == EducationLines(a) + EducationLines(b)
    decreases |b|
  {
    if |b| > 0 {
      var n := |b| - 1;
      assert (a + b)[..|a + b| - 1] == a + b[..n];
      assert (a + b)[|a + b| - 1] == b[n];
      EducationLinesAppend(a, b[..n]);
    } else {
      assert a + b == a;
    }
  }

  /** No more entries than lines. */
  lemma {:induction false} EducationLinesBound(lines: seq<string>)
    ensures |EducationLines(lines)| <= |lines|
  {
    if |lines| > 0 {
      EducationLinesBound(lines[..|lines| - 1]);
    }
  }

  lemma LowerIdempotent(s: string)
    ensures Lower(Lower(s)) == Lower(s)
  {
  }

  /** Whether a line is kept does not depend on its case. */
  lemma MentionsIgnoresCase(line: string)
    ensures MentionsQualification(Lower(line)) == MentionsQualification(line)
  {
    LowerIdempotent(line);
    assert forall k :: 0 <= k < |Qualifications| ==> (MentionsAt(Lower(line), k) == MentionsAt(line, k));
  }

  /** A line shorter than every keyword is never kept. */
  lemma ShortLineDropped(line: string)
    requires |line| < 3
    ensures !MentionsQualification(line)
  {
    forall k | 0 <= k < |Qualifications| ensures !MentionsAt(line, k) {
      assert |Qualifications[k]| >= 3;
    }
  }

  /** Example: a degree line is kept, stripped; a line too short for any keyword is dropped. */
  lemma EducationExample(line: string, lines: seq<string>)
    requires line == " Bachelor's Degree in CS, XYZ University "
    requires lines == [line, "hi"]
    ensures EducationLines(lines) == ["Bachelor's Degree in CS, XYZ University"]
  {
    DegreeLine(line);
    ShortLineDropped("hi");
    KeptThenDropped(line, "hi");
    assert EducationLines([line, "hi"]) == [Strip(line)];
  }

  lemma KeptThenDropped(a: string, b: string)
    requires MentionsQualification(a) && !MentionsQualification(b)
    ensures EducationLines([a, b]) == [Strip(a)]
  {
    assert [a, b][..1] == [a];
    assert [a][..0] == [];
    assert EducationLines([a]) == EducationLines([]) + [Strip(a)];
    assert EducationLines([a, b]) == EducationLines([a]) + [];
  }

  lemma DegreeLine(line: string)
    requires line == " Bachelor's Degree in CS, XYZ University "
    ensures MentionsQualification(line)
    ensures Strip(line) == "Bachelor's Degree in CS, XYZ University"
  {
    DegreeLineLower(line);
    DegreeLower();
    var deg := "bachelor's degree";
    var lowered := " " + deg + " in cs, xyz university ";
    assert lowered[1..18] == deg;
    assert OccursAt(lowered, deg, 1);
    assert MentionsAt(line, 0);
    DegreeLineStrip(line);
  }

  lemma DegreeLineLower(line: string)
    requires line == " Bachelor's Degree in CS, XYZ University "
    ensures Lower(line) == " " + "bachelor's degree" + " in cs, xyz university "
  {
  }

  lemma DegreeLower()
    ensures Lower(Qualifications[0]) == "bachelor's degree"
  {
  }

  lemma DegreeLineStrip(line: string)
    requires line == " Bachelor's Degree in CS, XYZ University "
    ensures Strip(line) == "Bachelor's Degree in CS, XYZ University"
  {
    assert StripLeft(line) == line[1..];
    assert StripRight(line[1..]) == line[1..|line| - 1];
  }
}
