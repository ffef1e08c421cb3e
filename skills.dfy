/**
 * `extract_skills_from_resume`: `re.findall` of `\b(?:t1|t2|...)\b` over the twenty skill terms,
 * ignoring case, lower-cased into a set. `SkillAt` is the regex engine at one position: the
 * alternatives are tried in list order, and one that matches is kept only if `\b` follows it.
 * `Spans` is the left-to-right scan of `re.findall`, which resumes after each match.
 */
module Skills {
  import opened Wrappers
  import opened Text
  import opened Regex

  const SkillTerms: seq<string> := [
    "Python", "Java", "C++", "Machine Learning", "Data Analysis",
    "Project Management", "JavaScript", "HTML", "CSS", "SQL", "R",
    "Statistical Analysis", "Artificial Intelligence", "Deep Learning",
    "Natural Language Processing", "Computer Vision", "Problem Solving",
    "Communication Skills", "Teamwork", "Time Management"
  ]

  /** The skill terms as the result reports them. */
  function LowerTerms(): (r: set<string>)
    ensures forall x :: x in r <==> exists k :: 0 <= k < |SkillTerms| && x == Lower(SkillTerms[k])
  {
    set k | 0 <= k < |SkillTerms| :: Lower(SkillTerms[k])
  }

  /** Term `t` occurs at `j`, ignoring case. */
  predicate MatchesAt(s: string, j: nat, t: string) {
    j + |t| <= |s| && Lower(s[j..j + |t|]) == Lower(t)
  }

  /** Term `k` matches at `j` and is followed by `\b`. */
  predicate TermFits(s: string, j: nat, k: nat)
    requires k < |SkillTerms|
  {
    MatchesAt(s, j, SkillTerms[k]) && WordBoundary(s, j + |SkillTerms[k]|)
  }

  /** The alternatives from `k` on, tried in order at `j`: the index of the first that fits. */
  function TermFrom(s: string, j: nat, k: nat): (r: Option<nat>)
    requires k <= |SkillTerms|
    ensures r.Some? ==> k <= r.value < |SkillTerms| && TermFits(s, j, r.value)
    ensures r.Some? ==> forall m :: k <= m < r.value ==> !TermFits(s, j, m)
    ensures r.None? ==> forall m :: k <= m < |SkillTerms| ==> !TermFits(s, j, m)
    decreases |SkillTerms| - k
  {
    if k == |SkillTerms| then None
    else if TermFits(s, j, k) then Some(k)
    else TermFrom(s, j, k + 1)
  }

  /** The engine at `j`: the end of the match there, if any. */
  function SkillAt(s: string, j: nat): (r: Option<nat>)
    ensures r.Some? ==> j < r.value <= |s|
  {
    if !WordBoundary(s, j) then None
    else
      match TermFrom(s, j, 0)
      case None => None
      case Some(k) => Some(j + |SkillTerms[k]|)
  }

  function SkillMatcher(s: string): (at: nat -> Option<nat>)
    ensures Advances(|s|, at)
  {
    j => SkillAt(s, j)
  }

  /** The matches `re.findall` reports, as (start, end) pairs. */
  function Spans(s: string): seq<(nat, nat)> {
    Scan(|s|, SkillMatcher(s), 0)
  }

  /** `re.findall`: the matched texts, in order. */
  function FindAll(s: string): (r: seq<string>)
    ensures |r| == |Spans(s)|
    ensures forall i :: 0 <= i < |r| ==> r[i] == s[Spans(s)[i].0..Spans(s)[i].1]
  {
    var sp := Spans(s);
    seq(|sp|, i requires 0 <= i < |sp| => s[sp[i].0..sp[i].1])
  }

  /** What `extract_skills_from_resume` reports: the distinct lower-cased matches. */
  function SkillSet(text: string): set<string> {
    set i | 0 <= i < |FindAll(text)| :: Lower(FindAll(text)[i])
  }

  /** `extract_skills_from_resume`: the loop that collects the lower-cased matches into a set. */
  method ExtractSkills(text: string) returns (skills: set<string>)
    ensures skills == SkillSet(text)
  {
    var matches := FindAll(text);
    skills := {};
    for n := 0 to |matches|
      invariant skills == set i | 0 <= i < n :: Lower(matches[i])
    {
      skills := skills + {Lower(matches[n])};
    }
  }

  /** Every reported match is, ignoring case, one of the terms. */
  lemma MatchIsTerm(s: string, j: nat, e: nat)
    requires SkillAt(s, j) == Some(e)
    ensures Lower(s[j..e]) in LowerTerms()
  {
    var k := TermFrom(s, j, 0).value;
    assert Lower(s[j..e]) == Lower(SkillTerms[k]);
  }

  /** Every skill reported is one of the lower-cased terms. */
  lemma SkillsAreTerms(text: string)
    ensures forall i :: 0 <= i < |FindAll(text)| ==> Lower(FindAll(text)[i]) in LowerTerms()
  {
    var sp := Spans(text);
    forall i | 0 <= i < |FindAll(text)| ensures Lower(FindAll(text)[i]) in LowerTerms() {
      assert SkillMatcher(text)(sp[i].0) == Some(sp[i].1);
      MatchIsTerm(text, sp[i].0, sp[i].1);
    }
  }

  /** No skill is reported exactly when the pattern matches nowhere in the text. */
  lemma NoSkillsIffNoMatch(text: string)
    ensures |FindAll(text)| == 0 <==> forall k :: 0 <= k <= |text| ==> SkillAt(text, k).None?
  {
    var sp := Spans(text);
    if |sp| > 0 {
      assert SkillMatcher(text)(sp[0].0).Some?;
    }
    if exists k :: 0 <= k <= |text| && SkillAt(text, k).Some? {
      var k :| 0 <= k <= |text| && SkillAt(text, k).Some?;
      assert SkillMatcher(text)(k).Some?;
      var i := ScanCovers(|text|, SkillMatcher(text), 0, k);
    }
  }

  /**
   * "C++" ends in a non-word character, so the `\b` after it holds only when a word character
   * follows: "C++" followed by a space, a comma or the end of the text is not reported.
   */
  lemma CppNeedsWordCharAfter(s: string, j: nat, e: nat)
    requires SkillAt(s, j) == Some(e) && Lower(s[j..e]) == "c++"
    ensures e < |s| && IsWordChar(s[e])
  {
    var k := TermFrom(s, j, 0).value;
    assert TermFits(s, j, k);
    assert s[e - 1] == s[j..e][2];
    assert LowerChar(s[e - 1]) == '+';
  }

  /** When no alternative from `k` on fits, the engine reports none. */
  lemma {:induction false} TermFromNone(s: string, j: nat, k: nat)
    requires k <= |SkillTerms|
    requires forall m :: k <= m < |SkillTerms| ==> !TermFits(s, j, m)
    ensures TermFrom(s, j, k).None?
    decreases |SkillTerms| - k
  {
    if k < |SkillTerms| {
      TermFromNone(s, j, k + 1);
    }
  }

  /** Every term starts with a letter. */
  lemma TermsStartWithLetter()
    ensures forall k :: 0 <= k < |SkillTerms| ==> |SkillTerms[k]| > 0 && IsLetter(SkillTerms[k][0])
  {
  }

  /** No term matches at the end of the text or at a character that is not a letter. */
  lemma NoTermAt(s: string, j: nat)
    requires j == |s| || (j < |s| && !IsLetter(s[j]))
    ensures TermFrom(s, j, 0).None?
  {
    TermsStartWithLetter();
    forall k | 0 <= k < |SkillTerms| ensures !TermFits(s, j, k) {
    }
    TermFromNone(s, j, 0);
  }

  /**
   * Example: the same term on three lines, each in a different case, is reported three times
   * and collapses to one entry.
   */
  lemma SkillsExample()
    ensures FindAll("Python\npython\nPYTHON") == ["Python", "python", "PYTHON"]
    ensures SkillSet("Python\npython\nPYTHON") == {"python"}
  {
    var s := "Python\npython\nPYTHON";
    ExampleSpans(s);
    ExampleFindAll(s);
    ExampleSet(s);
  }

  lemma ExampleSpans(s: string)
    requires s == "Python\npython\nPYTHON"
    ensures Spans(s) == [(0, 6), (7, 13), (14, 20)]
  {
    ExampleLines(s);
    ExampleGaps(s);
    ExampleScan(s);
  }

  /** Each of the three lines is the first term, in some case, between two word boundaries. */
  lemma ExampleLines(s: string)
    requires s == "Python\npython\nPYTHON"
    ensures |s| == 20
    ensures forall j :: j == 0 || j == 7 || j == 14 ==> PythonLine(s, j)
  {
    ExampleLower();
    assert s[0..6] == "Python" && s[7..13] == "python" && s[14..20] == "PYTHON";
  }

  predicate PythonLine(s: string, j: nat) {
    j + 6 <= |s| && Lower(s[j..j + 6]) == "python" && WordBoundary(s, j) && WordBoundary(s, j + 6)
  }

  /** "python", in any case, standing alone is reported by the first alternative. */
  lemma PythonAt(s: string, j: nat)
    requires PythonLine(s, j)
    ensures SkillAt(s, j) == Some(j + 6)
  {
    assert Lower(SkillTerms[0]) == "python";
    assert TermFits(s, j, 0);
  }

  lemma ExampleGaps(s: string)
    requires s == "Python\npython\nPYTHON"
    ensures SkillAt(s, 6).None? && SkillAt(s, 13).None? && SkillAt(s, 20).None?
  {
    assert |s| == 20 && s[6] == '\n' && s[13] == '\n';
    NoTermAt(s, 6);
    NoTermAt(s, 13);
    NoTermAt(s, 20);
  }

  lemma ExampleScan(s: string)
    requires |s| == 20
    requires PythonLine(s, 0) && PythonLine(s, 7) && PythonLine(s, 14)
    requires SkillAt(s, 6).None? && SkillAt(s, 13).None? && SkillAt(s, 20).None?
    ensures Spans(s) == [(0, 6), (7, 13), (14, 20)]
  {
    PythonAt(s, 0);
    PythonAt(s, 7);
    PythonAt(s, 14);
    ExampleScanSteps(s);
  }

  lemma ExampleScanSteps(s: string)
    requires |s| == 20
    requires SkillAt(s, 0) == Some(6) && SkillAt(s, 7) == Some(13) && SkillAt(s, 14) == Some(20)
    requires SkillAt(s, 6).None? && SkillAt(s, 13).None? && SkillAt(s, 20).None?
    ensures Spans(s) == [(0, 6), (7, 13), (14, 20)]
  {
    var m := SkillMatcher(s);
    ScanSkip(20, m, 20);
    var t := Scan(20, m, 20);
    assert t == [];
    ScanStep(20, m, 14, 20);
    ScanSkip(20, m, 13);
    ScanStep(20, m, 7, 13);
    ScanSkip(20, m, 6);
    ScanStep(20, m, 0, 6);
    assert Scan(20, m, 0) == [(0, 6)] + ([(7, 13)] + ([(14, 20)] + t));
  }

  lemma ExampleFindAll(s: string)
    requires s == "Python\npython\nPYTHON"
    requires Spans(s) == [(0, 6), (7, 13), (14, 20)]
    ensures FindAll(s) == ["Python", "python", "PYTHON"]
  {
    var r := FindAll(s);
    ExampleSlices(s);
    assert |r| == 3 && r[0] == "Python" && r[1] == "python" && r[2] == "PYTHON";
  }

  lemma ExampleSlices(s: string)
    requires s == "Python\npython\nPYTHON"
    ensures s[0..6] == "Python" && s[7..13] == "python" && s[14..20] == "PYTHON"
  {
  }

  lemma ExampleSet(s: string)
    requires FindAll(s) == ["Python", "python", "PYTHON"]
    ensures SkillSet(s) == {"python"}
  {
    var r := FindAll(s);
    ExampleLower();
    forall x | x in SkillSet(s) ensures x == "python" {
      var i :| 0 <= i < |r| && x == Lower(r[i]);
    }
    assert Lower(r[0]) in SkillSet(s);
  }

  lemma ExampleLower()
    ensures Lower("Python") == "python" && Lower("python") == "python" && Lower("PYTHON") == "python"
  {
  }
}
