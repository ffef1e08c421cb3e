/**
 * `extract_email_from_resume`: the first match of
 *   \b[A-Za-z0-9._%+-]+@[A-Za-z0-9.-]+\.[A-Za-z]{2,}\b
 * in the text. `EmailParts` gives the pattern's language by the positions of '@' and of the dot
 * before the top-level domain; `EmailAt` is the regex engine at one position, which (the domain
 * part being greedy) tries the dot positions from the right.
 */
module Email {
  import opened Wrappers
  import opened Text
  import opened Regex

  /** `[A-Za-z0-9._%+-]` */
  predicate IsLocalChar(c: char) {
    IsLetter(c) || IsDigit(c) || c == '.' || c == '_' || c == '%' || c == '+' || c == '-'
  }

  /** `[A-Za-z0-9.-]` */
  predicate IsDomainChar(c: char) {
    IsLetter(c) || IsDigit(c) || c == '.' || c == '-'
  }

  /**
   * `s[i..e]` matches the pattern with the '@' at `a` and the dot before the top-level domain
   * at `d`.
   */
  predicate EmailParts(s: string, i: nat, a: nat, d: nat, e: nat) {
    i < a < d < e <= |s| && a + 1 < d && d + 3 <= e
    && WordBoundary(s, i)
    && AllIn(s, i, a, IsLocalChar) && s[a] == '@'
    && AllIn(s, a + 1, d, IsDomainChar) && s[d] == '.'
    && AllIn(s, d + 1, e, IsLetter) && WordBoundary(s, e)
  }

  ghost predicate EmailMatch(s: string, i: nat, e: nat) {
    exists a: nat, d: nat :: EmailParts(s, i, a, d, e)
  }

  /** `\.[A-Za-z]{2,}\b` tried with the dot at `d`: only the longest letter run can end at `\b`. */
  function TldEnd(s: string, d: nat): (r: Option<nat>)
    requires d < |s|
    ensures r.Some? ==> d + 3 <= r.value <= |s|
  {
    var n := RunLength(s, d + 1, IsLetter);
    if s[d] == '.' && n >= 2 && WordBoundary(s, d + 1 + n) then Some(d + 1 + n) else None
  }

  /** The engine backtracking the domain part: the dot positions `d`, `d - 1`, ..., `a + 2` in turn. */
  function DotFrom(s: string, a: nat, d: nat): (r: Option<(nat, nat)>)
    requires d < |s|
    ensures r.Some? ==> a + 2 <= r.value.0 <= d && TldEnd(s, r.value.0) == Some(r.value.1)
    ensures r.Some? ==> forall k :: r.value.0 < k <= d ==> TldEnd(s, k).None?
    ensures r.None? ==> forall k :: a + 2 <= k <= d ==> TldEnd(s, k).None?
    decreases d
  {
    if d < a + 2 then None
    else if TldEnd(s, d).Some? then Some((d, TldEnd(s, d).value))
    else DotFrom(s, a, d - 1)
  }

  /** The engine at one position: the dot and the end of the match it finds there, if any. */
  function EmailTry(s: string, i: nat): Option<(nat, nat)> {
    if !WordBoundary(s, i) then None
    else
      var a := i + RunLength(s, i, IsLocalChar);
      if a == i || a == |s| || s[a] != '@' then None
      else DotFrom(s, a, a + RunLength(s, a + 1, IsDomainChar))
  }

  function EmailAt(s: string, i: nat): (r: Option<nat>)
    ensures r.Some? ==> i < r.value <= |s|
  {
    match EmailTry(s, i)
    case None => None
    case Some((_, e)) => Some(e)
  }

  /** In a match, the '@' is where the local part's greedy run ends. */
  lemma AtForced(s: string, i: nat, a: nat, d: nat, e: nat)
    requires EmailParts(s, i, a, d, e)
    ensures a == i + RunLength(s, i, IsLocalChar)
  {
    RunEnd(s, i, a, IsLocalChar);
  }

  /** In a match, the end is where the letter run after the dot ends, so the dot determines the match. */
  lemma TldForced(s: string, i: nat, a: nat, d: nat, e: nat)
    requires EmailParts(s, i, a, d, e)
    ensures TldEnd(s, d) == Some(e)
  {
    assert IsLetter(s[e - 1]);
    if e < |s| {
      assert !IsWordChar(s[e]);
    }
    RunEnd(s, d + 1, e, IsLetter);
  }

  /** In a match, the dot lies inside the greedy domain run. */
  lemma DotInDomainRun(s: string, i: nat, a: nat, d: nat, e: nat)
    requires EmailParts(s, i, a, d, e)
    ensures d <= a + RunLength(s, a + 1, IsDomainChar)
  {
    assert AllIn(s, a + 1, d + 1, IsDomainChar);
    RunCovers(s, a + 1, d + 1, IsDomainChar);
  }

  /** What the engine reports is a match, with the dot it used. */
  lemma EmailTrySound(s: string, i: nat)
    requires EmailTry(s, i).Some?
    ensures var (d, e) := EmailTry(s, i).value;
            EmailParts(s, i, i + RunLength(s, i, IsLocalChar), d, e)
  {
    var a := i + RunLength(s, i, IsLocalChar);
    var (d, e) := EmailTry(s, i).value;
    var m := a + RunLength(s, a + 1, IsDomainChar);
    assert AllIn(s, a + 1, d, IsDomainChar) by {
      assert AllIn(s, a + 1, m + 1, IsDomainChar);
    }
    var n := RunLength(s, d + 1, IsLetter);
    assert e == d + 1 + n;
  }

  /** Every match at `i` has its dot at or left of the dot the engine reports there. */
  lemma EmailTryComplete(s: string, i: nat, a: nat, d: nat, e: nat)
    requires EmailParts(s, i, a, d, e)
    ensures EmailTry(s, i).Some? && d <= EmailTry(s, i).value.0
  {
    AtForced(s, i, a, d, e);
    TldForced(s, i, a, d, e);
    DotInDomainRun(s, i, a, d, e);
  }

  /**
   * The engine at `i` succeeds exactly when the pattern matches at `i`; it reports the match whose
   * top-level-domain dot is rightmost, the one the greedy domain part reaches first.
   */
  lemma EmailAtCorrect(s: string, i: nat)
    ensures EmailAt(s, i).Some? <==> exists e: nat :: EmailMatch(s, i, e)
    ensures EmailAt(s, i).Some? ==>
              exists a: nat, d: nat :: EmailParts(s, i, a, d, EmailAt(s, i).value)
                                       && forall a': nat, d': nat, e': nat :: EmailParts(s, i, a', d', e') ==> d' <= d
  {
    if EmailTry(s, i).Some? {
      EmailTrySound(s, i);
      var a := i + RunLength(s, i, IsLocalChar);
      var (d, e) := EmailTry(s, i).value;
      assert EmailMatch(s, i, e);
      forall a': nat, d': nat, e': nat | EmailParts(s, i, a', d', e') ensures d' <= d {
        EmailTryComplete(s, i, a', d', e');
      }
    } else {
      forall e: nat ensures !EmailMatch(s, i, e) {
        forall a: nat, d: nat | EmailParts(s, i, a, d, e) ensures false {
          EmailTryComplete(s, i, a, d, e);
        }
      }
    }
  }

  function EmailMatcher(s: string): nat -> Option<nat> {
    j => EmailAt(s, j)
  }

  /** `extract_email_from_resume`: the text of the first match, or `None`. */
  function ExtractEmail(text: string): Option<string> {
    match Search(text, EmailMatcher(text))
    case None => None
    case Some((i, e)) => Some(text[i..e])
  }

  lemma NoEmailWhereEngineFails(s: string, j: nat)
    requires j > |s| || EmailAt(s, j).None?
    ensures forall e: nat :: !EmailMatch(s, j, e)
  {
    EmailAtCorrect(s, j);
  }

  /** The email is absent exactly when the pattern matches nowhere in the text. */
  lemma EmailAbsent(text: string)
    ensures ExtractEmail(text).None? <==> forall j: nat, e: nat :: !EmailMatch(text, j, e)
  {
    var m := EmailMatcher(text);
    match Search(text, m)
    case None =>
      forall j: nat, e': nat ensures !EmailMatch(text, j, e') {
        if j <= |text| {
          assert m(j).None?;
        }
        NoEmailWhereEngineFails(text, j);
      }
    case Some((i, e)) =>
      assert m(i).Some?;
      EmailAtCorrect(text, i);
  }

  /**
   * An email found is the match at the leftmost index where the pattern matches, and among the
   * matches there the one whose top-level-domain dot is rightmost.
   */
  lemma EmailIsLeftmostMatch(text: string)
    requires ExtractEmail(text).Some?
    ensures exists i: nat, a: nat, d: nat, e: nat ::
              EmailParts(text, i, a, d, e) && ExtractEmail(text).value == text[i..e]
              && (forall a': nat, d': nat, e': nat :: EmailParts(text, i, a', d', e') ==> d' <= d)
              && forall j: nat, e': nat :: j < i ==> !EmailMatch(text, j, e')
  {
    var m := EmailMatcher(text);
    var (i, e) := Search(text, m).value;
    assert m(i) == Some(e);
    EmailAtCorrect(text, i);
    forall j: nat, e': nat | j < i ensures !EmailMatch(text, j, e') {
      assert m(j).None?;
      NoEmailWhereEngineFails(text, j);
    }
  }

  /**
   * What an address match looks like: a non-empty local part, exactly one '@', and a final dot
   * followed by at least two letters and nothing else.
   */
  lemma EmailShape(s: string, i: nat, a: nat, d: nat, e: nat)
    requires EmailParts(s, i, a, d, e)
    ensures var r := s[i..e];
            0 < a - i && r[a - i] == '@' && (forall k :: 0 <= k < |r| && r[k] == '@' ==> k == a - i)
            && r[d - i] == '.' && e - d - 1 >= 2 && AllIn(r, d - i + 1, |r|, IsLetter)
  {
    var r := s[i..e];
    forall k | 0 <= k < |r| && r[k] == '@' ensures k == a - i {
      assert r[k] == s[i + k];
    }
  }

  /**
   * Example: an address inside a sentence is found whole; the words before it do not match,
   * and the word after it is not part of the match.
   */
  lemma EmailExample()
    ensures ExtractEmail("email me at a.b@test.org please") == Some("a.b@test.org")
  {
    var s := "email me at a.b@test.org please";
    ExampleSearch(s);
    ExampleSlice(s);
  }

  lemma ExampleSearch(s: string)
    requires s == "email me at a.b@test.org please"
    ensures ExtractEmail(s) == Some(s[12..24])
  {
    ExampleWords(s);
    ExampleTry(s);
    SearchFinds(s, EmailMatcher(s), 12, 24);
  }

  lemma ExampleSlice(s: string)
    requires s == "email me at a.b@test.org please"
    ensures s[12..24] == "a.b@test.org"
  {
  }

  lemma ExampleWords(s: string)
    requires s == "email me at a.b@test.org please"
    ensures forall k :: 0 <= k < 12 ==> EmailAt(s, k).None?
  {
    NoEmailInRun(s, 0, 5);
    NoEmailInRun(s, 6, 8);
    NoEmailInRun(s, 9, 11);
  }

  /** The engine fails throughout a run of local-part characters that is not followed by '@'. */
  lemma NoEmailInRun(s: string, i: nat, q: nat)
    requires i <= q < |s| && AllIn(s, i, q, IsLocalChar) && !IsLocalChar(s[q]) && s[q] != '@'
    ensures forall k :: i <= k <= q ==> EmailAt(s, k).None?
  {
    forall k | i <= k <= q ensures EmailAt(s, k).None? {
      RunEnd(s, k, q, IsLocalChar);
    }
  }

  lemma ExampleTry(s: string)
    requires s == "email me at a.b@test.org please"
    ensures EmailAt(s, 12) == Some(24)
  {
    ExampleRuns(s);
    ExampleDot(s);
  }

  lemma ExampleRuns(s: string)
    requires s == "email me at a.b@test.org please"
    ensures RunLength(s, 12, IsLocalChar) == 3 && s[15] == '@'
    ensures RunLength(s, 16, IsDomainChar) == 8
  {
    ExampleLocalRun(s);
    ExampleDomainRun(s);
  }

  lemma ExampleLocalRun(s: string)
    requires s == "email me at a.b@test.org please"
    ensures RunLength(s, 12, IsLocalChar) == 3 && s[15] == '@'
  {
    assert AllIn(s, 12, 15, IsLocalChar) by {
      assert IsLocalChar(s[12]) && IsLocalChar(s[13]) && IsLocalChar(s[14]);
    }
    RunEnd(s, 12, 15, IsLocalChar);
  }

  lemma ExampleDomainRun(s: string)
    requires s == "email me at a.b@test.org please"
    ensures RunLength(s, 16, IsDomainChar) == 8
  {
    assert AllIn(s, 16, 24, IsDomainChar) by {
      assert s[16..24] == "test.org";
      forall k | 16 <= k < 24 ensures IsDomainChar(s[k]) {
        assert s[k] == s[16..24][k - 16];
      }
    }
    RunEnd(s, 16, 24, IsDomainChar);
  }

  lemma ExampleDot(s: string)
    requires s == "email me at a.b@test.org please"
    ensures DotFrom(s, 15, 24) == Some((20, 24))
  {
    assert TldEnd(s, 24).None? && TldEnd(s, 23).None? && TldEnd(s, 22).None? by {
      assert s[24] != '.' && s[23] != '.' && s[22] != '.';
    }
    assert TldEnd(s, 21).None? by {
      assert s[21] != '.';
    }
    RunEnd(s, 21, 24, IsLetter);
    assert TldEnd(s, 20) == Some(24);
  }

  /** Example: a one-letter top-level domain does not match. */
  lemma ShortDomainExample(s: string)
    requires s == "x@y.c"
    ensures forall e: nat :: !EmailMatch(s, 0, e)
  {
    RunEnd(s, 0, 1, IsLocalChar);
    RunEnd(s, 2, 5, IsDomainChar);
    RunEnd(s, 4, 5, IsLetter);
    assert TldEnd(s, 4).None? && TldEnd(s, 3).None?;
    assert EmailAt(s, 0).None?;
    EmailAtCorrect(s, 0);
  }
}
