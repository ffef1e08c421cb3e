/**
 * `extract_contact_number_from_resume`: the first match of
 *   \b(?:\+?\d{1,3}[-.\s]?)?\(?\d{3}\)?[-.\s]?\d{3}[-.\s]?\d{4}\b
 * in the text. The pattern's language is given by `PhoneEnd`, where a `PhoneChoice` says which
 * optional parts a match uses; `PhoneAt` is the regex engine at one position: it tries the
 * country code with 3, 2 and 1 digits and then without it, each optional character greedily.
 */
module Contact {
  import opened Wrappers
  import opened Text
  import opened Regex

  /** `[-.\s]` */
  predicate IsSeparator(c: char) {
    c == '-' || c == '.' || IsSpace(c)
  }

  predicate IsPlus(c: char) {
    c == '+'
  }

  predicate IsOpenParen(c: char) {
    c == '('
  }

  predicate IsCloseParen(c: char) {
    c == ')'
  }

  /** How a match uses the group `(?:\+?\d{1,3}[-.\s]?)`: with or without '+', how many digits, with or without a separator. */
  datatype CountryCode = CountryCode(plus: bool, digits: nat, sep: bool)

  /** Which optional parts of the pattern a match uses. */
  datatype PhoneChoice = PhoneChoice(country: Option<CountryCode>, openParen: bool, closeParen: bool, sep1: bool, sep2: bool)

  /** An optional character: when taken it must be there. */
  function Opt(s: string, p: nat, take: bool, P: char -> bool): (r: Option<nat>)
    ensures r.Some? ==> r.value == if take then p + 1 else p
  {
    if !take then Some(p)
    else if p < |s| && P(s[p]) then Some(p + 1)
    else None
  }

  /** `\d{n}` */
  function Digits(s: string, p: nat, n: nat): (r: Option<nat>)
    ensures r.Some? ==> r.value == p + n <= |s|
  {
    if p + n <= |s| && AllIn(s, p, p + n, IsDigit) then Some(p + n) else None
  }

  /** The part `(?:\+?\d{1,3}[-.\s]?)?` as chosen. */
  function CountryEnd(s: string, p: nat, country: Option<CountryCode>): (r: Option<nat>)
    ensures r.Some? ==> p <= r.value
  {
    match country
    case None => Some(p)
    case Some(cc) =>
      var q :- Opt(s, p, cc.plus, IsPlus);
      if 1 <= cc.digits <= 3 then
        var d :- Digits(s, q, cc.digits);
        Opt(s, d, cc.sep, IsSeparator)
      else None
  }

  /** The part `\(?\d{3}\)?[-.\s]?\d{3}[-.\s]?\d{4}\b` as chosen, tried at `p`. */
  function BodyEnd(s: string, p: nat, c: PhoneChoice): (r: Option<nat>)
    ensures r.Some? ==> p + 10 <= r.value <= |s|
  {
    var p2 :- Opt(s, p, c.openParen, IsOpenParen);
    var p3 :- Digits(s, p2, 3);
    var p4 :- Opt(s, p3, c.closeParen, IsCloseParen);
    var p5 :- Opt(s, p4, c.sep1, IsSeparator);
    var p6 :- Digits(s, p5, 3);
    var p7 :- Opt(s, p6, c.sep2, IsSeparator);
    var p8 :- Digits(s, p7, 4);
    if WordBoundary(s, p8) then Some(p8) else None
  }

  /** Where a match tried at `i` with the optional parts chosen by `c` ends, if it exists. */
  function PhoneEnd(s: string, i: nat, c: PhoneChoice): (r: Option<nat>)
    ensures r.Some? ==> i + 10 <= r.value <= |s|
  {
    if !WordBoundary(s, i) then None
    else
      var p :- CountryEnd(s, i, c.country);
      BodyEnd(s, p, c)
  }

  /** `s[i..e]` is a match of the pattern. */
  ghost predicate PhoneMatch(s: string, i: nat, e: nat) {
    exists c: PhoneChoice :: PhoneEnd(s, i, c) == Some(e)
  }

  /** How many country-code digits a choice uses (0 for none): the engine prefers more. */
  function Rank(c: PhoneChoice): nat {
    CountryDigits(c.country)
  }

  function CountryDigits(country: Option<CountryCode>): nat {
    if country.Some? then country.value.digits else 0
  }

  function Has(s: string, p: nat, P: char -> bool): bool {
    p < |s| && P(s[p])
  }

  function Skip(p: nat, taken: bool): nat {
    if taken then p + 1 else p
  }

  /** The country code the engine tries at `i` with `digits` digits (0: none); '+' is taken when it is there. */
  function GreedyCountry(s: string, i: nat, digits: nat): Option<CountryCode> {
    if digits == 0 then None
    else
      var plus := Has(s, i, IsPlus);
      Some(CountryCode(plus, digits, Has(s, Skip(i, plus) + digits, IsSeparator)))
  }

  /** Where the country code `cc`, taken at `i`, would end. */
  function AfterCountry(i: nat, country: Option<CountryCode>): nat {
    match country
    case None => i
    case Some(cc) => Skip(Skip(i, cc.plus) + cc.digits, cc.sep)
  }

  /** The rest of the engine's choice after the country code ends at `p`: each optional character is taken when it is there. */
  function GreedyBody(s: string, p: nat, country: Option<CountryCode>): PhoneChoice {
    var open := Has(s, p, IsOpenParen);
    var q3 := Skip(p, open) + 3;
    var close := Has(s, q3, IsCloseParen);
    var q4 := Skip(q3, close);
    var sep1 := Has(s, q4, IsSeparator);
    var q5 := Skip(q4, sep1) + 3;
    PhoneChoice(country, open, close, sep1, Has(s, q5, IsSeparator))
  }

  /**
   * The choice the engine makes at `i` with a country code of `digits` digits (0: none): every
   * optional character is taken when it is there.
   */
  function GreedyChoice(s: string, i: nat, digits: nat): PhoneChoice {
    var country := GreedyCountry(s, i, digits);
    GreedyBody(s, AfterCountry(i, country), country)
  }

  /** The first of 3, 2 and 1 country-code digits with which the engine's try at `i` matches, or 0. */
  function BestRank(s: string, i: nat): (k: nat)
    ensures k <= 3
  {
    if PhoneEnd(s, i, GreedyChoice(s, i, 3)).Some? then 3
    else if PhoneEnd(s, i, GreedyChoice(s, i, 2)).Some? then 2
    else if PhoneEnd(s, i, GreedyChoice(s, i, 1)).Some? then 1
    else 0
  }

  /**
   * The engine at one position: the first of the greedy tries with 3, 2, 1 and 0 country-code
   * digits that matches.
   */
  function PhoneAt(s: string, i: nat): (r: Option<nat>)
    ensures r.Some? ==> i + 10 <= r.value <= |s|
  {
    PhoneEnd(s, i, GreedyChoice(s, i, BestRank(s, i)))
  }

  /**
   * In a match every optional character is used exactly when it is there (skipping one leaves
   * a character that the next mandatory digit cannot take), so a match is determined by its
   * country-code digit count.
   */
  lemma ForcedChoice(s: string, i: nat, c: PhoneChoice)
    requires PhoneEnd(s, i, c).Some?
    ensures c == GreedyChoice(s, i, Rank(c))
  {
    var p := CountryEnd(s, i, c.country).value;
    ForcedCountry(s, i, c);
    ForcedBody(s, p, c);
  }

  lemma ForcedCountry(s: string, i: nat, c: PhoneChoice)
    requires CountryEnd(s, i, c.country).Some?
    requires BodyEnd(s, CountryEnd(s, i, c.country).value, c).Some?
    ensures c.country == GreedyCountry(s, i, Rank(c))
    ensures CountryEnd(s, i, c.country).value == AfterCountry(i, c.country)
  {
    if c.country.Some? {
      var cc := c.country.value;
      OptBeforeDigits(s, i, cc.plus, IsPlus, cc.digits);
      var q := Opt(s, i, cc.plus, IsPlus).value;
      var d := Digits(s, q, cc.digits).value;
      OptOptBeforeDigits(s, d, cc.sep, IsSeparator, c.openParen, IsOpenParen, 3);
    }
  }

  lemma ForcedBody(s: string, p: nat, c: PhoneChoice)
    requires BodyEnd(s, p, c).Some?
    ensures c == GreedyBody(s, p, c.country)
  {
    OptBeforeDigits(s, p, c.openParen, IsOpenParen, 3);
    var p2 := Opt(s, p, c.openParen, IsOpenParen).value;
    var p3 := Digits(s, p2, 3).value;
    OptOptBeforeDigits(s, p3, c.closeParen, IsCloseParen, c.sep1, IsSeparator, 3);
    var p4 := Opt(s, p3, c.closeParen, IsCloseParen).value;
    OptBeforeDigits(s, p4, c.sep1, IsSeparator, 3);
    var p5 := Opt(s, p4, c.sep1, IsSeparator).value;
    var p6 := Digits(s, p5, 3).value;
    OptBeforeDigits(s, p6, c.sep2, IsSeparator, 4);
  }

  /** An optional character followed by a digit is taken exactly when it is there. */
  lemma OptBeforeDigits(s: string, p: nat, take: bool, P: char -> bool, n: nat)
    requires n >= 1
    requires Opt(s, p, take, P).Some? && Digits(s, Opt(s, p, take, P).value, n).Some?
    requires p < |s| && P(s[p]) ==> !IsDigit(s[p])
    ensures take == Has(s, p, P)
  {
    if !take {
      assert IsDigit(s[p]);
    }
  }

  /** The same for an optional character followed by another optional character that cannot be equal to it and then a digit. */
  lemma OptOptBeforeDigits(s: string, p: nat, take: bool, P: char -> bool, take2: bool, P2: char -> bool, n: nat)
    requires n >= 1
    requires Opt(s, p, take, P).Some?
    requires Opt(s, Opt(s, p, take, P).value, take2, P2).Some?
    requires Digits(s, Opt(s, Opt(s, p, take, P).value, take2, P2).value, n).Some?
    requires p < |s| && P(s[p]) ==> !IsDigit(s[p]) && !P2(s[p])
    ensures take == Has(s, p, P)
  {
    if !take && !take2 {
      assert IsDigit(s[p]);
    }
  }

  /**
   * `s[i..e]` is the match the engine reports at `i`: a match whose country code has at least as
   * many digits as any other match at `i` (none counting as 0).
   */
  ghost predicate PreferredMatch(s: string, i: nat, e: nat) {
    exists c: PhoneChoice :: PhoneEnd(s, i, c) == Some(e)
                             && forall c': PhoneChoice :: PhoneEnd(s, i, c').Some? ==> Rank(c') <= Rank(c)
  }

  /** A match at `i` is the one the engine's try with the same number of country-code digits finds. */
  lemma MatchIsGreedy(s: string, i: nat, c: PhoneChoice)
    requires PhoneEnd(s, i, c).Some?
    ensures Rank(c) <= 3
    ensures PhoneEnd(s, i, GreedyChoice(s, i, Rank(c))) == PhoneEnd(s, i, c)
  {
    ForcedChoice(s, i, c);
  }

  lemma GreedyRank(s: string, i: nat, k: nat)
    ensures Rank(GreedyChoice(s, i, k)) == k
  {
  }

  /** Any match at `i` has at most as many country-code digits as the engine's, and the engine succeeds. */
  lemma MatchBelowBest(s: string, i: nat, c: PhoneChoice)
    requires PhoneEnd(s, i, c).Some?
    ensures Rank(c) <= BestRank(s, i)
    ensures PhoneAt(s, i).Some?
  {
    MatchIsGreedy(s, i, c);
    var k := Rank(c);
    assert PhoneEnd(s, i, GreedyChoice(s, i, k)).Some?;
    if k == 3 {
      assert PhoneEnd(s, i, GreedyChoice(s, i, 3)).Some?;
    } else if k == 2 {
      assert PhoneEnd(s, i, GreedyChoice(s, i, 2)).Some?;
    } else if k == 1 {
      assert PhoneEnd(s, i, GreedyChoice(s, i, 1)).Some?;
    }
  }

  /** The engine at `i` succeeds exactly when the pattern matches at `i`, and reports the preferred match. */
  lemma PhoneAtCorrect(s: string, i: nat)
    ensures PhoneAt(s, i).Some? <==> exists e: nat :: PhoneMatch(s, i, e)
    ensures PhoneAt(s, i).Some? ==> PreferredMatch(s, i, PhoneAt(s, i).value)
  {
    var best := GreedyChoice(s, i, BestRank(s, i));
    forall c: PhoneChoice | PhoneEnd(s, i, c).Some?
      ensures Rank(c) <= BestRank(s, i) && PhoneAt(s, i).Some?
    {
      MatchBelowBest(s, i, c);
    }
    if PhoneAt(s, i).Some? {
      GreedyRank(s, i, BestRank(s, i));
      assert PhoneEnd(s, i, best) == Some(PhoneAt(s, i).value);
      assert PhoneMatch(s, i, PhoneAt(s, i).value);
    }
  }

  function ContactMatcher(s: string): nat -> Option<nat> {
    j => PhoneAt(s, j)
  }

  /** `extract_contact_number_from_resume`: the text of the first match, or `None`. */
  function ExtractContactNumber(text: string): Option<string> {
    match Search(text, ContactMatcher(text))
    case None => None
    case Some((i, e)) => Some(text[i..e])
  }

  /** Where the engine fails there is no match; a match cannot start past the end of the text. */
  lemma NoMatchWhereEngineFails(s: string, j: nat)
    requires j > |s| || PhoneAt(s, j).None?
    ensures forall e: nat :: !PhoneMatch(s, j, e)
  {
    PhoneAtCorrect(s, j);
  }

  /** The contact number is absent exactly when the pattern matches nowhere in the text. */
  lemma ContactNumberAbsent(text: string)
    ensures ExtractContactNumber(text).None? <==> forall j: nat, e: nat :: !PhoneMatch(text, j, e)
  {
    var m := ContactMatcher(text);
    match Search(text, m)
    case None =>
      forall j: nat, e': nat ensures !PhoneMatch(text, j, e') {
        if j <= |text| {
          assert m(j).None?;
        }
        NoMatchWhereEngineFails(text, j);
      }
    case Some((i, e)) =>
      assert m(i).Some?;
      PhoneAtCorrect(text, i);
  }

  /**
   * A contact number found is the match at the leftmost index where the pattern matches, and
   * among the matches there the one with the longest country code.
   */
  lemma ContactNumberIsLeftmostMatch(text: string)
    requires ExtractContactNumber(text).Some?
    ensures exists i: nat, e: nat :: i <= e <= |text| && ExtractContactNumber(text).value == text[i..e]
                                     && PreferredMatch(text, i, e) && PhoneMatch(text, i, e)
                                     && forall j: nat, e': nat :: j < i ==> !PhoneMatch(text, j, e')
  {
    var m := ContactMatcher(text);
    var (i, e) := Search(text, m).value;
    assert m(i) == Some(e);
    PhoneAtCorrect(text, i);
    forall j: nat, e': nat | j < i ensures !PhoneMatch(text, j, e') {
      assert m(j).None?;
      NoMatchWhereEngineFails(text, j);
    }
  }

  /** A match starts with a digit, a '+' or a '('. */
  lemma PhoneStart(s: string, i: nat, c: PhoneChoice)
    requires PhoneEnd(s, i, c).Some?
    ensures i < |s| && (IsDigit(s[i]) || IsPlus(s[i]) || IsOpenParen(s[i]))
  {
    if c.country.Some? {
      if !c.country.value.plus {
        assert Digits(s, i, c.country.value.digits).Some?;
        assert AllIn(s, i, i + c.country.value.digits, IsDigit);
      }
    } else if !c.openParen {
      assert Digits(s, i, 3).Some?;
      assert AllIn(s, i, i + 3, IsDigit);
    }
  }

  /** The engine fails at a character that cannot start a match. */
  lemma NoPhoneAt(s: string, i: nat)
    requires i < |s| && !IsDigit(s[i]) && !IsPlus(s[i]) && !IsOpenParen(s[i])
    ensures PhoneAt(s, i).None?
  {
    if PhoneAt(s, i).Some? {
      PhoneStart(s, i, GreedyChoice(s, i, BestRank(s, i)));
    }
  }

  /** Example: a number after a label is found whole; the label's positions do not match. */
  lemma ContactNumberExample()
    ensures ExtractContactNumber("Contact: 123-456-7890") == Some("123-456-7890")
  {
    var s := "Contact: 123-456-7890";
    ExampleSearch(s);
    ExampleSlice(s);
  }

  lemma ExampleSlice(s: string)
    requires s == "Contact: 123-456-7890"
    ensures s[9..21] == "123-456-7890"
  {
  }

  lemma ExampleSearch(s: string)
    requires s == "Contact: 123-456-7890"
    ensures ExtractContactNumber(s) == Some(s[9..21])
  {
    ExampleLabel(s);
    ExamplePhoneAt(s);
    SearchFinds(s, ContactMatcher(s), 9, 21);
  }

  lemma ExampleLabel(s: string)
    requires s == "Contact: 123-456-7890"
    ensures forall k :: 0 <= k < 9 ==> PhoneAt(s, k).None?
  {
    NoPhoneBefore(s, 9);
  }

  /** The engine fails everywhere in a prefix holding no digit, '+' or '('. */
  lemma NoPhoneBefore(s: string, n: nat)
    requires n <= |s|
    requires forall k :: 0 <= k < n ==> !IsDigit(s[k]) && !IsPlus(s[k]) && !IsOpenParen(s[k])
    ensures forall k :: 0 <= k < n ==> PhoneAt(s, k).None?
  {
    forall k | 0 <= k < n ensures PhoneAt(s, k).None? {
      NoPhoneAt(s, k);
    }
  }

  lemma ExamplePhoneAt(s: string)
    requires s == "Contact: 123-456-7890"
    ensures PhoneAt(s, 9) == Some(21)
  {
    ExampleTry3(s);
    ExampleTry2(s);
    ExampleTry1(s);
    ExampleTry0(s);
    assert BestRank(s, 9) == 0;
  }

  lemma ExampleTry3(s: string)
    requires s == "Contact: 123-456-7890"
    ensures PhoneEnd(s, 9, GreedyChoice(s, 9, 3)).None?
  {
    assert GreedyChoice(s, 9, 3) == PhoneChoice(Some(CountryCode(false, 3, true)), false, false, true, false);
    assert Digits(s, 20, 4).None?;
    assert BodyEnd(s, 13, GreedyChoice(s, 9, 3)).None?;
  }

  lemma ExampleTry2(s: string)
    requires s == "Contact: 123-456-7890"
    ensures PhoneEnd(s, 9, GreedyChoice(s, 9, 2)).None?
  {
    assert GreedyChoice(s, 9, 2) == PhoneChoice(Some(CountryCode(false, 2, false)), false, false, false, false);
    assert !IsDigit(s[12]);
    assert Digits(s, 11, 3).None?;
  }

  lemma ExampleTry1(s: string)
    requires s == "Contact: 123-456-7890"
    ensures PhoneEnd(s, 9, GreedyChoice(s, 9, 1)).None?
  {
    assert GreedyChoice(s, 9, 1) == PhoneChoice(Some(CountryCode(false, 1, false)), false, false, false, true);
    assert !IsDigit(s[12]);
    assert Digits(s, 10, 3).None?;
  }

  lemma ExampleTry0(s: string)
    requires s == "Contact: 123-456-7890"
    ensures PhoneEnd(s, 9, GreedyChoice(s, 9, 0)) == Some(21)
  {
    assert WordBoundary(s, 9);
    assert GreedyChoice(s, 9, 0) == PhoneChoice(None, false, false, true, true);
    assert Digits(s, 9, 3) == Some(12);
    assert Digits(s, 13, 3) == Some(16);
    assert Digits(s, 17, 4) == Some(21);
    assert WordBoundary(s, 21);
  }
}
