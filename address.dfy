/**
 * `extract_address_from_resume`: three independent searches over the text, for a city
 * `[\s,]([A-Z][a-zA-Z\s]+),`, a pincode `\b\d{6}\b` and an address span
 * `(?<!\d)[\dA-Za-z\s,-]+\s(?=city|pincode|$)`, and the formatted address
 * "city, pincode, address" when all three are present and non-empty.
 */
module Address {
  import opened Wrappers
  import opened Text
  import opened Regex

  /** The record the extractor returns; `address` is the formatted address. */
  datatype AddressResult = AddressResult(city: Option<string>, pincode: Option<string>, address: Option<string>)

  // The city: `[\s,]([A-Z][a-zA-Z\s]+),`

  /** `[a-zA-Z\s]` */
  predicate IsCityChar(c: char) {
    IsLetter(c) || IsSpace(c)
  }

  /** A city match at `j` whose group ends at `m` (where the closing ',' is). */
  predicate CityParts(s: string, j: nat, m: nat) {
    j + 2 < m < |s|
    && (IsSpace(s[j]) || s[j] == ',') && IsUpper(s[j + 1])
    && AllIn(s, j + 2, m, IsCityChar) && s[m] == ','
  }

  /** The engine at `j`: the class run after the capital is greedy and ',' is outside it, so only its end can work. */
  function CityAt(s: string, j: nat): (r: Option<nat>)
    ensures r.Some? ==> j + 2 < r.value < |s|
  {
    if j + 1 < |s| && (IsSpace(s[j]) || s[j] == ',') && IsUpper(s[j + 1]) then
      var m := j + 2 + RunLength(s, j + 2, IsCityChar);
      if m > j + 2 && m < |s| && s[m] == ',' then Some(m) else None
    else None
  }

  /** The engine at `j` finds exactly the city matches at `j`, and there is at most one. */
  lemma CityAtCorrect(s: string, j: nat, m: nat)
    ensures CityAt(s, j) == Some(m) <==> CityParts(s, j, m)
  {
    if CityParts(s, j, m) {
      RunEnd(s, j + 2, m, IsCityChar);
    }
  }

  function CityMatcher(s: string): nat -> Option<nat> {
    j => CityAt(s, j)
  }

  /** The city: group 1 of the leftmost city match, or `None`. */
  function City(text: string): Option<string> {
    match Search(text, CityMatcher(text))
    case None => None
    case Some((j, m)) => Some(text[j + 1..m])
  }

  /**
   * The city is absent exactly when the pattern matches nowhere; otherwise it is the group of
   * the leftmost match: a capital followed by letters and whitespace, directly before a ','.
   */
  lemma CityIsLeftmostMatch(text: string)
    ensures City(text).None? <==> forall j: nat, m: nat :: !CityParts(text, j, m)
    ensures City(text).Some? ==>
              exists j: nat, m: nat :: CityParts(text, j, m) && City(text).value == text[j + 1..m]
                                       && forall j': nat, m': nat :: j' < j ==> !CityParts(text, j', m')
  {
    var at := CityMatcher(text);
    match Search(text, at)
    case None =>
      forall j: nat, m: nat ensures !CityParts(text, j, m) {
        if j <= |text| {
          assert at(j).None?;
        }
        CityAtCorrect(text, j, m);
      }
    case Some((j, m)) =>
      assert at(j) == Some(m);
      CityAtCorrect(text, j, m);
      forall j': nat, m': nat | j' < j ensures !CityParts(text, j', m') {
        assert at(j').None?;
        CityAtCorrect(text, j', m');
      }
  }

  /** A city found starts with a capital, holds only letters and whitespace, and so holds no ','. */
  lemma CityShape(text: string)
    requires City(text).Some?
    ensures var c := City(text).value;
            |c| >= 2 && IsUpper(c[0]) && (forall k :: 1 <= k < |c| ==> IsCityChar(c[k])) && ',' !in c
  {
    CityIsLeftmostMatch(text);
    var c := City(text).value;
    var j: nat, m: nat :| CityParts(text, j, m) && c == text[j + 1..m];
    assert forall k :: 1 <= k < |c| ==> c[k] == text[j + 1 + k];
  }

  // The pincode: `\b\d{6}\b`

  /** A pincode match at `j`. */
  predicate PincodeAt(s: string, j: nat) {
    j + 6 <= |s| && WordBoundary(s, j) && AllIn(s, j, j + 6, IsDigit) && WordBoundary(s, j + 6)
  }

  function PincodeMatcher(s: string): nat -> Option<nat> {
    j => if PincodeAt(s, j) then Some(j + 6) else None
  }

  /** The pincode: the leftmost pincode match, or `None`. */
  function Pincode(text: string): Option<string> {
    match Search(text, PincodeMatcher(text))
    case None => None
    case Some((j, e)) => Some(text[j..e])
  }

  /**
   * The pincode is absent exactly when no six-digit run stands alone; otherwise it is the
   * leftmost one: six digits, not preceded or followed by a word character.
   */
  lemma PincodeIsLeftmostMatch(text: string)
    ensures Pincode(text).None? <==> forall j: nat :: !PincodeAt(text, j)
    ensures Pincode(text).Some? ==>
              exists j: nat :: PincodeAt(text, j) && Pincode(text).value == text[j..j + 6]
                               && (j == 0 || !IsWordChar(text[j - 1]))
                               && (j + 6 == |text| || !IsWordChar(text[j + 6]))
                               && forall j' :: 0 <= j' < j ==> !PincodeAt(text, j')
  {
    var at := PincodeMatcher(text);
    match Search(text, at)
    case None =>
      forall j: nat ensures !PincodeAt(text, j) {
        if j <= |text| {
          assert at(j).None?;
        }
      }
    case Some((j, e)) =>
      assert at(j) == Some(e);
      assert IsWordChar(text[j]) && IsWordChar(text[j + 5]);
      forall j' | 0 <= j' < j ensures !PincodeAt(text, j') {
        assert at(j').None?;
      }
  }

  // The address span: `(?<!\d)[\dA-Za-z\s,-]+\s(?=city|pincode|$)`

  /** `[\dA-Za-z\s,-]` */
  predicate IsAddressChar(c: char) {
    IsDigit(c) || IsLetter(c) || IsSpace(c) || c == ',' || c == '-'
  }

  /** `(?=city|pincode|$)` at `p`; `$` holds at the end and before a final newline. */
  predicate Lookahead(s: string, p: nat)
    requires p <= |s|
  {
    StartsWith(s[p..], "city") || StartsWith(s[p..], "pincode") || p == |s| || (p + 1 == |s| && s[p] == '\n')
  }

  /** An address match `s[j..e]`: the class run `s[j..e-1]`, then the whitespace `s[e-1]`, then the lookahead. */
  predicate AddressParts(s: string, j: nat, e: nat) {
    j + 1 < e <= |s|
    && (j == 0 || !IsDigit(s[j - 1]))
    && AllIn(s, j, e - 1, IsAddressChar) && IsSpace(s[e - 1]) && Lookahead(s, e)
  }

  /** The engine backtracking the class run: the whitespace tried at `k`, `k - 1`, ..., `j + 1` in turn. */
  function SpanFrom(s: string, j: nat, k: nat): (r: Option<nat>)
    ensures r.Some? ==> j + 1 < r.value <= k + 1 && r.value <= |s|
    ensures r.Some? ==> IsSpace(s[r.value - 1]) && Lookahead(s, r.value)
    ensures r.Some? ==> forall q :: r.value <= q <= k && q < |s| ==> !(IsSpace(s[q]) && Lookahead(s, q + 1))
    ensures r.None? ==> forall q :: j < q <= k && q < |s| ==> !(IsSpace(s[q]) && Lookahead(s, q + 1))
    decreases k
  {
    if k <= j then None
    else if k < |s| && IsSpace(s[k]) && Lookahead(s, k + 1) then Some(k + 1)
    else SpanFrom(s, j, k - 1)
  }

  /** The engine at `j`: the end of the longest address match there. */
  function AddressAt(s: string, j: nat): (r: Option<nat>)
    ensures r.Some? ==> j < r.value <= |s|
  {
    if j > |s| || (j > 0 && IsDigit(s[j - 1])) then None
    else SpanFrom(s, j, j + RunLength(s, j, IsAddressChar))
  }

  /** What the engine reports at `j` is a match. */
  lemma AddressAtSound(s: string, j: nat)
    requires AddressAt(s, j).Some?
    ensures AddressParts(s, j, AddressAt(s, j).value)
  {
    var e := AddressAt(s, j).value;
    var n := RunLength(s, j, IsAddressChar);
    assert AllIn(s, j, e - 1, IsAddressChar) by {
      assert e - 1 <= j + n;
    }
  }

  /** Every match at `j` ends at or before the end the engine reports there. */
  lemma AddressAtComplete(s: string, j: nat, e: nat)
    requires AddressParts(s, j, e)
    ensures AddressAt(s, j).Some? && e <= AddressAt(s, j).value
  {
    assert AllIn(s, j, e, IsAddressChar);
    RunCovers(s, j, e, IsAddressChar);
  }

  /** The engine at `j` succeeds exactly when the pattern matches at `j`, and reports the longest match there. */
  lemma AddressAtCorrect(s: string, j: nat)
    ensures AddressAt(s, j).Some? <==> exists e: nat :: AddressParts(s, j, e)
    ensures AddressAt(s, j).Some? ==>
              AddressParts(s, j, AddressAt(s, j).value)
              && forall e: nat :: AddressParts(s, j, e) ==> e <= AddressAt(s, j).value
  {
    if AddressAt(s, j).Some? {
      AddressAtSound(s, j);
    }
    forall e: nat | AddressParts(s, j, e) ensures AddressAt(s, j).Some? && e <= AddressAt(s, j).value {
      AddressAtComplete(s, j, e);
    }
  }

  function AddressMatcher(s: string): nat -> Option<nat> {
    j => AddressAt(s, j)
  }

  /** The address span: the leftmost address match with surrounding whitespace stripped, or `None`. */
  function AddressSpan(text: string): Option<string> {
    match Search(text, AddressMatcher(text))
    case None => None
    case Some((j, e)) => Some(Strip(text[j..e]))
  }

  /**
   * The address span is absent exactly when the pattern matches nowhere; otherwise it is the
   * stripped longest match at the leftmost index where the pattern matches.
   */
  lemma AddressSpanIsLeftmostMatch(text: string)
    ensures AddressSpan(text).None? <==> forall j: nat, e: nat :: !AddressParts(text, j, e)
    ensures AddressSpan(text).Some? ==>
              exists j: nat, e: nat :: AddressParts(text, j, e) && AddressSpan(text).value == Strip(text[j..e])
                                       && (forall e': nat :: AddressParts(text, j, e') ==> e' <= e)
                                       && forall j': nat, e': nat :: j' < j ==> !AddressParts(text, j', e')
  {
    var at := AddressMatcher(text);
    match Search(text, at)
    case None =>
      forall j: nat, e: nat ensures !AddressParts(text, j, e) {
        if j <= |text| {
          assert at(j).None?;
        }
        AddressAtCorrect(text, j);
      }
    case Some((j, e)) =>
      assert at(j) == Some(e);
      AddressAtCorrect(text, j);
      forall j': nat, e': nat | j' < j ensures !AddressParts(text, j', e') {
        assert at(j').None?;
        AddressAtCorrect(text, j');
      }
  }

  // The formatted address

  /** Python truthiness of an optional string: present and non-empty. */
  predicate Truthy(o: Option<string>) {
    o.Some? && o.value != ""
  }

  /** The three parts joined by ", " when each is present and non-empty; `None` otherwise. */
  function Formatted(city: Option<string>, pincode: Option<string>, span: Option<string>): (r: Option<string>)
    ensures r.Some? <==> Truthy(city) && Truthy(pincode) && Truthy(span)
  {
    if Truthy(city) && Truthy(pincode) && Truthy(span) then
      Some(city.value + ", " + pincode.value + ", " + span.value)
    else None
  }

  /** `extract_address_from_resume` */
  function ExtractAddress(text: string): AddressResult {
    AddressResult(City(text), Pincode(text), Formatted(City(text), Pincode(text), AddressSpan(text)))
  }

  /**
   * The formatted address is present exactly when a city, a pincode and a non-empty stripped
   * span are all found, and then it is the three joined by ", ".
   */
  lemma FormattedAddressIff(text: string)
    ensures var r := ExtractAddress(text);
            r.city == City(text) && r.pincode == Pincode(text)
            && (r.address.Some? <==> City(text).Some? && Pincode(text).Some? && Truthy(AddressSpan(text)))
            && (r.address.Some? ==>
                  r.address.value == City(text).value + ", " + Pincode(text).value + ", " + AddressSpan(text).value)
  {
    if City(text).Some? {
      CityShape(text);
    }
    if Pincode(text).Some? {
      PincodeIsLeftmostMatch(text);
    }
  }

  /** The city comes back out of the formatted address: it is the text before the first ','. */
  lemma FormattedAddressStartsWithCity(text: string)
    requires ExtractAddress(text).address.Some?
    ensures var v := ExtractAddress(text).address.value;
            var c := City(text).value;
            |c| < |v| && v[..|c|] == c && v[|c|] == ',' && ',' !in c
  {
    var city, pin, span := City(text), Pincode(text), AddressSpan(text);
    assert ExtractAddress(text).address == Formatted(city, pin, span);
    CityShape(text);
    FormattedStartsWithCity(city, pin, span);
  }

  lemma FormattedStartsWithCity(city: Option<string>, pincode: Option<string>, span: Option<string>)
    requires Formatted(city, pincode, span).Some?
    ensures var v := Formatted(city, pincode, span).value;
            |city.value| < |v| && v[..|city.value|] == city.value && v[|city.value|] == ','
  {
    var c := city.value;
    var rest := ", " + pincode.value + ", " + span.value;
    assert Formatted(city, pincode, span).value == c + rest;
  }
}
