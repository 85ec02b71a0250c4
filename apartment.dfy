/**
 * The apartment record and the field extractors of aptmtSrchr.go. Every
 * extractor compiles a fixed pattern, takes the leftmost match with
 * `FindString` and, for the numeric fields, converts it with `Atoi`,
 * ignoring the error (so no match gives 0).
 */
module Apartments {
  import opened Wrappers
  import opened Chars
  import opened Regexp
  import opened Strconv

  /** One listing, compared by all six fields. */
  datatype Apartment = Apartment(
    availDate: string,
    unitTitle: string,
    bedrooms: int,
    sqFootage: int,
    rent: int,
    viewUrl: string)

  /** The texts the crawler reads out of one `.unit-result-item` element. */
  datatype UnitFragments = UnitFragments(
    availDate: string,   // ChildText(".avail-date")
    unitTitle: string,   // ChildText(".unit-title")
    sqFootage: string,   // ChildText(".sq-footage")
    rent: string,        // ChildText(".rent")
    bedrooms: string,    // ChildText(".bedrooms")
    href: string)        // ChildAttr(".unit-link a", "href")

  const BEDROOMS_PATTERN := Digits(1, 2)
  const RENT_PATTERN := Digits(1, 4)
  const SQ_FOOTAGE_PATTERN := Digits(0, 4)
  const DATE_PATTERN := Date
  const ORIGIN := "https://www.uli.com"

  /** `Atoi` of what `FindString` returns for `\d{lo,hi}`: below 10^hi, never negative. */
  lemma ConvertedMatchBound(pat: Pattern, s: string)
    requires pat.Digits? && Compiles(pat)
    ensures 0 <= Atoi(FindString(pat, s)).value < Pow10(pat.hi)
  {
    var m := FindString(pat, s);
    if m != "" {
      AtoiDigits(m, pat.hi);
    }
  }

  /** With no digit in the fragment, `\d{lo,hi}` for lo >= 1 finds nothing and `Atoi("")` gives 0. */
  lemma NoDigitConvertsToZero(pat: Pattern, html: string)
    requires pat.Digits? && 1 <= pat.lo <= pat.hi
    ensures NoDigit(html) ==> Atoi(FindString(pat, html)).value == 0
  {
    if NoDigit(html) {
      NoDigitNoMatch(html, pat.lo, pat.hi);
    }
  }

  /** `\d{0,4}` matches "" at position 0 of a fragment that does not start with a digit. */
  lemma NoLeadingDigitConvertsToZero(html: string)
    ensures html == "" || !IsDigit(html[0]) ==> Atoi(FindString(SQ_FOOTAGE_PATTERN, html)).value == 0
  {
    if html == "" || !IsDigit(html[0]) {
      LeadingDigitsLeftmostLongest(html, 4, 0);
      FindStringIsLeftmostLongest(SQ_FOOTAGE_PATTERN, html, 0, 0);
    }
  }

  /** A date match is never empty, so "" from `FindString` means there is none. */
  lemma DateMatchNonEmpty(html: string)
    ensures FindString(DATE_PATTERN, html) == "" <==> NoMatch(DATE_PATTERN, html)
  {
    var m := FindStringIndex(DATE_PATTERN, html);
    if m.Some? {
      assert IsDateShape(html[m.value.start..m.value.end]);
    }
  }

  /** `getBedrooms`: the first one or two digits of the leftmost digit run. */
  function GetBedrooms(html: string): (r: int)
    ensures 0 <= r <= 99
    ensures NoDigit(html) ==> r == 0
  {
    ConvertedMatchBound(BEDROOMS_PATTERN, html);
    NoDigitConvertsToZero(BEDROOMS_PATTERN, html);
    Atoi(FindString(BEDROOMS_PATTERN, html)).value
  }

  /** `getRent`: the first one to four digits of the leftmost digit run. */
  function GetRent(html: string): (r: int)
    ensures 0 <= r <= 9999
    ensures NoDigit(html) ==> r == 0
  {
    ConvertedMatchBound(RENT_PATTERN, html);
    NoDigitConvertsToZero(RENT_PATTERN, html);
    Atoi(FindString(RENT_PATTERN, html)).value
  }

  /**
   * `getSqFootage`: `\d{0,4}` matches the empty string at position 0, so only
   * the fragment's leading digits are read.
   */
  function GetSqFootage(html: string): (r: int)
    ensures 0 <= r <= 9999
    ensures html == "" || !IsDigit(html[0]) ==> r == 0
  {
    ConvertedMatchBound(SQ_FOOTAGE_PATTERN, html);
    NoLeadingDigitConvertsToZero(html);
    Atoi(FindString(SQ_FOOTAGE_PATTERN, html)).value
  }

  /** `getAvailableDate`: the leftmost `D{1,2}/D{1,2}/D{1,4}` substring, or "". */
  function GetAvailableDate(html: string): (r: string)
    ensures r == "" <==> NoMatch(DATE_PATTERN, html)
    ensures r != "" ==> IsDateShape(r)
  {
    DateMatchNonEmpty(html);
    FindString(DATE_PATTERN, html)
  }

  /** `getViewUrl`: the site origin followed by `href`, unchecked. */
  function GetViewUrl(html: string): (r: string)
    ensures |r| == |ORIGIN| + |html|
    ensures r[..|ORIGIN|] == ORIGIN
  {
    ORIGIN + html
  }

  /** The relative path of a detail URL built by `GetViewUrl`, if it is one. */
  function ViewPath(url: string): Option<string> {
    if |ORIGIN| <= |url| && url[..|ORIGIN|] == ORIGIN then Some(url[|ORIGIN|..]) else None
  }

  lemma ViewPathOfViewUrl(html: string)
    ensures ViewPath(GetViewUrl(html)) == Some(html)
  {
    assert GetViewUrl(html)[|ORIGIN|..] == html;
  }

  lemma ViewUrlOfViewPath(url: string)
    requires ViewPath(url).Some?
    ensures GetViewUrl(ViewPath(url).value) == url
  {
    assert url == url[..|ORIGIN|] + url[|ORIGIN|..];
  }

  /** Distinct hrefs give distinct detail URLs. */
  lemma ViewUrlInjective(p: string, q: string)
    requires GetViewUrl(p) == GetViewUrl(q)
    ensures p == q
  {
    ViewPathOfViewUrl(p);
    ViewPathOfViewUrl(q);
  }

  /** What every record built from fragments satisfies. */
  predicate WellFormed(a: Apartment) {
    && 0 <= a.bedrooms <= 99
    && 0 <= a.sqFootage <= 9999
    && 0 <= a.rent <= 9999
    && (a.availDate == "" || IsDateShape(a.availDate))
    && ViewPath(a.viewUrl).Some?
  }

  /** The record the `.unit-result-item` callback builds from one element. */
  function BuildApartment(f: UnitFragments): (a: Apartment)
    ensures WellFormed(a)
    ensures a.unitTitle == f.unitTitle
    ensures ViewPath(a.viewUrl) == Some(f.href)
  {
    ViewPathOfViewUrl(f.href);
    Apartment(
      GetAvailableDate(f.availDate),
      f.unitTitle,
      GetBedrooms(f.bedrooms),
      GetSqFootage(f.sqFootage),
      GetRent(f.rent),
      GetViewUrl(f.href))
  }

  /**
   * `getBedrooms` reads the value of the first one or two digits of the
   * leftmost digit run: `html[p]` is the first digit and `html[p..e]` is that
   * run cut at two digits.
   */
  lemma GetBedroomsFirstDigits(html: string, p: nat, e: nat)
    requires p < e <= |html| && e - p <= 2 && AllDigits(html[p..e])
    requires NoDigit(html[..p])
    requires e - p == 2 || e == |html| || !IsDigit(html[e])
    ensures GetBedrooms(html) == DecimalValue(html[p..e])
  {
    FirstDigitsLeftmostLongest(html, 2, p, e);
    FindStringIsLeftmostLongest(BEDROOMS_PATTERN, html, p, e);
  }

  /** `getRent` reads the value of the first one to four digits of the leftmost digit run. */
  lemma GetRentFirstDigits(html: string, p: nat, e: nat)
    requires p < e <= |html| && e - p <= 4 && AllDigits(html[p..e])
    requires NoDigit(html[..p])
    requires e - p == 4 || e == |html| || !IsDigit(html[e])
    ensures GetRent(html) == DecimalValue(html[p..e])
  {
    FirstDigitsLeftmostLongest(html, 4, p, e);
    FindStringIsLeftmostLongest(RENT_PATTERN, html, p, e);
  }

  /** `getSqFootage` reads the value of the fragment's first (at most four) leading digits. */
  lemma GetSqFootageLeadingDigits(html: string, e: nat)
    requires e <= |html| && e <= 4 && AllDigits(html[..e])
    requires e == 4 || e == |html| || !IsDigit(html[e])
    ensures GetSqFootage(html) == DecimalValue(html[..e])
  {
    LeadingDigitsLeftmostLongest(html, 4, e);
    FindStringIsLeftmostLongest(SQ_FOOTAGE_PATTERN, html, 0, e);
    assert html[0..e] == html[..e];
  }

  /**
   * When a date-shaped substring exists, `getAvailableDate` returns the one
   * that starts leftmost, with the longest last group.
   */
  lemma GetAvailableDateLeftmost(html: string, p: nat, e: nat)
    requires IsLeftmostLongest(DATE_PATTERN, html, p, e)
    ensures GetAvailableDate(html) == html[p..e]
  {
    FindStringIsLeftmostLongest(DATE_PATTERN, html, p, e);
  }

  lemma BedroomsExample()
    ensures GetBedrooms("2 Bed") == 2
  {
    var s := "2 Bed";
    assert s[0..1] == "2";
    GetBedroomsFirstDigits(s, 0, 1);
  }

  /** Thousands separators are not understood: the match stops at the comma. */
  lemma RentCommaExample()
    ensures GetRent("$1,200") == 1
  {
    var s := "$1,200";
    assert s[1..2] == "1";
    GetRentFirstDigits(s, 1, 2);
  }

  /** At most four digits are read. */
  lemma RentTruncatedExample()
    ensures GetRent("12345") == 1234
  {
    var t := "12345";
    assert t[0..4] == "1234";
    GetRentFirstDigits(t, 0, 4);
    FourDigitsValue();
  }

  lemma FourDigitsValue()
    ensures DecimalValue("1234") == 1234
  {
    assert "1"[..0] == "" && DecimalValue("1") == 1;
    assert "12"[..1] == "1" && DecimalValue("12") == 12;
    assert "123"[..2] == "12" && DecimalValue("123") == 123;
    assert "1234"[..3] == "123";
  }

  lemma SqFootageNoLeadingDigit()
    ensures GetSqFootage("Sq 850") == 0
  {
    var s := "Sq 850";
    assert !IsDigit(s[0]);
  }

  lemma SqFootageLeadingDigits()
    ensures GetSqFootage("850 sq ft") == 850
  {
    var t := "850 sq ft";
    assert t[..3] == "850";
    GetSqFootageLeadingDigits(t, 3);
    assert "850"[..2] == "85" && "85"[..1] == "8" && "8"[..0] == "";
  }

  lemma ViewUrlExample()
    ensures GetViewUrl("/unit/42") == "https://www.uli.com/unit/42"
  {
  }

  lemma DateExample()
    ensures GetAvailableDate("Avail 7/15/2022") == "7/15/2022"
  {
    var s := "Avail 7/15/2022";
    var t := s[6..15];
    assert t == "7/15/2022";
    assert t[..1] == "7" && t[2..4] == "15" && t[5..] == "2022";
    assert DateShapeWith(t, 1, 2);
    forall q, f | 0 <= q < 6 && q <= f <= |s| ensures !IsDateShape(s[q..f]) {
      if f > q {
        assert s[q..f][0] == s[q];
      }
    }
    GetAvailableDateLeftmost(s, 6, 15);
  }

  /** The last group takes at most four digits. */
  lemma DateGreedyExample()
    ensures GetAvailableDate("1/2/20234") == "1/2/2023"
  {
    var s := "1/2/20234";
    var t := s[0..8];
    assert t == "1/2/2023";
    assert t[..1] == "1";
    assert t[2..3] == "2";
    assert t[4..] == "2023";
    assert DateShapeWith(t, 1, 1);
    GetAvailableDateLeftmost(s, 0, 8);
  }

  /** The first group cannot take three digits, so the match starts one later. */
  lemma DateLeftmostExample()
    ensures GetAvailableDate("123/4/5") == "23/4/5"
  {
    var s := "123/4/5";
    var t := s[1..7];
    assert t == "23/4/5";
    assert t[..2] == "23" && t[3..4] == "4" && t[5..] == "5";
    assert DateShapeWith(t, 2, 1);
    forall f | 0 <= f <= |s| ensures !IsDateShape(s[0..f]) {
      var u := s[0..f];
      if f > 3 {
        assert u[1] == '2' && u[2] == '3';
      }
    }
    GetAvailableDateLeftmost(s, 1, 7);
  }
}
