# aptmtSrchr, modelled in Dafny

`aptmtSrchr` scrapes apartment listings from the ULI search pages. For every
`.unit-result-item` element it reads five text fragments and one link, turns
them into an `Apartment` record with small regular-expression extractors,
and puts the record in a set so that the same listing seen twice is kept
once. It then drains the set into a slice and sorts it stably by the key
chosen with the `--sort` flag: `r` (rent), `s` (square feet) or `d`
(available date).

This project models that core and proves what it computes:

- `regexp.dfy`: Go's `FindString` for the four patterns the extractors
  compile, of two shapes: `\d{lo,hi}` (as `\d{1,2}`, `\d{1,4}` and
  `\d{0,4}`) and `\d{1,2}/\d{1,2}/\d{1,4}`. `FindFrom`
  scans left to right with a greedy match at each position. Its contract
  says that the reported span is the leftmost match and, among matches
  starting there, the longest. `IsLeftmostLongest` states that property
  independently of the scan.
- `chars.dfy`: the digit character class that `regexp.dfy`, `strconv.dfy`
  and `apartment.dfy` use.
- `strconv.dfy`: `strconv.Atoi`: an optional sign, then decimal digits.
  Anything else is a syntax error with value 0.
- `apartment.dfy`: the record type and the extractors `getBedrooms`,
  `getRent`, `getSqFootage`, `getAvailableDate` and `getViewUrl`. It also
  builds one record from the fragments of one element.
- `apartment_set.dfy`: `tsafeApartments` as a class whose `set` field the
  insert updates, and the loop that drains it into a slice.
- `sort_flag.dfy`: the `aptmtSortable` flag value, with `Set` and `String`.
- `sorting.dfy`: `sortFromCliConfig`.
  - `StableSort` is an insertion sort that serves as the specification. For
    each sort key it is a permutation, sorted, ascending in the key, and stable.
  - `SortedStableUnique` proves that it is the only sequence with those
    properties. So any stable sort, `sort.SliceStable` included, gives this
    result.
  - `SortFromCliConfig` sorts an array in place and is proved equal to it.
- `crawler.dfy`: `GetUliMadisonAptmts` after the crawl.
  - The elements the collector would visit are an input sequence.
  - The model proves the result has each distinct record exactly once, that
    every record is well formed, and that the result is sorted by the
    selected key.

Two points where the code decides the behaviour:

- With no sort key set, the comparator's `default` branch returns `true`.
  The slice is therefore not left alone, whatever one might expect from an
  unset flag. Every record is then "less" than every other, and the model's
  sort reverses the slice (`AlwaysTrueReverses`).
- Dates are compared as strings, byte by byte. So "1/15/2023" sorts before
  "12/1/2022", because '/' is below '2'. `DateStringOrderExample` proves
  this. The model follows the code's order.

## Model

| member | source | states |
|---|---|---|
| Regexp.FindStringIndex | aptmtSrchr.go:142-143 | a span is returned exactly when some substring matches, and it is the leftmost match, the longest of those starting there |
| Regexp.FindString | aptmtSrchr.go:115-116 | no match gives ""; a non-empty result matches the pattern |
| Regexp.FindStringIsLeftmostLongest | aptmtSrchr.go:142-143 | whenever a span is the leftmost-longest match, FindString returns exactly its text |
| Regexp.NoDigitNoMatch | aptmtSrchr.go:122-123 | a fragment with no digit has no match of `\d{lo,hi}` for lo >= 1 |
| Regexp.FirstDigitsLeftmostLongest | aptmtSrchr.go:115-116 | for `\d{1,hi}` the match is the first hi digits of the leftmost digit run |
| Regexp.LeadingDigitsLeftmostLongest | aptmtSrchr.go:129-130 | for `\d{0,hi}` the match starts at 0 and is the fragment's leading digits, cut at hi (possibly empty) |
| Strconv.Atoi | aptmtSrchr.go:117 | "", a lone sign, and text that is not an optional sign followed by digits are syntax errors with value 0; digits, with or without a leading `+` or `-`, convert to their signed decimal value without error |
| Strconv.AtoiDigits | aptmtSrchr.go:124 | one to k digits convert without error to a value in [0, 10^k) |
| Apartments.ConvertedMatchBound | aptmtSrchr.go:116-117 | Atoi of a `\d{lo,hi}` match is never negative and below 10^hi |
| Apartments.GetBedrooms | aptmtSrchr.go:114-119 | the result is in [0, 99]; a fragment with no digit gives 0 |
| Apartments.GetBedroomsFirstDigits | aptmtSrchr.go:114-119 | the result is the value of the first one or two digits of the leftmost digit run |
| Apartments.BedroomsExample | aptmtSrchr.go:114-119 | "2 Bed" gives 2 |
| Apartments.NoDigitConvertsToZero | aptmtSrchr.go:114-126 | with no digit in the fragment, a `\d{lo,hi}` extractor with lo >= 1 gives 0 |
| Apartments.GetRent | aptmtSrchr.go:121-126 | the result is in [0, 9999]; a fragment with no digit gives 0 |
| Apartments.GetRentFirstDigits | aptmtSrchr.go:121-126 | the result is the value of the first one to four digits of the leftmost digit run |
| Apartments.RentCommaExample | aptmtSrchr.go:121-126 | "$1,200" gives 1: the match stops at the thousands separator |
| Apartments.RentTruncatedExample | aptmtSrchr.go:121-126 | "12345" gives 1234 |
| Apartments.GetSqFootage | aptmtSrchr.go:128-133 | the result is in [0, 9999]; an empty fragment, or one not starting with a digit, gives 0 |
| Apartments.GetSqFootageLeadingDigits | aptmtSrchr.go:128-133 | the result is the value of the fragment's leading digits, at most four |
| Apartments.SqFootageNoLeadingDigit | aptmtSrchr.go:128-133 | "Sq 850" gives 0, because `\d{0,4}` matches the empty string at position 0 |
| Apartments.SqFootageLeadingDigits | aptmtSrchr.go:128-133 | "850 sq ft" gives 850 |
| Apartments.NoLeadingDigitConvertsToZero | aptmtSrchr.go:129-131 | `\d{0,4}` matches "" on a fragment that does not start with a digit, so the value is 0 |
| Apartments.DateMatchNonEmpty | aptmtSrchr.go:142-143 | FindString gives "" for the date pattern exactly when nothing matches |
| Apartments.GetAvailableDate | aptmtSrchr.go:141-144 | the result is "" exactly when no substring is date-shaped; otherwise it is date-shaped |
| Apartments.GetAvailableDateLeftmost | aptmtSrchr.go:141-144 | the result is the leftmost date-shaped substring, with the longest last group |
| Apartments.DateExample | aptmtSrchr.go:141-144 | "Avail 7/15/2022" gives "7/15/2022" |
| Apartments.DateGreedyExample | aptmtSrchr.go:141-144 | "1/2/20234" gives "1/2/2023": the last group takes at most four digits |
| Apartments.DateLeftmostExample | aptmtSrchr.go:141-144 | "123/4/5" gives "23/4/5": the first group cannot take three digits |
| Apartments.GetViewUrl | aptmtSrchr.go:135-139 | the result is the origin followed by the href, with no checking |
| Apartments.ViewPathOfViewUrl | aptmtSrchr.go:137 | stripping the origin from a built URL gives back the href |
| Apartments.ViewUrlOfViewPath | aptmtSrchr.go:137 | every URL that starts with the origin is the URL built from its path |
| Apartments.ViewUrlInjective | aptmtSrchr.go:137 | distinct hrefs give distinct URLs |
| Apartments.ViewUrlExample | aptmtSrchr.go:137 | "/unit/42" gives "https://www.uli.com/unit/42" |
| Apartments.BuildApartment | aptmtSrchr.go:53-59 | the record keeps the unit title, its URL gives back the href, and every field is within its extractor's range |
| ApartmentSets.ApartmentSet.constructor | aptmtSrchr.go:39-42 | the new set is empty |
| ApartmentSets.ApartmentSet.InsertApartment | aptmtSrchr.go:33-37 | the set becomes the old set plus the record; a record equal in all six fields is kept once |
| ApartmentSets.ApartmentSet.Drain | aptmtSrchr.go:73-76 | the slice holds exactly the set's members, each once, and its length is the set's size |
| SortFlags.SortFlag.constructor | aptmtSrchr.go:175 | the flag starts unset, as the empty string |
| SortFlags.SortFlag.String | aptmtSrchr.go:155-157 | the value read back is unset or one of the three keys |
| SortFlags.SortFlag.Set | aptmtSrchr.go:160-168 | a key is stored with no error; anything else gives the fixed error message and leaves the value unchanged |
| SortFlags.SetThenString | aptmtSrchr.go:155-168 | after Set on a fresh flag, String shows the value when it is a key and the empty string otherwise |
| Sorting.ComparatorOf | aptmtSrchr.go:100-109 | each key selects its branch of the switch; any other value selects the default branch |
| Sorting.StringLess | aptmtSrchr.go:106 | Go's byte-wise `<`: a proper prefix is less than the longer string, otherwise the first differing character decides; a string is never less than itself |
| Sorting.Less | aptmtSrchr.go:99-109 | the default comparator holds for every pair; a key comparator (rent and square feet with `<` on the field, the date with string order) holds only between records whose keys differ |
| Sorting.StringLessIrreflexive | aptmtSrchr.go:106 | no date string is less than itself |
| Sorting.StringLessTransitive | aptmtSrchr.go:106 | string order is transitive |
| Sorting.StringLessTotal | aptmtSrchr.go:106 | of two distinct strings one is less |
| Sorting.DateStringOrderExample | aptmtSrchr.go:106 | "1/15/2023" sorts before "12/1/2022" |
| Sorting.LessIrreflexive | aptmtSrchr.go:100-106 | for a sort key, no record is less than itself |
| Sorting.LessTransitive | aptmtSrchr.go:100-106 | for a sort key, the comparator is transitive |
| Sorting.SameKeyIsIncomparable | aptmtSrchr.go:100-106 | for a sort key, two records are incomparable exactly when they have the same key value |
| Sorting.NotLessTransitive | aptmtSrchr.go:100-106 | for a sort key, "not less" is transitive |
| Sorting.SortedIsAscending | aptmtSrchr.go:99-110 | a sequence in comparator order is ascending in the selected field |
| Sorting.Insert | aptmtSrchr.go:99 | one insertion step adds one record; InsertPermutes, InsertSorted and InsertPeers state what it keeps |
| Sorting.StableSort | aptmtSrchr.go:99 | the insertion sort standing for `sort.SliceStable`'s result keeps the length; StableSortCorrect and StableSortUnique state the rest |
| Sorting.InsertAlwaysTrue | aptmtSrchr.go:107-108 | with the default comparator an insertion puts the record first |
| Sorting.AlwaysTrueReverses | aptmtSrchr.go:99-110 | with no sort key set, the sort reverses its input |
| Sorting.InsertPermutes | aptmtSrchr.go:99-110 | one insertion step adds exactly the inserted record |
| Sorting.StableSortPermutes | aptmtSrchr.go:99-110 | for every comparator, the default included, sorting only rearranges the records |
| Sorting.InsertSorted | aptmtSrchr.go:99-110 | inserting into a sorted sequence keeps it sorted |
| Sorting.StableSortSorted | aptmtSrchr.go:99-110 | the sort's result is in comparator order |
| Sorting.PeersAppend | aptmtSrchr.go:99 | appending a record extends its key's class by that record and leaves the other classes alone |
| Sorting.InsertPeers | aptmtSrchr.go:99 | insertion appends the record to its key's class and leaves the other classes alone |
| Sorting.StableSortStable | aptmtSrchr.go:99 | records with equal keys keep their input order |
| Sorting.StableSortCorrect | aptmtSrchr.go:99-110 | for a sort key, the result is a permutation, sorted, ascending and stable |
| Sorting.PeersSubset | aptmtSrchr.go:99 | a key's class holds exactly the records with that key |
| Sorting.StableNonEmpty | aptmtSrchr.go:99 | a stable rearrangement of a non-empty sequence is non-empty |
| Sorting.SortedStableLast | aptmtSrchr.go:99 | two sorted sequences with the same classes end with the same record |
| Sorting.StableInit | aptmtSrchr.go:99 | dropping that common last record keeps the classes equal |
| Sorting.SortedStableUnique | aptmtSrchr.go:99 | two sorted sequences with the same classes are equal |
| Sorting.StableSortUnique | aptmtSrchr.go:99 | any sorted, stable rearrangement equals StableSort, so any stable sort gives this result |
| Sorting.InsertAt | aptmtSrchr.go:99-110 | an insertion places the record after the last record it is not less than |
| Sorting.ShiftGreater | aptmtSrchr.go:99-110 | the shifting loop moves right, by one place, exactly the records before the gap that the new record is less than, and nothing else |
| Sorting.InsertionSort | aptmtSrchr.go:99 | sorting the array in place leaves it equal to StableSort of its old contents |
| Sorting.InsertLast | aptmtSrchr.go:99-110 | one in-place pass leaves the prefix equal to one insertion step and the rest unchanged |
| Sorting.SortFromCliConfig | aptmtSrchr.go:98-112 | the array becomes StableSort of its old contents and is a permutation of them; for a key it is also sorted, ascending and stable; with no key it is the old contents reversed |
| Crawler.DistinctMembers | aptmtSrchr.go:36 | deduplicating keeps exactly the records that occur |
| Crawler.DistinctSize | aptmtSrchr.go:36 | deduplicating never adds records |
| Crawler.RecordsWellFormed | aptmtSrchr.go:53-59 | every record built from an element is well formed |
| Crawler.OnUnitResultItem | aptmtSrchr.go:52-61 | the callback adds the element's record to the set and nothing else |
| Crawler.DistinctRecords | aptmtSrchr.go:36-61 | the distinct records hold exactly the elements' records, all well formed, and are no more than the elements |
| Crawler.CollectApartments | aptmtSrchr.go:46-72 | after all callbacks the set holds exactly the elements' records, all well formed, and is no larger than the number of elements |
| Crawler.SortListing | aptmtSrchr.go:73-77 | the sorted slice is StableSort of the drained slice; for a key it is sorted, ascending and stable |
| Crawler.PermutationKeeps | aptmtSrchr.go:73-77 | a rearrangement keeps the members, and keeps the absence of duplicates |
| Crawler.GetUliMadisonAptmts | aptmtSrchr.go:45-79 | the result holds each distinct record once, is no longer than the input, is well formed throughout, and is sorted and ascending when a key is set |

## Left out

- Crawling is not modelled: the colly collector, its domain filter, rate limit, asynchronous visits, `c.Visit` and `c.Wait`. The HTML elements it would visit become an input sequence of text fragments, and `ChildText`/`ChildAttr` are left out.
- The mutex in `tsafeApartments` and the concurrency it guards are not modelled. Each callback is taken to run atomically, in the order of the input sequence.
- `main`, its fixed URLs, `displayAptmts` and its printing, `handleCliConfigs`, cobra's flag parsing, `os.Exit`, and the `verbose` flag are I/O or main-program plumbing and are not modelled.
- `aptmtSortable.Type` only returns a constant name for cobra's help text, so it is not modelled.
- `map[Apartment]bool` is modelled as a set of its keys, because every stored value is `true`.
- Go's map iteration order is random. `Drain` picks members in an unspecified order, and nothing is claimed about that order.
- Strconv.Atoi: does not model the 64-bit range check or its clamping, because the extractors pass it at most four digits.
- `fmt.Sprintf("https://www.uli.com%s", html)` is modelled as plain concatenation. For a string argument `%s` inserts the text unchanged.
- Strings, and date comparisons, are sequences of code points rather than bytes. UTF-8 preserves code-point order, so the comparison agrees with Go's byte-wise `<`.
- `sort.SliceStable`'s own algorithm is not modelled. `StableSortUnique` shows that for a real sort key every stable sort has the same result, so the choice of algorithm does not matter there. For an unset or unknown key the model's result is its insertion sort's, the reversal of the slice; the model does not derive what Go's merge-based algorithm does with a comparator that is always true.
- The regular-expression engine is modelled only for the four fixed patterns, not for general RE2 syntax.
- The source ignores the errors from `regexp.Compile`. The patterns are fixed and valid, so the model requires `Compiles`.
- The test file is not modelled.
