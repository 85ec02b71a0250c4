/**
 * The part of Go's `regexp` package the scraper uses: `FindString` with the
 * four patterns it compiles, of two shapes: `\d{lo,hi}` (three of them) and
 * `\d{1,2}/\d{1,2}/\d{1,4}`.
 *
 * Each pattern is described twice: by `Matches`, which says which strings the
 * pattern matches as a whole, and by `MatchLen`, which computes the greedy
 * match at one position the way the quantifiers consume input. `FindFrom`
 * scans left to right; its contract says that the span it returns is the
 * leftmost match and, among the matches that start there, the longest one,
 * which for these patterns is the match Go's leftmost-first, greedy search
 * picks.
 */
module Regexp {
  import opened Wrappers
  import opened Chars

  function Min(a: nat, b: nat): nat {
    if a <= b then a else b
  }

  /** A compiled pattern. */
  datatype Pattern =
    | Digits(lo: nat, hi: nat)   // \d{lo,hi}
    | Date                       // \d{1,2}/\d{1,2}/\d{1,4}

  /** `regexp.Compile` accepts `\d{lo,hi}` only when lo <= hi. */
  predicate Compiles(pat: Pattern) {
    pat.Digits? ==> pat.lo <= pat.hi
  }

  /** A half-open range `[start, end)` of the searched string. */
  datatype Span = Span(start: nat, end: nat)

  /** `t` is shaped `D{a}/D{b}/D{1,4}`. */
  predicate DateShapeWith(t: string, a: nat, b: nat) {
    && a + b + 2 < |t| <= a + b + 6
    && AllDigits(t[..a]) && t[a] == '/'
    && AllDigits(t[a + 1..a + 1 + b]) && t[a + 1 + b] == '/'
    && AllDigits(t[a + b + 2..])
  }

  /** `t` as a whole matches `\d{1,2}/\d{1,2}/\d{1,4}`. */
  predicate IsDateShape(t: string) {
    DateShapeWith(t, 1, 1) || DateShapeWith(t, 1, 2) || DateShapeWith(t, 2, 1) || DateShapeWith(t, 2, 2)
  }

  /** `t` as a whole matches `pat`: the reference meaning of a pattern. */
  predicate Matches(pat: Pattern, t: string) {
    match pat
    case Digits(lo, hi) => lo <= |t| <= hi && AllDigits(t)
    case Date => IsDateShape(t)
  }

  /** No substring of `s` matches `pat`. */
  predicate NoMatch(pat: Pattern, s: string) {
    forall p, e :: 0 <= p <= e <= |s| ==> !Matches(pat, s[p..e])
  }

  /**
   * `s[p..e]` is the match a leftmost, then longest, search reports: it
   * matches, no substring starting before `p` matches, and no longer
   * substring starting at `p` matches.
   */
  predicate IsLeftmostLongest(pat: Pattern, s: string, p: nat, e: nat) {
    && p <= e <= |s|
    && Matches(pat, s[p..e])
    && (forall q, f :: 0 <= q < p && q <= f <= |s| ==> !Matches(pat, s[q..f]))
    && (forall f :: e < f <= |s| ==> !Matches(pat, s[p..f]))
  }

  /** Length of the run of digits starting at `p`. */
  function DigitRun(s: string, p: nat): (n: nat)
    requires p <= |s|
    ensures p + n <= |s|
    ensures AllDigits(s[p..p + n])
    ensures p + n < |s| ==> !IsDigit(s[p + n])
    decreases |s| - p
  {
    if p < |s| && IsDigit(s[p]) then
      var n := 1 + DigitRun(s, p + 1);
      assert s[p..p + n] == [s[p]] + s[p + 1..p + n];
      n
    else
      0
  }

  /** A digit run covers every all-digit substring starting where it starts. */
  lemma RunCovers(s: string, p: nat, e: nat)
    requires p <= e <= |s| && AllDigits(s[p..e])
    ensures e - p <= DigitRun(s, p)
  {
  }

  /** A run of digits ended by a non-digit is the whole digit run. */
  lemma RunExact(s: string, p: nat, k: nat)
    requires p + k < |s| && AllDigits(s[p..p + k]) && !IsDigit(s[p + k])
    ensures DigitRun(s, p) == k
  {
    RunCovers(s, p, p + k);
  }

  /**
   * The end of a greedy `\d{1,2}/` group starting at `p`, just after the '/'.
   * The group is ended by '/', which is not a digit, so it takes the whole
   * digit run.
   */
  function GroupEnd(s: string, p: nat): (q: Option<nat>)
    requires p <= |s|
    ensures q.Some? ==> p + 2 <= q.value <= p + 3 && q.value <= |s|
  {
    var a := DigitRun(s, p);
    if 1 <= a <= 2 && p + a < |s| && s[p + a] == '/' then Some(p + a + 1) else None
  }

  /** Length of the greedy date match starting at `p`, if there is one; the last group takes up to four digits. */
  function DateMatchAt(s: string, p: nat): Option<nat>
    requires p <= |s|
  {
    match GroupEnd(s, p)
    case None => None
    case Some(q) =>
      match GroupEnd(s, q)
      case None => None
      case Some(r) =>
        var c := DigitRun(s, r);
        if c < 1 then None else Some(r - p + Min(c, 4))
  }

  lemma GroupEndSound(s: string, p: nat, q: nat)
    requires p <= |s| && GroupEnd(s, p) == Some(q)
    ensures p + 2 <= q <= p + 3 && q <= |s|
    ensures AllDigits(s[p..q - 1]) && s[q - 1] == '/'
  {
  }

  lemma GroupEndExact(s: string, p: nat, a: nat)
    requires 1 <= a <= 2 && p + a < |s| && AllDigits(s[p..p + a]) && s[p + a] == '/'
    ensures GroupEnd(s, p) == Some(p + a + 1)
  {
    RunExact(s, p, a);
  }

  /** Length of the greedy match of `pat` starting at `p`, if there is one. */
  function MatchLen(pat: Pattern, s: string, p: nat): Option<nat>
    requires p <= |s|
  {
    match pat
    case Digits(lo, hi) =>
      var run := DigitRun(s, p);
      if lo <= run then Some(Min(run, hi)) else None
    case Date => DateMatchAt(s, p)
  }

  /** Slices of an all-digit slice are all digits. */
  lemma DigitsSlice(s: string, i: nat, j: nat, i': nat, j': nat)
    requires i <= i' <= j' <= j <= |s| && AllDigits(s[i..j])
    ensures AllDigits(s[i'..j'])
  {
    forall k | 0 <= k < j' - i' ensures IsDigit(s[i'..j'][k]) {
      assert s[i'..j'][k] == s[i..j][k + i' - i];
    }
  }

  /** The pieces of a date-shaped substring, stated on `s` itself. */
  predicate DateShapeIn(s: string, p: nat, e: nat, a: nat, b: nat)
    requires p <= e <= |s|
  {
    && p + a + b + 2 < e <= p + a + b + 6
    && AllDigits(s[p..p + a]) && s[p + a] == '/'
    && AllDigits(s[p + a + 1..p + a + 1 + b]) && s[p + a + 1 + b] == '/'
    && AllDigits(s[p + a + b + 2..e])
  }

  lemma SliceOfSlice(s: string, p: nat, e: nat, i: nat, j: nat)
    requires p <= e <= |s| && i <= j <= e - p
    ensures s[p..e][i..j] == s[p + i..p + j]
  {
    assert forall k :: 0 <= k < j - i ==> s[p..e][i..j][k] == s[p + i..p + j][k];
  }

  lemma DateShapeInSlice(s: string, p: nat, e: nat, a: nat, b: nat)
    requires p <= e <= |s|
    ensures DateShapeIn(s, p, e, a, b) <==> DateShapeWith(s[p..e], a, b)
  {
    var t := s[p..e];
    if p + a + b + 2 < e {
      var i, j := a + 1, a + 1 + b;
      SliceOfSlice(s, p, e, 0, a);
      SliceOfSlice(s, p, e, i, j);
      SliceOfSlice(s, p, e, j + 1, e - p);
      assert t[..a] == t[0..a];
      assert t[j + 1..] == t[j + 1..e - p];
    }
  }

  /** Two `\d{1,2}/` groups ending at `q` and `r`, then a run of digits up to `f`, make a date up to any `e` in the first four of them. */
  lemma GroupsShapeIn(s: string, p: nat, q: nat, r: nat, f: nat, e: nat)
    requires p + 2 <= q <= p + 3 && q + 2 <= r <= q + 3 && r < e <= r + 4 && e <= f <= |s|
    requires AllDigits(s[p..q - 1]) && s[q - 1] == '/'
    requires AllDigits(s[q..r - 1]) && s[r - 1] == '/'
    requires AllDigits(s[r..f])
    ensures IsDateShape(s[p..e])
  {
    DigitsSlice(s, r, f, r, e);
    assert DateShapeIn(s, p, e, q - 1 - p, r - 1 - q);
    DateShapeInIsDateShape(s, p, e, q - 1 - p, r - 1 - q);
  }

  /** The greedy date match at `p` is date-shaped. */
  lemma DateMatchSound(s: string, p: nat)
    requires p <= |s| && DateMatchAt(s, p).Some?
    ensures p + DateMatchAt(s, p).value <= |s|
    ensures IsDateShape(s[p..p + DateMatchAt(s, p).value])
  {
    var q, r, c := DateMatchParts(s, p);
    PartsDateShape(s, p, q, r, c);
  }

  /** Two groups ending at `q` and `r` and a run of `c` digits after them: its first four digits at most end a date. */
  lemma PartsDateShape(s: string, p: nat, q: nat, r: nat, c: nat)
    requires p <= |s| && GroupEnd(s, p) == Some(q) && q <= |s| && GroupEnd(s, q) == Some(r) && r <= |s|
    requires 1 <= c && r + c <= |s| && AllDigits(s[r..r + c])
    ensures IsDateShape(s[p..r + Min(c, 4)])
  {
    GroupEndSound(s, p, q);
    GroupEndSound(s, q, r);
    GroupsShapeIn(s, p, q, r, r + c, r + Min(c, 4));
  }

  /** The two group ends and the last digit run a date match is made of. */
  lemma DateMatchParts(s: string, p: nat) returns (q: nat, r: nat, c: nat)
    requires p <= |s| && DateMatchAt(s, p).Some?
    ensures GroupEnd(s, p) == Some(q) && q <= |s| && GroupEnd(s, q) == Some(r) && r <= |s|
    ensures 1 <= c && r + c <= |s| && AllDigits(s[r..r + c])
    ensures DateMatchAt(s, p) == Some(r - p + Min(c, 4))
  {
    q := GroupEnd(s, p).value;
    r := GroupEnd(s, q).value;
    c := DigitRun(s, r);
  }

  lemma DateShapeInIsDateShape(s: string, p: nat, e: nat, a: nat, b: nat)
    requires 1 <= a <= 2 && 1 <= b <= 2
    requires p <= e <= |s| && DateShapeIn(s, p, e, a, b)
    ensures IsDateShape(s[p..e])
  {
    DateShapeInSlice(s, p, e, a, b);
    DateShapeWithIsDateShape(s[p..e], a, b);
  }

  lemma DateShapeWithIsDateShape(t: string, a: nat, b: nat)
    requires 1 <= a <= 2 && 1 <= b <= 2 && DateShapeWith(t, a, b)
    ensures IsDateShape(t)
  {
  }

  /** A date shape with groups of `a` and `b` digits is covered by the greedy match. */
  lemma DateShapeCovered(s: string, p: nat, e: nat, a: nat, b: nat)
    requires 1 <= a <= 2 && 1 <= b <= 2
    requires p <= e <= |s| && DateShapeIn(s, p, e, a, b)
    ensures DateMatchAt(s, p).Some? && e <= p + DateMatchAt(s, p).value
  {
    GroupEndExact(s, p, a);
    GroupEndExact(s, p + a + 1, b);
    GroupsCovered(s, p, p + a + 1, p + a + b + 2, e);
  }

  /** After two groups ending at `q` and `r`, the greedy match covers up to four digits that follow. */
  lemma GroupsCovered(s: string, p: nat, q: nat, r: nat, e: nat)
    requires p <= q <= r < e <= r + 4 && e <= |s| && GroupEnd(s, p) == Some(q) && GroupEnd(s, q) == Some(r)
    requires AllDigits(s[r..e])
    ensures DateMatchAt(s, p).Some? && e <= p + DateMatchAt(s, p).value
  {
    RunCovers(s, r, e);
  }

  /** Every date-shaped substring starting at `p` is covered by the greedy match. */
  lemma DateMatchLongest(s: string, p: nat, e: nat)
    requires p <= e <= |s| && IsDateShape(s[p..e])
    ensures DateMatchAt(s, p).Some? && e <= p + DateMatchAt(s, p).value
  {
    var t := s[p..e];
    var a: nat, b: nat := 1, 1;
    if DateShapeWith(t, 1, 2) {
      a, b := 1, 2;
    } else if DateShapeWith(t, 2, 1) {
      a, b := 2, 1;
    } else if DateShapeWith(t, 2, 2) {
      a, b := 2, 2;
    }
    DateShapeInSlice(s, p, e, a, b);
    DateShapeCovered(s, p, e, a, b);
  }

  lemma MatchLenSound(pat: Pattern, s: string, p: nat)
    requires Compiles(pat) && p <= |s| && MatchLen(pat, s, p).Some?
    ensures p + MatchLen(pat, s, p).value <= |s|
    ensures Matches(pat, s[p..p + MatchLen(pat, s, p).value])
  {
    match pat
    case Digits(lo, hi) =>
      var run := DigitRun(s, p);
      assert s[p..p + Min(run, hi)] == s[p..p + run][..Min(run, hi)];
    case Date =>
      DateMatchSound(s, p);
  }

  lemma MatchLenLongest(pat: Pattern, s: string, p: nat, e: nat)
    requires p <= e <= |s| && Matches(pat, s[p..e])
    ensures MatchLen(pat, s, p).Some? && e <= p + MatchLen(pat, s, p).value
  {
    match pat
    case Digits(lo, hi) =>
      RunCovers(s, p, e);
    case Date =>
      DateMatchLongest(s, p, e);
  }

  /** Nothing longer than the greedy match matches at `p`. */
  lemma MatchLenMaximal(pat: Pattern, s: string, p: nat)
    requires p <= |s| && MatchLen(pat, s, p).Some?
    ensures forall f :: p + MatchLen(pat, s, p).value < f <= |s| ==> !Matches(pat, s[p..f])
  {
    forall f | p + MatchLen(pat, s, p).value < f <= |s| && Matches(pat, s[p..f]) ensures false {
      MatchLenLongest(pat, s, p, f);
    }
  }

  /** Without a greedy match, nothing matches at `p`. */
  lemma MatchLenNone(pat: Pattern, s: string, p: nat)
    requires p <= |s| && MatchLen(pat, s, p).None?
    ensures forall f :: p <= f <= |s| ==> !Matches(pat, s[p..f])
  {
    forall f | p <= f <= |s| && Matches(pat, s[p..f]) ensures false {
      MatchLenLongest(pat, s, p, f);
    }
  }

  /** Nothing matching at `p` nor at any position from `p + 1` up to `e` leaves nothing from `p` up to `e`. */
  lemma NoMatchBefore(pat: Pattern, s: string, p: nat, e: nat)
    requires p < e <= |s| + 1
    requires forall f :: p <= f <= |s| ==> !Matches(pat, s[p..f])
    requires forall q, f :: p + 1 <= q < e && q <= f <= |s| ==> !Matches(pat, s[q..f])
    ensures forall q, f :: p <= q < e && q <= f <= |s| ==> !Matches(pat, s[q..f])
  {
  }

  /** The leftmost-longest match of `pat` among the positions `p..|s|`. */
  function FindFrom(pat: Pattern, s: string, p: nat): (m: Option<Span>)
    requires Compiles(pat) && p <= |s|
    ensures m.Some? ==> p <= m.value.start <= m.value.end <= |s|
    ensures m.Some? ==> Matches(pat, s[m.value.start..m.value.end])
    ensures m.Some? ==> forall q, f :: p <= q < m.value.start && q <= f <= |s| ==> !Matches(pat, s[q..f])
    ensures m.Some? ==> forall f :: m.value.end < f <= |s| ==> !Matches(pat, s[m.value.start..f])
    ensures m.None? ==> forall q, f :: p <= q <= f <= |s| ==> !Matches(pat, s[q..f])
    decreases |s| - p
  {
    match MatchLen(pat, s, p)
    case Some(n) =>
      MatchLenSound(pat, s, p);
      MatchLenMaximal(pat, s, p);
      Some(Span(p, p + n))
    case None =>
      MatchLenNone(pat, s, p);
      if p == |s| then None
      else
        var m := FindFrom(pat, s, p + 1);
        NoMatchBefore(pat, s, p, if m.Some? then m.value.start else |s| + 1);
        m
  }

  /** Go's `(*Regexp).FindStringIndex`: the span of the leftmost match, if any. */
  function FindStringIndex(pat: Pattern, s: string): (m: Option<Span>)
    requires Compiles(pat)
    ensures m.Some? <==> !NoMatch(pat, s)
    ensures m.Some? ==> IsLeftmostLongest(pat, s, m.value.start, m.value.end)
  {
    FindFrom(pat, s, 0)
  }

  /**
   * Go's `(*Regexp).FindString`: the text of the leftmost match, or "" when
   * there is none (an empty match is reported as "" as well).
   */
  function FindString(pat: Pattern, s: string): (r: string)
    requires Compiles(pat)
    ensures NoMatch(pat, s) ==> r == ""
    ensures r != "" ==> Matches(pat, r)
  {
    match FindStringIndex(pat, s)
    case None => ""
    case Some(sp) => s[sp.start..sp.end]
  }

  /** A leftmost-longest match is unique. */
  lemma LeftmostLongestUnique(pat: Pattern, s: string, p: nat, e: nat, p': nat, e': nat)
    requires IsLeftmostLongest(pat, s, p, e) && IsLeftmostLongest(pat, s, p', e')
    ensures p == p' && e == e'
  {
  }

  /** `FindString` reports exactly the leftmost-longest match. */
  lemma FindStringIsLeftmostLongest(pat: Pattern, s: string, p: nat, e: nat)
    requires Compiles(pat) && IsLeftmostLongest(pat, s, p, e)
    ensures FindStringIndex(pat, s) == Some(Span(p, e))
    ensures FindString(pat, s) == s[p..e]
  {
    var m := FindStringIndex(pat, s);
    assert m.Some?;
    LeftmostLongestUnique(pat, s, p, e, m.value.start, m.value.end);
  }

  /** A fragment without digits has no match of `\d{lo,hi}` when lo >= 1. */
  lemma NoDigitNoMatch(s: string, lo: nat, hi: nat)
    requires 1 <= lo && NoDigit(s)
    ensures NoMatch(Digits(lo, hi), s)
  {
    forall p, e | 0 <= p <= e <= |s| ensures !Matches(Digits(lo, hi), s[p..e]) {
      if p < e {
        assert s[p..e][0] == s[p];
      }
    }
  }

  /**
   * For `\d{1,hi}`, the leftmost-longest match is the first `hi` digits of the
   * leftmost digit run (all of it when it is shorter).
   */
  lemma FirstDigitsLeftmostLongest(s: string, hi: nat, p: nat, e: nat)
    requires p < e <= |s| && e - p <= hi && AllDigits(s[p..e])
    requires NoDigit(s[..p])
    requires e - p == hi || e == |s| || !IsDigit(s[e])
    ensures IsLeftmostLongest(Digits(1, hi), s, p, e)
  {
    forall q, f | 0 <= q < p && q <= f <= |s| ensures !Matches(Digits(1, hi), s[q..f]) {
      if q < f {
        assert s[q..f][0] == s[..p][q];
      }
    }
    forall f | e < f <= |s| ensures !Matches(Digits(1, hi), s[p..f]) {
      if f - p <= hi {
        assert s[p..f][e - p] == s[e];
      }
    }
  }

  /**
   * For `\d{0,hi}`, the leftmost-longest match starts at 0 and is the first
   * `hi` digits of the fragment's leading digits (empty when it does not
   * start with a digit).
   */
  lemma LeadingDigitsLeftmostLongest(s: string, hi: nat, e: nat)
    requires e <= |s| && e <= hi && AllDigits(s[..e])
    requires e == hi || e == |s| || !IsDigit(s[e])
    ensures IsLeftmostLongest(Digits(0, hi), s, 0, e)
  {
    forall f | e < f <= |s| ensures !Matches(Digits(0, hi), s[0..f]) {
      if f <= hi {
        assert s[0..f][e] == s[e];
      }
    }
  }
}
