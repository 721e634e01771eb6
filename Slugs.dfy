/** Slug assignment for a masjid entry: the pre-save hook derives a candidate
    slug from the entry's name and, when stored slugs already use that candidate
    (exactly, or with a `-<digits>` suffix, ignoring case), appends the number
    of such slugs plus one. */
module Slugs {
  import opened Query

  // ---------------------------------------------------------------------------
  // Characters

  predicate IsDigit(ch: char) { '0' <= ch <= '9' }

  predicate AllDigits(s: string) { forall i :: 0 <= i < |s| ==> IsDigit(s[i]) }

  /** What the `slugs` library is relied on to produce: lower-case ASCII
      letters, digits and hyphens, none of which is special in a regular
      expression outside a character class. */
  predicate IsSlugChar(ch: char) { 'a' <= ch <= 'z' || IsDigit(ch) || ch == '-' }

  predicate IsSlugText(s: string) { forall i :: 0 <= i < |s| ==> IsSlugChar(s[i]) }

  /** Case folding of the `i` flag as the store applies it: the pattern is
      matched by the database server's regular-expression engine (PCRE in
      UTF-8 mode), which folds case by Unicode's simple case folding. The
      only characters outside ASCII whose folding is an ASCII letter are
      KELVIN SIGN (to `k`) and LATIN SMALL LETTER LONG S (to `s`); every
      other character folds onto a non-ASCII character or onto itself, so
      for comparisons against the ASCII characters of a slug this mapping
      decides the same as full Unicode folding. */
  function FoldCase(ch: char): char
  {
    if 'A' <= ch <= 'Z' then (ch as int + 32) as char
    else if ch == '\U{212A}' then 'k'
    else if ch == '\U{017F}' then 's'
    else ch
  }

  predicate SameIgnoringCase(a: string, b: string)
  {
    |a| == |b| && forall i :: 0 <= i < |a| ==> FoldCase(a[i]) == FoldCase(b[i])
  }

  /** A character that folds to something other than an upper- or lower-case
      letter is that very character. */
  lemma FoldCaseKeepsNonLetter(ch: char, d: char)
    requires !('a' <= d <= 'z') && FoldCase(ch) == d
    ensures ch == d
  {
  }

  // ---------------------------------------------------------------------------
  // Decimal rendering of the suffix (a JavaScript template literal on a count)

  function DigitChar(d: nat): (ch: char)
    requires d < 10
    ensures IsDigit(ch)
  {
    ('0' as int + d) as char
  }

  function DigitValue(ch: char): (d: nat)
    requires IsDigit(ch)
    ensures d < 10 && DigitChar(d) == ch
  {
    ch as int - '0' as int
  }

  /** The decimal numeral of `n`: at least one digit, no leading zero. */
  function NatToDecimal(n: nat): (r: string)
    ensures |r| >= 1 && AllDigits(r)
    ensures r[0] == '0' ==> n == 0
  {
    if n < 10 then [DigitChar(n)] else NatToDecimal(n / 10) + [DigitChar(n % 10)]
  }

  /** The value of a numeral, most significant digit first. */
  function DecimalValue(s: string): nat
    requires AllDigits(s)
  {
    if s == [] then 0 else 10 * DecimalValue(s[..|s| - 1]) + DigitValue(s[|s| - 1])
  }

  lemma {:induction false} DecimalRoundTrip(n: nat)
    ensures DecimalValue(NatToDecimal(n)) == n
  {
    var r := NatToDecimal(n);
    if n >= 10 {
      DecimalRoundTrip(n / 10);
      assert r[..|r| - 1] == NatToDecimal(n / 10);
    }
  }

  lemma NatToDecimalInjective(m: nat, n: nat)
    requires NatToDecimal(m) == NatToDecimal(n)
    ensures m == n
  {
    DecimalRoundTrip(m);
    DecimalRoundTrip(n);
  }

  // ---------------------------------------------------------------------------
  // The pattern `^(<candidate>)((-[0-9]*$)?)$` with the `i` flag

  /** States of a left-to-right scan of a stored slug against the pattern:
      `Literal(k)` after matching the first k characters of the candidate,
      `Digits` after the hyphen that opens the optional suffix, `Dead` once
      the slug cannot match any more. */
  datatype ScanState = Literal(k: nat) | Digits | Dead

  function Step(c: string, st: ScanState, ch: char): ScanState
  {
    match st
    case Literal(k) =>
      if k < |c| then (if FoldCase(ch) == FoldCase(c[k]) then Literal(k + 1) else Dead)
      else if ch == '-' then Digits
      else Dead
    case Digits => if IsDigit(ch) then Digits else Dead
    case Dead => Dead
  }

  function Scan(c: string, st: ScanState, s: string): ScanState
    decreases |s|
  {
    if s == [] then st else Scan(c, Step(c, st, s[0]), s[1..])
  }

  /** The scan of `s` ends after the whole candidate or in the digits. */
  predicate ScanAccepts(c: string, s: string)
  {
    var st := Scan(c, Literal(0), s);
    st == Literal(|c|) || st == Digits
  }

  /** Equal to the candidate, or to the candidate, a hyphen and zero or more
      digits, ignoring case. */
  ghost predicate CandidateForm(c: string, s: string)
  {
    SameIgnoringCase(s, c) || exists ds :: AllDigits(ds) && SameIgnoringCase(s, c + "-" + ds)
  }

  /** Independent description of what the pattern selects: a candidate form,
      possibly followed by one final newline, since without the multiline
      flag `$` also holds just before a newline that ends the subject. */
  ghost predicate IsCandidateOrSuffixed(c: string, s: string)
  {
    CandidateForm(c, s) || (|s| > 0 && s[|s| - 1] == '\n' && CandidateForm(c, s[..|s| - 1]))
  }

  lemma {:induction false} ScanDead(c: string, s: string)
    ensures Scan(c, Dead, s) == Dead
    decreases |s|
  {
    if s != [] { ScanDead(c, s[1..]); }
  }

  lemma {:induction false} ScanDigits(c: string, s: string)
    ensures Scan(c, Digits, s) == if AllDigits(s) then Digits else Dead
    decreases |s|
  {
    if s != [] {
      ScanDigits(c, s[1..]);
      if !IsDigit(s[0]) { ScanDead(c, s[1..]); }
    }
  }

  /** What a scan that has matched k characters of the candidate accepts. */
  lemma {:induction false} ScanLiteral(c: string, k: nat, s: string)
    requires k <= |c|
    ensures var st := Scan(c, Literal(k), s);
      (st == Literal(|c|) || st == Digits) <==>
      (|s| >= |c| - k && SameIgnoringCase(s[..|c| - k], c[k..]) &&
       (|s| == |c| - k || (s[|c| - k] == '-' && AllDigits(s[|c| - k + 1..]))))
    decreases |s|
  {
    if s == [] {
    } else if k < |c| {
      if FoldCase(s[0]) == FoldCase(c[k]) {
        ScanLiteral(c, k + 1, s[1..]);
        if |s| >= |c| - k {
          assert SameIgnoringCase(s[..|c| - k], c[k..]) <==> SameIgnoringCase(s[1..][..|c| - (k + 1)], c[k + 1..]) by {
            assert s[..|c| - k] == [s[0]] + s[1..][..|c| - (k + 1)];
            assert c[k..] == [c[k]] + c[k + 1..];
          }
        }
      } else {
        ScanDead(c, s[1..]);
        assert |s| >= |c| - k ==> s[..|c| - k][0] == s[0];
      }
    } else {
      if s[0] == '-' {
        ScanDigits(c, s[1..]);
      } else {
        ScanDead(c, s[1..]);
      }
    }
  }

  /** The scanner accepts exactly the candidate forms. */
  lemma ScanAcceptsIff(c: string, s: string)
    ensures ScanAccepts(c, s) <==> CandidateForm(c, s)
  {
    ScanLiteral(c, 0, s);
    assert c[0..] == c;
    if ScanAccepts(c, s) {
      if |s| > |c| {
        var ds := s[|c| + 1..];
        assert s == s[..|c|] + "-" + ds;
        assert SameIgnoringCase(s, c + "-" + ds);
      } else {
        assert s[..|c|] == s;
      }
    }
    if CandidateForm(c, s) {
      if SameIgnoringCase(s, c) {
        assert s[..|c|] == s;
      } else {
        var ds :| AllDigits(ds) && SameIgnoringCase(s, c + "-" + ds);
        var t := c + "-" + ds;
        assert SameIgnoringCase(s[..|c|], c) by {
          forall i | 0 <= i < |c| ensures FoldCase(s[..|c|][i]) == FoldCase(c[i]) {
            assert t[i] == c[i];
          }
        }
        assert t[|c|] == '-';
        FoldCaseKeepsNonLetter(s[|c|], '-');
        var tail := s[|c| + 1..];
        forall i | 0 <= i < |tail| ensures IsDigit(tail[i]) {
          assert t[|c| + 1 + i] == ds[i];
          FoldCaseKeepsNonLetter(s[|c| + 1 + i], ds[i]);
        }
      }
    }
  }

  /** The stored slug `s` is selected by the regular expression
      `^(c)((-[0-9]*$)?)$` with the `i` flag, built from candidate `c`: the
      scan accepts `s`, or `s` ends in a newline and the scan accepts the
      rest. */
  function PatternMatches(c: string, s: string): (b: bool)
    ensures b <==> IsCandidateOrSuffixed(c, s)
  {
    ScanAcceptsIff(c, s);
    if |s| > 0 && s[|s| - 1] == '\n' then
      ScanAcceptsIff(c, s[..|s| - 1]);
      ScanAccepts(c, s) || ScanAccepts(c, s[..|s| - 1])
    else
      ScanAccepts(c, s)
  }

  /** The candidate itself, and the candidate with any numeric suffix, fall
      under the candidate's own pattern. */
  lemma SuffixedFormsMatch(c: string, n: nat)
    ensures PatternMatches(c, c)
    ensures PatternMatches(c, c + "-" + NatToDecimal(n))
  {
    assert SameIgnoringCase(c, c);
    var ds := NatToDecimal(n);
    assert AllDigits(ds) && SameIgnoringCase(c + "-" + ds, c + "-" + ds);
  }

  /** What the store's engine selects beyond plain ASCII: the Kelvin sign
      counts as `k`, one final newline is allowed, a newline elsewhere is not. */
  lemma StoreMatchingExamples()
    ensures PatternMatches("k", "\U{212A}")
    ensures PatternMatches("c", "c\n") && PatternMatches("c", "C-7\n")
    ensures !PatternMatches("c", "c\n-7")
  {
    assert "\U{212A}"[1..] == [];
    var u := "C-7\n";
    assert u[..|u| - 1] == "C-7" && "c" + "-" + "7" == "c-7";
    assert AllDigits("7") && SameIgnoringCase("C-7", "c" + "-" + "7");
    var s := "c\n-7";
    assert s[1..] == "\n-7" && s[1..][1..] == "-7" && s[1..][1..][1..] == "7";
    assert s[..|s| - 1] == "c\n-";
  }

  // ---------------------------------------------------------------------------
  // The hook's lookup and its choice of slug

  /** The stored slugs that `find({ slug: <pattern> })` returns. */
  function Find(c: string, stored: seq<string>): (r: seq<string>)
    requires IsSlugText(c)
    ensures forall s :: multiset(r)[s] == if PatternMatches(c, s) then multiset(stored)[s] else 0
    ensures |r| == 0 <==> forall i :: 0 <= i < |stored| ==> !PatternMatches(c, stored[i])
  {
    var r := Filter(stored, s => PatternMatches(c, s));
    assert |r| == 0 ==> forall i :: 0 <= i < |stored| ==> !PatternMatches(c, stored[i]) by {
      if |r| == 0 {
        forall i | 0 <= i < |stored| ensures !PatternMatches(c, stored[i]) {
          assert stored[i] in multiset(stored);
          assert multiset(r)[stored[i]] == 0;
        }
      }
    }
    r
  }

  /** The slug assigned when `n` stored slugs match the candidate `c`. */
  function SlugForCount(c: string, n: nat): (r: string)
    ensures c <= r
    ensures n == 0 <==> r == c
  {
    if n == 0 then c else c + "-" + NatToDecimal(n + 1)
  }

  /** The slug the hook assigns to an entry whose candidate is `c` when the
      store holds `stored`. */
  function NextSlug(c: string, stored: seq<string>): (r: string)
    requires IsSlugText(c)
    ensures c <= r
    ensures IsSlugText(r)
    ensures (forall i :: 0 <= i < |stored| ==> !PatternMatches(c, stored[i])) ==> r == c
  {
    SlugForCount(c, |Find(c, stored)|)
  }

  /** Different counts give different slugs. */
  lemma SlugForCountInjective(c: string, m: nat, n: nat)
    requires SlugForCount(c, m) == SlugForCount(c, n)
    ensures m == n
  {
    if m > 0 && n > 0 {
      var a, b := SlugForCount(c, m), SlugForCount(c, n);
      assert a[|c| + 1..] == NatToDecimal(m + 1);
      assert b[|c| + 1..] == NatToDecimal(n + 1);
      NatToDecimalInjective(m + 1, n + 1);
    }
  }

  /** The assigned slug is always one that its own candidate's pattern
      selects, so it is counted by every later save of the same candidate. */
  lemma NextSlugMatchesCandidate(c: string, stored: seq<string>)
    requires IsSlugText(c)
    ensures PatternMatches(c, NextSlug(c, stored))
  {
    SuffixedFormsMatch(c, |Find(c, stored)| + 1);
  }

  /** Saving one more slug that matches raises the match count by one; one
      that does not match leaves it alone. */
  lemma {:induction false} FindAppend(c: string, stored: seq<string>, s: string)
    requires IsSlugText(c)
    ensures |Find(c, stored + [s])| == |Find(c, stored)| + if PatternMatches(c, s) then 1 else 0
  {
    var a, b := Find(c, stored + [s]), Find(c, stored);
    assert multiset(stored + [s]) == multiset(stored) + multiset{s};
    assert multiset(a) == multiset(b) + (if PatternMatches(c, s) then multiset{s} else multiset{}) by {
      forall x ensures multiset(a)[x] == (multiset(b) + (if PatternMatches(c, s) then multiset{s} else multiset{}))[x] {
      }
    }
    assert |multiset(a)| == |a| && |multiset(b)| == |b|;
  }

  /** Positions in the store of the slugs that the pattern for `c` selects. */
  ghost function MatchingPositions(c: string, stored: seq<string>): set<int>
  {
    set i | 0 <= i < |stored| && PatternMatches(c, stored[i])
  }

  /** `find` returns one document per matching stored slug. */
  lemma FindCountsMatches(c: string, stored: seq<string>)
    requires IsSlugText(c)
    ensures |Find(c, stored)| == |MatchingPositions(c, stored)|
  {
    var p := s => PatternMatches(c, s);
    FilterCount(stored, p);
    assert Positions(stored, p) == MatchingPositions(c, stored);
  }

  /** With N stored slugs matching the candidate's pattern, the hook keeps the
      candidate when N is zero, and otherwise appends a hyphen and the decimal
      numeral whose value is N + 1. */
  lemma NextSlugByMatchCount(c: string, stored: seq<string>)
    requires IsSlugText(c)
    ensures var n, r := |MatchingPositions(c, stored)|, NextSlug(c, stored);
      (n == 0 ==> r == c) &&
      (n > 0 ==> r == c + "-" + NatToDecimal(n + 1) && AllDigits(r[|c| + 1..]) &&
                 DecimalValue(r[|c| + 1..]) == n + 1)
  {
    FindCountsMatches(c, stored);
    var n := |MatchingPositions(c, stored)|;
    if n > 0 {
      var r := NextSlug(c, stored);
      assert r[|c| + 1..] == NatToDecimal(n + 1);
      DecimalRoundTrip(n + 1);
    }
  }

  /** The slugs produced by saving `k` entries with candidate `c` one after
      another, each save seeing the slugs of the ones before it. */
  function SaveRepeatedly(c: string, stored: seq<string>, k: nat): (r: seq<string>)
    requires IsSlugText(c)
    ensures |r| == k
    decreases k
  {
    if k == 0 then []
    else
      var s := NextSlug(c, stored);
      [s] + SaveRepeatedly(c, stored + [s], k - 1)
  }

  /** The slugs for counts n, n + 1, ..., n + k - 1. */
  function SlugsFrom(c: string, n: nat, k: nat): (r: seq<string>)
    ensures |r| == k
    decreases k
  {
    if k == 0 then [] else [SlugForCount(c, n)] + SlugsFrom(c, n + 1, k - 1)
  }

  lemma {:induction false} SlugsFromAt(c: string, n: nat, k: nat, i: nat)
    requires i < k
    ensures SlugsFrom(c, n, k)[i] == SlugForCount(c, n + i)
    decreases k
  {
    var tail := SlugsFrom(c, n + 1, k - 1);
    assert SlugsFrom(c, n, k) == [SlugForCount(c, n)] + tail;
    if i > 0 {
      SlugsFromAt(c, n + 1, k - 1, i - 1);
      assert SlugsFrom(c, n, k)[i] == tail[i - 1];
    }
  }

  /** The slugs for different counts differ. */
  lemma SlugsFromDistinct(c: string, n: nat, k: nat)
    ensures var r := SlugsFrom(c, n, k);
      forall i, j :: 0 <= i < j < k ==> r[i] != r[j]
  {
    var r := SlugsFrom(c, n, k);
    forall i, j | 0 <= i < j < k ensures r[i] != r[j] {
      SlugsFromAt(c, n, k, i);
      SlugsFromAt(c, n, k, j);
      if r[i] == r[j] { SlugForCountInjective(c, n + i, n + j); }
    }
  }

  /** Every slug for a count falls under the candidate's pattern. */
  lemma SlugsFromMatch(c: string, n: nat, k: nat)
    ensures var r := SlugsFrom(c, n, k);
      forall i :: 0 <= i < k ==> PatternMatches(c, r[i])
  {
    var r := SlugsFrom(c, n, k);
    forall i | 0 <= i < k ensures PatternMatches(c, r[i]) {
      SlugsFromAt(c, n, k, i);
      SuffixedFormsMatch(c, n + i + 1);
    }
  }

  /** Successive saves of one candidate get the slugs for the number of
      matches present before the first save, then one more each time. */
  lemma {:induction false} SaveRepeatedlySlugs(c: string, stored: seq<string>, k: nat)
    requires IsSlugText(c)
    ensures SaveRepeatedly(c, stored, k) == SlugsFrom(c, |Find(c, stored)|, k)
    decreases k
  {
    if k > 0 {
      var s := NextSlug(c, stored);
      NextSlugMatchesCandidate(c, stored);
      FindAppend(c, stored, s);
      SaveRepeatedlySlugs(c, stored + [s], k - 1);
    }
  }

  /** Saving the same name into a store where its candidate is unused gives
      pairwise different slugs, none of them already stored. */
  lemma SequentialSavesAreUnique(c: string, stored: seq<string>, k: nat)
    requires IsSlugText(c)
    requires forall i :: 0 <= i < |stored| ==> !PatternMatches(c, stored[i])
    ensures var r := SaveRepeatedly(c, stored, k);
      (forall i, j :: 0 <= i < j < k ==> r[i] != r[j]) &&
      (forall i :: 0 <= i < k ==> r[i] !in stored)
  {
    assert |Find(c, stored)| == 0;
    SaveRepeatedlySlugs(c, stored, k);
    SlugsFromDistinct(c, 0, k);
    SlugsFromMatch(c, 0, k);
  }

  /** The slugs for one and two earlier matches end in `-2` and `-3`. */
  lemma SecondAndThirdSlugs(c: string)
    ensures SlugForCount(c, 1) == c + "-2" && SlugForCount(c, 2) == c + "-3"
  {
    assert NatToDecimal(2) == "2" && NatToDecimal(3) == "3";
    assert c + "-" + "2" == c + "-2" && c + "-" + "3" == c + "-3";
  }

  /** Saving one name three times into a store where its candidate is
      unused gives the candidate, then its `-2` and `-3` forms (for the name
      "Al Noor": `al-noor`, `al-noor-2`, `al-noor-3`). */
  lemma ThreeSavesOfOneName(c: string, stored: seq<string>)
    requires IsSlugText(c)
    requires forall i :: 0 <= i < |stored| ==> !PatternMatches(c, stored[i])
    ensures SaveRepeatedly(c, stored, 3) == [c, c + "-2", c + "-3"]
  {
    assert |Find(c, stored)| == 0;
    SaveRepeatedlySlugs(c, stored, 3);
    FirstThreeSlugs(c);
  }

  lemma FirstThreeSlugs(c: string)
    ensures SlugsFrom(c, 0, 3) == [c, c + "-2", c + "-3"]
  {
    SecondAndThirdSlugs(c);
    SlugsFromAt(c, 0, 3, 0);
    SlugsFromAt(c, 0, 3, 1);
    SlugsFromAt(c, 0, 3, 2);
  }

  /** The count-based rule alone does not keep slugs unique: with the
      candidate and its `-3` form stored, two matches give the suffix 3 again. */
  lemma SlugCollision(c: string)
    requires IsSlugText(c)
    ensures NextSlug(c, [c, c + "-3"]) == c + "-3"
    ensures NextSlug(c, [c, c + "-3"]) in [c, c + "-3"]
  {
    var stored := [c, c + "-3"];
    SecondAndThirdSlugs(c);
    assert c + "-3" == c + "-" + NatToDecimal(3);
    SuffixedFormsMatch(c, 3);
    assert |Find(c, [])| == 0;
    FindAppend(c, [], c);
    assert [] + [c] == [c];
    FindAppend(c, [c], c + "-3");
    assert [c] + [c + "-3"] == stored;
  }

  /** Without a gap in the suffixes the rule is safe: when every matching
      stored slug is the slug for a smaller count, the new slug is not stored. */
  lemma FreshWithoutGaps(c: string, stored: seq<string>)
    requires IsSlugText(c)
    requires forall i :: 0 <= i < |stored| && PatternMatches(c, stored[i]) ==>
      exists m :: 0 <= m < |Find(c, stored)| && stored[i] == SlugForCount(c, m)
    ensures NextSlug(c, stored) !in stored
  {
    var r := NextSlug(c, stored);
    if r in stored {
      var i :| 0 <= i < |stored| && stored[i] == r;
      NextSlugMatchesCandidate(c, stored);
      var m :| 0 <= m < |Find(c, stored)| && stored[i] == SlugForCount(c, m);
      SlugForCountInjective(c, m, |Find(c, stored)|);
    }
  }

  // ---------------------------------------------------------------------------
  // The document the hook runs on

  /** The fields of a masjid document that the save hook reads or writes.
      `nameModified` is what the document store reports for the `name` path
      since the document was loaded; it is true for a new document. */
  class Document {
    var name: string
    var slug: string
    var nameModified: bool

    constructor (name: string)
      ensures this.name == name && slug == "" && nameModified
    {
      this.name := name;
      slug := "";
      nameModified := true;
    }

    /** A document read back from the store: nothing is modified yet. */
    constructor Load(name: string, slug: string)
      ensures this.name == name && this.slug == slug && !nameModified
    {
      this.name := name;
      this.slug := slug;
      nameModified := false;
    }

    /** Assigning the name marks it modified unless the value is unchanged. */
    method SetName(newName: string)
      modifies this`name, this`nameModified
      ensures name == newName
      ensures nameModified == (old(nameModified) || newName != old(name))
    {
      nameModified := nameModified || newName != name;
      name := newName;
    }

    /** The pre-save hook. `slugify` is the `slugs` library, `stored` the
        slugs of the documents already in the collection. */
    method PreSave(slugify: string -> string, stored: seq<string>)
      requires nameModified ==> IsSlugText(slugify(name))
      modifies this`slug
      ensures !nameModified ==> slug == old(slug)
      ensures nameModified ==> slug == NextSlug(slugify(name), stored)
    {
      if !nameModified {
        return;
      }
      slug := slugify(name);
      var matching := Find(slug, stored);
      if |matching| > 0 {
        slug := slug + "-" + NatToDecimal(|matching| + 1);
      }
    }
  }
}
