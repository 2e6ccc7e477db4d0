/**
  The candidate scan: the watched folder's names in sorted order, keeping
  image files whose ledger row is neither approved nor skipped, without
  repeats, stopping once the limit is reached.
*/
module Candidates {
  import opened Db
  import opened Strings

  /** `c.lower()` for one character; only ASCII letters change case here. */
  function LowerChar(c: char): char {
    if 'A' <= c <= 'Z' then (c as int + 32) as char else c
  }

  /** `s.lower()`, character by character. */
  function Lower(s: string): string
  {
    if |s| == 0 then [] else [LowerChar(s[0])] + Lower(s[1..])
  }

  /** Lowering keeps the length and lowers each character in place. */
  lemma {:induction false} LowerPointwise(s: string)
    ensures |Lower(s)| == |s|
    ensures forall i :: 0 <= i < |s| ==> Lower(s)[i] == LowerChar(s[i])
  {
    if |s| > 0 {
      LowerPointwise(s[1..]);
    }
  }

  /** `.jpg`, `.jpeg` or `.png`, in any letter case. */
  predicate HasImageExtension(name: string) {
    var low := Lower(name);
    EndsWith(low, ".jpg") || EndsWith(low, ".jpeg") || EndsWith(low, ".png")
  }

  /** A name the scan may return. */
  predicate Eligible(l: Ledger, name: string) {
    HasImageExtension(name) && !IsApproved(l, name) && !IsSkipped(l, name)
  }

  /**
    How many names the scan can return: the limit is checked after each
    append, so a limit below 1 still lets the first name through.
  */
  function Limit(maxCandidates: int): (n: nat)
    ensures 1 <= n
    ensures maxCandidates >= 1 ==> n == maxCandidates
    ensures maxCandidates < 1 ==> n == 1
  {
    if maxCandidates < 1 then 1 else maxCandidates
  }

  /**
    `files` is the scan's answer: eligible names from the listing, strictly
    ascending, at most `Limit` of them, and every eligible name left out
    lies beyond a full result.
  */
  ghost predicate IsCandidateList(l: Ledger, listing: seq<string>, maxCandidates: int, files: seq<string>) {
    && (forall i :: 0 <= i < |files| ==> files[i] in listing && Eligible(l, files[i]))
    && StrictlyIncreasing(files)
    && |files| <= Limit(maxCandidates)
    && (forall x :: x in listing && Eligible(l, x) && x !in files ==>
          |files| == Limit(maxCandidates) && Lt(files[|files| - 1], x))
  }

  /** Appending a name above the current last keeps the list strictly ascending. */
  lemma AppendAbove(files: seq<string>, f: string)
    requires StrictlyIncreasing(files)
    requires |files| > 0 ==> Lt(files[|files| - 1], f)
    ensures StrictlyIncreasing(files + [f])
  {
    var r := files + [f];
    forall a, b | 0 <= a < b < |r|
      ensures Lt(r[a], r[b])
    {
      if b == |files| && a < |files| - 1 {
        LtLeTransitive(files[a], files[|files| - 1], f);
      }
    }
  }

  /** A name of the listing sits at some position of the sorted listing. */
  lemma PositionInSorted(listing: seq<string>, names: seq<string>, x: string) returns (j: nat)
    requires multiset(names) == multiset(listing) && x in listing
    ensures j < |names| && names[j] == x
  {
    assert x in multiset(listing);
    assert x in names;
    j :| 0 <= j < |names| && names[j] == x;
  }

  /** The scan stopped at the limit right after taking `names[i]`: all later eligible names lie above. */
  lemma StoppedAtLimit(l: Ledger, listing: seq<string>, names: seq<string>, files: seq<string>, i: nat)
    requires multiset(names) == multiset(listing) && Sorted(names)
    requires i < |names| && |files| > 0 && files[|files| - 1] == names[i]
    requires forall j :: 0 <= j < i && Eligible(l, names[j]) ==> names[j] in files
    ensures forall x :: x in listing && Eligible(l, x) && x !in files ==> Lt(files[|files| - 1], x)
  {
    forall x | x in listing && Eligible(l, x) && x !in files
      ensures Lt(files[|files| - 1], x)
    {
      var j := PositionInSorted(listing, names, x);
    }
  }

  /** The scan ran through the whole sorted listing: no eligible name is missing. */
  lemma ScannedAll(l: Ledger, listing: seq<string>, names: seq<string>, files: seq<string>)
    requires multiset(names) == multiset(listing)
    requires forall j :: 0 <= j < |names| && Eligible(l, names[j]) ==> names[j] in files
    ensures forall x :: x in listing && Eligible(l, x) ==> x in files
  {
    forall x | x in listing && Eligible(l, x)
      ensures x in files
    {
      var j := PositionInSorted(listing, names, x);
    }
  }

  /**
    What the scan knows after looking at the first `i` sorted names: what it
    took is eligible, strictly ascending, includes every eligible name seen
    so far, and lies at or below every name still to come.
  */
  ghost predicate ScanInvariant(l: Ledger, listing: seq<string>, names: seq<string>, i: nat, files: seq<string>) {
    && i <= |names|
    && (forall k :: 0 <= k < |files| ==> files[k] in listing && Eligible(l, files[k]))
    && StrictlyIncreasing(files)
    && (forall j :: 0 <= j < i && Eligible(l, names[j]) ==> names[j] in files)
    && (|files| > 0 ==> forall j :: i <= j < |names| ==> Le(files[|files| - 1], names[j]))
  }

  /** Taking the next sorted name, when it is eligible and new, keeps the invariant. */
  lemma ScanTake(l: Ledger, listing: seq<string>, names: seq<string>, i: nat, files: seq<string>)
    requires multiset(names) == multiset(listing) && Sorted(names)
    requires ScanInvariant(l, listing, names, i, files) && i < |names|
    requires Eligible(l, names[i]) && names[i] !in files
    ensures ScanInvariant(l, listing, names, i + 1, files + [names[i]])
  {
    var f := names[i];
    assert f in listing by {
      assert f in multiset(names);
    }
    AppendAbove(files, f);
  }

  /** Passing over the next sorted name, when it is ineligible or taken, keeps the invariant. */
  lemma ScanPass(l: Ledger, listing: seq<string>, names: seq<string>, i: nat, files: seq<string>)
    requires ScanInvariant(l, listing, names, i, files) && i < |names|
    requires !Eligible(l, names[i]) || names[i] in files
    ensures ScanInvariant(l, listing, names, i + 1, files)
  {
  }

  /** The scan stops right after taking `names[i]` and filling the result: its answer is a candidate list. */
  lemma FinishAtLimit(l: Ledger, listing: seq<string>, maxCandidates: int, names: seq<string>, i: nat, files: seq<string>)
    requires multiset(names) == multiset(listing) && Sorted(names)
    requires ScanInvariant(l, listing, names, i + 1, files) && i < |names|
    requires |files| > 0 && files[|files| - 1] == names[i]
    requires maxCandidates <= |files| <= Limit(maxCandidates)
    ensures IsCandidateList(l, listing, maxCandidates, files)
  {
    StoppedAtLimit(l, listing, names, files, i);
  }

  /** The scan ran off the end of the sorted listing below the limit: its answer is a candidate list. */
  lemma FinishScanned(l: Ledger, listing: seq<string>, maxCandidates: int, names: seq<string>, files: seq<string>)
    requires multiset(names) == multiset(listing)
    requires ScanInvariant(l, listing, names, |names|, files)
    requires |files| < Limit(maxCandidates)
    ensures IsCandidateList(l, listing, maxCandidates, files)
  {
    ScannedAll(l, listing, names, files);
  }

  method UnprocessedCandidates(l: Ledger, listing: seq<string>, maxCandidates: int) returns (files: seq<string>)
    ensures IsCandidateList(l, listing, maxCandidates, files)
  {
    var names := Sort(listing);
    files := [];
    var seen: set<string> := {};
    var i := 0;
    while i < |names|
      invariant ScanInvariant(l, listing, names, i, files)
      invariant forall x :: x in seen <==> x in files
      invariant |files| < Limit(maxCandidates)
    {
      var f := names[i];
      // Skip names without an image extension, with a flag set, or already taken.
      if Eligible(l, f) && f !in seen {
        ScanTake(l, listing, names, i, files);
        var taken := files + [f];
        if |taken| >= maxCandidates {
          FinishAtLimit(l, listing, maxCandidates, names, i, taken);
          return taken;
        }
        seen, files := seen + {f}, taken;
      } else {
        ScanPass(l, listing, names, i, files);
      }
      i := i + 1;
    }
    FinishScanned(l, listing, maxCandidates, names, files);
  }

  /** Two ledgers that agree on which listed names are eligible. */
  ghost predicate SameEligibility(l1: Ledger, l2: Ledger, listing: seq<string>) {
    forall x :: x in listing ==> (Eligible(l1, x) <==> Eligible(l2, x))
  }

  lemma NotBelowOfLe(a: string, b: string)
    requires Le(b, a)
    ensures !Lt(a, b)
  {
  }

  /** A strictly ascending list's element at `i` differs from everything before it, in any list sharing that prefix. */
  lemma NotInSharedPrefix(fa: seq<string>, fb: seq<string>, i: nat)
    requires StrictlyIncreasing(fa) && i < |fa| && i <= |fb| && fa[..i] == fb[..i]
    ensures forall k :: 0 <= k < i ==> fb[k] != fa[i]
  {
  }

  /** Where two answers first differ, the first cannot hold the smaller name. */
  lemma NotSmallerAtFirstDifference(l1: Ledger, l2: Ledger, listing: seq<string>, maxCandidates: int,
                                    fa: seq<string>, fb: seq<string>, i: nat)
    requires SameEligibility(l1, l2, listing)
    requires IsCandidateList(l1, listing, maxCandidates, fa) && IsCandidateList(l2, listing, maxCandidates, fb)
    requires i < |fa| && i < |fb| && fa[..i] == fb[..i]
    ensures !Lt(fa[i], fb[i])
  {
    var x := fa[i];
    assert x in listing && Eligible(l2, x);
    if x in fb {
      var k :| 0 <= k < |fb| && fb[k] == x;
      NotInSharedPrefix(fa, fb, i);
      if k > i {
        NotBelowOfLe(x, fb[i]);
      }
    } else {
      var last := fb[|fb| - 1];
      if i < |fb| - 1 {
        LeTransitive(fb[i], last, x);
      }
      NotBelowOfLe(x, fb[i]);
    }
  }

  /** If `fb` extends `fa`, its next name is eligible for `l1` yet missing from `fa`. */
  lemma NextIsMissing(l1: Ledger, l2: Ledger, listing: seq<string>, maxCandidates: int, fa: seq<string>, fb: seq<string>)
    requires SameEligibility(l1, l2, listing)
    requires IsCandidateList(l2, listing, maxCandidates, fb)
    requires |fa| < |fb| && fa == fb[..|fa|]
    ensures fb[|fa|] in listing && Eligible(l1, fb[|fa|]) && fb[|fa|] !in fa
  {
  }

  /** An answer that agrees with another on its whole length is at least as long. */
  lemma NotShorter(l1: Ledger, l2: Ledger, listing: seq<string>, maxCandidates: int, fa: seq<string>, fb: seq<string>)
    requires SameEligibility(l1, l2, listing)
    requires IsCandidateList(l1, listing, maxCandidates, fa) && IsCandidateList(l2, listing, maxCandidates, fb)
    requires |fa| <= |fb| && fa == fb[..|fa|]
    ensures |fa| == |fb|
  {
    if |fa| < |fb| {
      NextIsMissing(l1, l2, listing, maxCandidates, fa, fb);
      assert false;
    }
  }

  /** The length of the longest common prefix of two lists. */
  lemma FirstDifference(fa: seq<string>, fb: seq<string>) returns (i: nat)
    ensures i <= |fa| && i <= |fb| && fa[..i] == fb[..i]
    ensures i < |fa| && i < |fb| ==> fa[i] != fb[i]
  {
    i := 0;
    while i < |fa| && i < |fb| && fa[i] == fb[i]
      invariant i <= |fa| && i <= |fb| && fa[..i] == fb[..i]
    {
      assert fa[..i + 1] == fa[..i] + [fa[i]];
      assert fb[..i + 1] == fb[..i] + [fb[i]];
      i := i + 1;
    }
  }

  /**
    The scan's answer is determined by the listing, the limit and which
    names are eligible: two ledgers with the same approved and skipped
    names yield the same candidates.
  */
  lemma CandidateListUnique(l1: Ledger, l2: Ledger, listing: seq<string>, maxCandidates: int,
                            f1: seq<string>, f2: seq<string>)
    requires SameEligibility(l1, l2, listing)
    requires IsCandidateList(l1, listing, maxCandidates, f1) && IsCandidateList(l2, listing, maxCandidates, f2)
    ensures f1 == f2
  {
    var i := FirstDifference(f1, f2);
    if i < |f1| && i < |f2| {
      NotSmallerAtFirstDifference(l1, l2, listing, maxCandidates, f1, f2, i);
      NotSmallerAtFirstDifference(l2, l1, listing, maxCandidates, f2, f1, i);
      LeTotal(f1[i], f2[i]);
    } else if i == |f1| {
      NotShorter(l1, l2, listing, maxCandidates, f1, f2);
    } else {
      NotShorter(l2, l1, listing, maxCandidates, f2, f1);
    }
  }

  /**
    Recording a suggestion leaves every name's eligibility as it was, so
    the next scan over the same listing returns the same candidates.
  */
  lemma SuggestionKeepsCandidates(l: Ledger, name: string, at: string, score: real, caption: string,
                                  listing: seq<string>, maxCandidates: int, f1: seq<string>, f2: seq<string>)
    requires IsCandidateList(l, listing, maxCandidates, f1)
    requires IsCandidateList(MarkSuggested(l, name, at, score, caption), listing, maxCandidates, f2)
    ensures f1 == f2
  {
    var l' := MarkSuggested(l, name, at, score, caption);
    forall x | x in listing
      ensures Eligible(l, x) <==> Eligible(l', x)
    {
      SuggestKeepsFlags(l, name, at, score, caption, x);
    }
    CandidateListUnique(l, l', listing, maxCandidates, f1, f2);
  }

  /** After a row is approved or skipped, no scan returns that name. */
  lemma DecidedNeverCandidate(l: Ledger, name: string, listing: seq<string>, maxCandidates: int, files: seq<string>)
    requires name in l
    requires IsCandidateList(MarkApproved(l, name), listing, maxCandidates, files)
             || IsCandidateList(MarkSkipped(l, name), listing, maxCandidates, files)
    ensures name !in files
  {
  }

  /**
    A limit of zero or less still lets exactly one name through whenever
    the listing holds an eligible one, because the limit is checked only
    after the first append.
  */
  lemma NonPositiveLimitGivesOne(l: Ledger, listing: seq<string>, maxCandidates: int, files: seq<string>, x: string)
    requires maxCandidates < 1
    requires IsCandidateList(l, listing, maxCandidates, files)
    requires x in listing && Eligible(l, x)
    ensures |files| == 1
  {
    if x !in files {
      assert |files| == Limit(maxCandidates);
    } else {
      assert |files| >= 1;
    }
  }
}
