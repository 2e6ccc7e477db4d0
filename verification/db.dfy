/**
  The `photos` ledger: one row per file name with the time it was last
  suggested, the approved and skipped flags (SQL integers, set to 1 by
  the decision path), the caption and the score. The table is a map from
  file name to row; each operation is one SQL statement.
*/
module Db {

  datatype Entry = Entry(suggestedAt: string, approved: int, skipped: int, caption: string, score: real)

  type Ledger = map<string, Entry>

  /**
    INSERT OR REPLACE of a suggestion: new time, caption and score; the
    flags are read from the row being replaced, or 0 when there is none.
  */
  function MarkSuggested(l: Ledger, name: string, suggestedAt: string, score: real, caption: string): (l': Ledger)
    ensures l'.Keys == l.Keys + {name}
    ensures l'[name].suggestedAt == suggestedAt && l'[name].caption == caption && l'[name].score == score
    ensures l'[name].approved == (if name in l then l[name].approved else 0)
    ensures l'[name].skipped == (if name in l then l[name].skipped else 0)
    ensures forall k :: k in l && k != name ==> l'[k] == l[k]
  {
    var approved := if name in l then l[name].approved else 0;
    var skipped := if name in l then l[name].skipped else 0;
    l[name := Entry(suggestedAt, approved, skipped, caption, score)]
  }

  /** UPDATE ... SET approved=1: no row, no change. */
  function MarkApproved(l: Ledger, name: string): (l': Ledger)
    ensures l'.Keys == l.Keys
    ensures name in l ==> l'[name] == l[name].(approved := 1)
    ensures forall k :: k in l && k != name ==> l'[k] == l[k]
  {
    if name in l then l[name := l[name].(approved := 1)] else l
  }

  /** UPDATE ... SET skipped=1: no row, no change. */
  function MarkSkipped(l: Ledger, name: string): (l': Ledger)
    ensures l'.Keys == l.Keys
    ensures name in l ==> l'[name] == l[name].(skipped := 1)
    ensures forall k :: k in l && k != name ==> l'[k] == l[k]
  {
    if name in l then l[name := l[name].(skipped := 1)] else l
  }

  /** The names `SELECT filename FROM photos WHERE approved=1` returns. */
  function ApprovedNames(l: Ledger): (names: set<string>)
    ensures forall n :: n in names ==> n in l
  {
    set n | n in l.Keys && l[n].approved == 1
  }

  /** The names `SELECT filename FROM photos WHERE skipped=1` returns. */
  function SkippedNames(l: Ledger): (names: set<string>)
    ensures forall n :: n in names ==> n in l
  {
    set n | n in l.Keys && l[n].skipped == 1
  }

  /**
    `is_approved`: a file without a row reads as not approved. It agrees
    with the set the scan collects with its `approved=1` query.
  */
  function IsApproved(l: Ledger, name: string): (b: bool)
    ensures b ==> name in l
    ensures b <==> name in ApprovedNames(l)
  {
    name in l && l[name].approved == 1
  }

  /**
    `is_skipped`: a file without a row reads as not skipped. It agrees
    with the set the scan collects with its `skipped=1` query.
  */
  function IsSkipped(l: Ledger, name: string): (b: bool)
    ensures b ==> name in l
    ensures b <==> name in SkippedNames(l)
  {
    name in l && l[name].skipped == 1
  }

  /** A row no later suggestion may reopen: approved or skipped. */
  predicate IsTerminal(l: Ledger, name: string) {
    IsApproved(l, name) || IsSkipped(l, name)
  }

  /** Every flag holds 0 or 1, as the SQL statements only ever write those. */
  ghost predicate FlagsBinary(l: Ledger) {
    forall k :: k in l ==> l[k].approved in {0, 1} && l[k].skipped in {0, 1}
  }

  /** A suggestion never changes either flag of any file. */
  lemma SuggestKeepsFlags(l: Ledger, name: string, at: string, score: real, caption: string, f: string)
    ensures IsApproved(MarkSuggested(l, name, at, score, caption), f) == IsApproved(l, f)
    ensures IsSkipped(MarkSuggested(l, name, at, score, caption), f) == IsSkipped(l, f)
  {
  }

  /** Approving: the row is approved afterwards iff it existed; skipped is untouched; twice is once. */
  lemma ApproveEffect(l: Ledger, name: string, f: string)
    ensures IsApproved(MarkApproved(l, name), name) <==> name in l
    ensures f != name ==> IsApproved(MarkApproved(l, name), f) == IsApproved(l, f)
    ensures IsSkipped(MarkApproved(l, name), f) == IsSkipped(l, f)
    ensures MarkApproved(MarkApproved(l, name), name) == MarkApproved(l, name)
  {
  }

  /** Skipping: the row is skipped afterwards iff it existed; approved is untouched; twice is once. */
  lemma SkipEffect(l: Ledger, name: string, f: string)
    ensures IsSkipped(MarkSkipped(l, name), name) <==> name in l
    ensures f != name ==> IsSkipped(MarkSkipped(l, name), f) == IsSkipped(l, f)
    ensures IsApproved(MarkSkipped(l, name), f) == IsApproved(l, f)
    ensures MarkSkipped(MarkSkipped(l, name), name) == MarkSkipped(l, name)
  {
  }

  /** The ledger statements the program issues. */
  datatype Op =
    | Suggest(name: string, suggestedAt: string, score: real, caption: string)
    | Approve(name: string)
    | Skip(name: string)

  function Apply(l: Ledger, op: Op): Ledger {
    match op
    case Suggest(n, at, s, c) => MarkSuggested(l, n, at, s, c)
    case Approve(n) => MarkApproved(l, n)
    case Skip(n) => MarkSkipped(l, n)
  }

  function ApplyAll(l: Ledger, ops: seq<Op>): Ledger
    decreases |ops|
  {
    if |ops| == 0 then l else ApplyAll(Apply(l, ops[0]), ops[1..])
  }

  /**
    Flags never reset: whatever statements follow, an approved row stays
    approved and a skipped row stays skipped, and flags stay 0 or 1.
  */
  lemma {:induction false} FlagsNeverReset(l: Ledger, ops: seq<Op>, f: string)
    ensures IsApproved(l, f) ==> IsApproved(ApplyAll(l, ops), f)
    ensures IsSkipped(l, f) ==> IsSkipped(ApplyAll(l, ops), f)
    ensures FlagsBinary(l) ==> FlagsBinary(ApplyAll(l, ops))
    decreases |ops|
  {
    if |ops| > 0 {
      FlagsNeverReset(Apply(l, ops[0]), ops[1..], f);
    }
  }
}
