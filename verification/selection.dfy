/**
  One suggestion pass: score every candidate, drop those whose reading or
  analysis failed, take the best score with ties going to the earliest
  candidate, record it in the ledger, and build the two button payloads.
*/
module Selection {
  import opened Wrappers
  import opened Db
  import opened Scoring
  import Captions
  import Candidates

  /** A successfully evaluated candidate: its composite score and caption. */
  datatype Evaluated = Evaluated(score: real, caption: string)

  /**
    Evaluate one file. `analyse` stands for reading the file and running
    the image analysis; None is any exception on the way.
  */
  function Evaluate(name: string, analyse: string -> Option<Features>, year: nat): (e: Option<Evaluated>)
    ensures e.None? <==> analyse(name).None?
    ensures e.Some? ==> e.value.score == ComputeScore(analyse(name).value).score
    ensures e.Some? ==> e.value.caption == Captions.Caption(name, ComputeScore(analyse(name).value), year)
    ensures e.Some? && FeaturesInRange(analyse(name).value) ==> 0.0 <= e.value.score <= 1.0
  {
    match analyse(name)
    case None => None
    case Some(f) =>
      var rep := ComputeScore(f);
      Some(Evaluated(rep.score, Captions.Caption(name, rep, year)))
  }

  function EvaluateAll(candidates: seq<string>, analyse: string -> Option<Features>, year: nat): (evals: seq<Option<Evaluated>>)
    ensures |evals| == |candidates|
    ensures forall i :: 0 <= i < |candidates| ==> evals[i] == Evaluate(candidates[i], analyse, year)
  {
    seq(|candidates|, i requires 0 <= i < |candidates| => Evaluate(candidates[i], analyse, year))
  }

  /**
    Position `k` is what a stable sort by descending score puts first: it
    evaluated, nothing scores higher, and every earlier success scores
    strictly lower.
  */
  ghost predicate IsFirstBest(evals: seq<Option<Evaluated>>, k: int) {
    && 0 <= k < |evals| && evals[k].Some?
    && (forall j :: 0 <= j < |evals| && evals[j].Some? ==> evals[j].value.score <= evals[k].value.score)
    && (forall j :: 0 <= j < k && evals[j].Some? ==> evals[j].value.score < evals[k].value.score)
  }

  /** The winner of the ranking, or None when nothing evaluated. */
  method PickBest(evals: seq<Option<Evaluated>>) returns (best: Option<nat>)
    ensures best.None? <==> forall i :: 0 <= i < |evals| ==> evals[i].None?
    ensures best.Some? ==> IsFirstBest(evals, best.value)
  {
    best := None;
    var i := 0;
    while i < |evals|
      invariant 0 <= i <= |evals|
      invariant best.None? <==> forall j :: 0 <= j < i ==> evals[j].None?
      invariant best.Some? ==> best.value < i && IsFirstBest(evals[..i], best.value)
    {
      if evals[i].Some? {
        if best.None? || evals[best.value].value.score < evals[i].value.score {
          best := Some(i);
        }
      }
      i := i + 1;
    }
    assert evals[..i] == evals;
  }

  /** Only one position can be the first best. */
  lemma FirstBestUnique(evals: seq<Option<Evaluated>>, j: int, k: int)
    requires IsFirstBest(evals, j) && IsFirstBest(evals, k)
    ensures j == k
  {
  }

  /** Payload of the approve button: the action, a colon, then the file name. */
  function ApproveData(name: string): (d: string)
    ensures |d| == |name| + 8 && d[..8] == "approve:" && d[8..] == name
  {
    "approve:" + name
  }

  /** Payload of the skip button: the action, a colon, then the file name. */
  function SkipData(name: string): (d: string)
    ensures |d| == |name| + 5 && d[..5] == "skip:" && d[5..] == name
  {
    "skip:" + name
  }

  datatype Suggestion =
    | NoSuggestion
    | Suggested(name: string, score: real, caption: string, approveData: string, skipData: string)

  datatype PassResult = PassResult(ledger: Ledger, suggestion: Suggestion)

  /**
    What ranking `candidates` and recording the winner produces: no
    suggestion exactly when nothing evaluated, and the ledger untouched
    then; otherwise the first best candidate, with its own score and
    caption, recorded once, and its two button payloads.
  */
  ghost predicate RankedAndRecorded(l: Ledger, candidates: seq<string>, analyse: string -> Option<Features>,
                                    year: nat, now: string, res: PassResult) {
    && (res.suggestion.NoSuggestion? <==> forall i :: 0 <= i < |candidates| ==> analyse(candidates[i]).None?)
    && (res.suggestion.NoSuggestion? ==> res.ledger == l)
    && (res.suggestion.Suggested? ==>
          var s := res.suggestion;
          && s.name in candidates
          && (exists k :: IsFirstBest(EvaluateAll(candidates, analyse, year), k) && candidates[k] == s.name)
          && (forall j :: 0 <= j < |candidates| && analyse(candidates[j]).Some? ==>
                Evaluate(candidates[j], analyse, year).value.score <= s.score)
          && analyse(s.name).Some?
          && s.score == Evaluate(s.name, analyse, year).value.score
          && s.caption == Captions.Caption(s.name, ComputeScore(analyse(s.name).value), year)
          && res.ledger == MarkSuggested(l, s.name, now, s.score, s.caption)
          && s.approveData == ApproveData(s.name) && s.skipData == SkipData(s.name))
  }

  /**
    Rank `candidates` (the scan's answer) and record the winner. `year` is
    the caption's year and `now` the ISO timestamp written as
    `suggested_at`; both come from the clock.
  */
  method SelectAndRecord(l: Ledger, candidates: seq<string>, analyse: string -> Option<Features>,
                         year: nat, now: string) returns (res: PassResult)
    ensures |candidates| == 0 ==> res == PassResult(l, NoSuggestion)
    ensures RankedAndRecorded(l, candidates, analyse, year, now, res)
  {
    if |candidates| == 0 {
      return PassResult(l, NoSuggestion);
    }
    var evals := EvaluateAll(candidates, analyse, year);
    var best := PickBest(evals);
    if best.None? {
      return PassResult(l, NoSuggestion);
    }
    var k := best.value;
    var name, e := candidates[k], evals[k].value;
    var l' := MarkSuggested(l, name, now, e.score, e.caption);
    res := PassResult(l', Suggested(name, e.score, e.caption, ApproveData(name), SkipData(name)));
  }

  /** Recording a name from a candidate list touches no approved or skipped row. */
  lemma RecordingACandidate(l: Ledger, listing: seq<string>, maxCandidates: int, candidates: seq<string>,
                            name: string, now: string, score: real, caption: string)
    requires Candidates.IsCandidateList(l, listing, maxCandidates, candidates)
    requires name in candidates
    ensures name in listing && Candidates.Eligible(l, name)
    ensures forall f :: IsTerminal(l, f) ==>
      var l' := MarkSuggested(l, name, now, score, caption);
      f in l' && l'[f] == l[f]
  {
  }

  /**
    A whole pass: scan the folder listing against the ledger, then rank
    and record. The winner is always an eligible name, so a row that is
    already approved or skipped is never rewritten.
  */
  method ChooseAndSend(l: Ledger, listing: seq<string>, maxCandidates: int, analyse: string -> Option<Features>,
                       year: nat, now: string) returns (candidates: seq<string>, res: PassResult)
    ensures Candidates.IsCandidateList(l, listing, maxCandidates, candidates)
    ensures RankedAndRecorded(l, candidates, analyse, year, now, res)
    ensures res.suggestion.Suggested? ==>
      res.suggestion.name in listing && Candidates.Eligible(l, res.suggestion.name)
    ensures forall f :: IsTerminal(l, f) ==> f in res.ledger && res.ledger[f] == l[f]
  {
    candidates := Candidates.UnprocessedCandidates(l, listing, maxCandidates);
    res := SelectAndRecord(l, candidates, analyse, year, now);
    if res.suggestion.Suggested? {
      var s := res.suggestion;
      RecordingACandidate(l, listing, maxCandidates, candidates, s.name, now, s.score, s.caption);
    }
  }

  /** Ranking the same candidates with the same analyses picks the same winner. */
  lemma SameRanking(l1: Ledger, l2: Ledger, candidates: seq<string>, analyse: string -> Option<Features>,
                    year: nat, now1: string, now2: string, r1: PassResult, r2: PassResult)
    requires RankedAndRecorded(l1, candidates, analyse, year, now1, r1)
    requires RankedAndRecorded(l2, candidates, analyse, year, now2, r2)
    ensures r1.suggestion.NoSuggestion? <==> r2.suggestion.NoSuggestion?
    ensures r1.suggestion.Suggested? ==> r2.suggestion == r1.suggestion
  {
  }

  /**
    Running the pass again over the ledger the first pass left, with the
    same listing and the same analyses, suggests the same photo with the
    same score, caption and payloads.
  */
  lemma RepeatedPassSameWinner(l: Ledger, listing: seq<string>, maxCandidates: int,
                               analyse: string -> Option<Features>, year: nat, now1: string, now2: string,
                               c1: seq<string>, r1: PassResult, c2: seq<string>, r2: PassResult)
    requires Candidates.IsCandidateList(l, listing, maxCandidates, c1)
    requires RankedAndRecorded(l, c1, analyse, year, now1, r1)
    requires Candidates.IsCandidateList(r1.ledger, listing, maxCandidates, c2)
    requires RankedAndRecorded(r1.ledger, c2, analyse, year, now2, r2)
    ensures r1.suggestion.NoSuggestion? <==> r2.suggestion.NoSuggestion?
    ensures r1.suggestion.Suggested? ==> r2.suggestion == r1.suggestion
  {
    if r1.suggestion.Suggested? {
      var s := r1.suggestion;
      Candidates.SuggestionKeepsCandidates(l, s.name, now1, s.score, s.caption, listing, maxCandidates, c1, c2);
    } else {
      Candidates.CandidateListUnique(l, l, listing, maxCandidates, c1, c2);
    }
    SameRanking(l, r1.ledger, c1, analyse, year, now1, now2, r1, r2);
  }

  /**
    The suggested photo carries the analyser's composite score, and no
    candidate whose analysis succeeded has a higher one.
  */
  lemma WinnerHasMaxComposite(l: Ledger, candidates: seq<string>, analyse: string -> Option<Features>,
                              year: nat, now: string, res: PassResult)
    requires RankedAndRecorded(l, candidates, analyse, year, now, res)
    requires res.suggestion.Suggested?
    ensures analyse(res.suggestion.name).Some?
    ensures res.suggestion.score == ComputeScore(analyse(res.suggestion.name).value).score
    ensures forall c :: c in candidates && analyse(c).Some? ==>
      ComputeScore(analyse(c).value).score <= res.suggestion.score
  {
    forall c | c in candidates && analyse(c).Some?
      ensures ComputeScore(analyse(c).value).score <= res.suggestion.score
    {
      var j :| 0 <= j < |candidates| && candidates[j] == c;
      assert Evaluate(candidates[j], analyse, year).value.score <= res.suggestion.score;
    }
  }
}
