# Photo-suggestion bot: decision logic in Dafny

This project models the deterministic core of a bot that suggests one
photo a week to a human curator. Telegram, SQLite, the image libraries and
the clock are outside the model. What remains:

- **Scoring** (`scoring.dfy`, module `Scoring`). Colour warmth, the
  piecewise season score keyed by the capture month, the face
  normalisation and the fixed-weight composite score. The image-derived
  measurements arrive as a `Features` value: tanh-normalised sharpness,
  brightness, dominant RGB, face count and month.
- **Captions** (`captions.dfy`, module `Captions`). The caption text: file
  name, category tag, optional tone tag and a hashtag line ending in the
  year.
- **Scheduler** (`scheduler.dfy`, module `Scheduler`). The next Sunday at
  the configured hour and minute, on a naive local calendar. A date is its
  proleptic Gregorian ordinal, as Python counts it, paired with the second
  of the day.
- **Ledger** (`db.dfy`, module `Db`). The `photos` table as a
  `map<string, Entry>`:
  - insert-or-replace of a suggestion, which keeps the flags;
  - approve and skip as updates that do nothing when the row is missing;
  - the flag queries.
- **Candidate scan** (`candidates.dfy`, module `Candidates`). The folder
  listing, sorted. The scan keeps image files that are neither approved
  nor skipped, drops repeats and stops at the limit.
- **Selection pass** (`selection.dfy`, module `Selection`). It drops
  failed evaluations, takes the first maximal score, records exactly one
  winner and builds the `approve:`/`skip:` button payloads.
- **Decision path** (`callback.dfy`, module `Callback`). It splits the
  button payload at the first colon and dispatches to approve or skip.
  An approved file gets an archive name that avoids collisions
  (`base_i.ext`).

Helper modules:

- `Wrappers` holds `Option`.
- `Decimal` writes a number in decimal, as Python's `str(n)` does, and
  proves that reading the text back gives the number.
- `Strings` holds Python's ordering of `str` values, a sort proved to
  return a sorted permutation, and the lemma that the first separator
  fixes a split.

Three behaviours of the code that the model reproduces as they are:

- `mark_suggested` (db.py:30-38) replaces the whole row of an approved or
  skipped file. It rewrites `suggested_at`, `caption` and `score`, and only
  the two flags carry over. `Db.MarkSuggested` models exactly that.
  `Selection.ChooseAndSend` proves that a full pass never reaches such a
  row, because the winner is always an eligible name.
- `approve:` sets `approved` on a row that is already skipped, and `skip:`
  sets `skipped` on a row that is already approved (main.py:79-80 and
  main.py:101-102). Neither checks the other flag. `Db.MarkApproved`,
  `Db.MarkSkipped` and `Callback.HandleCallback` do the same, so a row can
  end up with both flags set.
- The dominant-colour clustering is seeded, but the pixel subsample
  before it is drawn without a seed. The colour is an input here, so
  nothing is claimed about it being reproducible.

## Model

| member | source | states |
|---|---|---|
| Scoring.ColorWarmth | analyzer.py:40-42 | warmth times 255 is r − b; it is positive exactly when r > b and negative exactly when r < b; for components in 0..255 it lies in [−1, 1] |
| Scoring.SeasonScore | analyzer.py:59-69 | with no month, or one outside 1..12, the score is exactly 0.5; for warmth in [−1, 1] it lies in [0, 1]; in spring it is at least 0.5, and at most 0.7 for warmth in [−1, 1] |
| Scoring.SeasonMatchScore | analyzer.py:52-69 | the season score of a dominant colour lies in [0, 1] when the colour's components are in 0..255; with no month it is 0.5 |
| Scoring.SeasonLines | analyzer.py:61-68 | winter gives 0.5 − 0.5·w, spring 0.5 + 0.2·\|w\|, summer 0.5 + 0.5·w, autumn 0.5 + 0.4·w |
| Scoring.SeasonPreference | analyzer.py:60-68 | winter strictly prefers cooler colours; summer and autumn strictly prefer warmer ones; spring scores w and −w alike and grows with \|w\| |
| Scoring.SeasonExamples | analyzer.py:61-69 | January with warmth −0.5 gives 0.75; July with warmth 0.4 gives 0.7; no month gives 0.5 |
| Scoring.FaceNorm | analyzer.py:82 | the face norm lies in [0, 1]; it is 1 exactly when there are three or more faces; below three it is faces/3 |
| Scoring.WeightsSumToOne | analyzer.py:84 | the four weights 0.55, 0.2, 0.15 and 0.1 sum to 1 |
| Scoring.Composite | analyzer.py:84 | when all four sub-scores lie in [0, 1], so does the composite |
| Scoring.CompositeMonotone | analyzer.py:84 | raising any sub-score never lowers the composite; all zeros give 0 and all ones give 1 |
| Scoring.ComputeScore | analyzer.py:72-93 | the report carries the measured sharpness, brightness, dominant colour and face count through unchanged. Its season score is the season score of the dominant colour for the capture month. Its score is the 0.55/0.2/0.15/0.1 blend of sharpness, brightness, season score and face norm. With in-range features both the score and the season score lie in [0, 1] |
| Captions.ToneTag | analyzer.py:103-108 | "warm tones" iff r > 180 and g > 120; "cool tones" iff not warm and b > 140; no tone tag otherwise |
| Captions.Caption | analyzer.py:96-118 | the caption starts with the file name followed by " \| " and ends with "#" and the year |
| Captions.CaptionShape | analyzer.py:97-117 | after the name comes the category tag ("portrait" when faces > 0, else "shot"), then the tone tag after " · " if there is one, then a blank line, then "#portrait #people #" or "#photooftheday #" and the year |
| Captions.CaptionDeterminesTags | analyzer.py:96-118 | for one file name, equal captions mean the same face/no-face category, the same tone tag and the same year |
| Scheduler.DaysToTarget | utils.py:9-13 | the day offset lies in 0..7 and always lands on a Sunday; it is 0 exactly on a Sunday before the target time and 7 exactly on a Sunday at or after it |
| Scheduler.NextRun | utils.py:7-16 | an out-of-range hour or minute is an error (ValueError in the source). A date past 9999-12-31 is an error (OverflowError in the source), and only when no representable Sunday at hour:minute:00 lies after now. Otherwise the run is on a Sunday, at exactly hour:minute:00, strictly after now and at most 7 days after now's date |
| Scheduler.NextRunIsEarliest | utils.py:10-15 | no Sunday at the target time strictly after now comes before the chosen run |
| Scheduler.NoRunAfter | utils.py:10-15 | when the Sunday the day count picks is past 9999-12-31, every representable Sunday at the target time is at or before now |
| Scheduler.SundayRule | utils.py:12-13 | on a Sunday before the target time the run is the same day; at or after it, exactly 7 days later |
| Scheduler.ScheduleExamples | utils.py:10-15 | for 21:00, Sunday 20:00 gives the same day at 21:00; Sunday 22:00 gives the next Sunday at 21:00; Tuesday 10:00 gives the Sunday five days on |
| Db.IsApproved | db.py:62-69 | a file without a row is not approved; a file is approved exactly when it is in the set the scan's `approved=1` query returns (db.py:88-90) |
| Db.IsSkipped | db.py:72-79 | a file without a row is not skipped; a file is skipped exactly when it is in the set the scan's `skipped=1` query returns (db.py:91-93) |
| Db.MarkSuggested | db.py:30-38 | the row gets the new time, caption and score; approved and skipped are copied from the replaced row, or 0 without one; every other row is unchanged |
| Db.MarkApproved | db.py:44-47 | an existing row gets approved = 1 and nothing else changes; a missing row means no change at all |
| Db.MarkSkipped | db.py:53-56 | an existing row gets skipped = 1 and nothing else changes; a missing row means no change at all |
| Db.SuggestKeepsFlags | db.py:33-37 | a suggestion leaves every file's approved and skipped status as it was |
| Db.ApproveEffect | db.py:47 | after approving, the file counts as approved iff its row existed; other files' approval and all skip flags are unchanged; approving twice equals approving once |
| Db.SkipEffect | db.py:56 | after skipping, the file counts as skipped iff its row existed; other files' skip flags and all approval flags are unchanged; skipping twice equals skipping once |
| Db.FlagsNeverReset | db.py:30-79 | over any sequence of suggest, approve and skip statements, an approved row stays approved and a skipped row stays skipped, as the flag queries read them; flags stay 0 or 1 |
| Strings.Sort | db.py:96 | the listing comes back sorted in Python's string order and as a permutation of the input |
| Candidates.Limit | db.py:104-106 | a limit below 1 lets exactly one name through, because the limit is checked after the append; a limit of 1 or more is used as given |
| Candidates.NonPositiveLimitGivesOne | db.py:104-106 | with a limit below 1 and an eligible name in the listing, the scan returns exactly one name |
| Candidates.LowerPointwise | db.py:97 | lowering a name keeps its length and maps each character to its lower-case form, so the extension test ignores case |
| Candidates.UnprocessedCandidates | db.py:82-108 | every name returned is in the listing, has a .jpg/.jpeg/.png extension in any case, and is neither approved nor skipped; the result is strictly ascending with no repeats and no longer than the limit; an eligible name is left out only when the result is full and the name sorts after its last entry |
| Candidates.CandidateListUnique | db.py:82-108 | two ledgers that agree on which listed names are eligible give the same answer: the first eligible names in sorted order |
| Candidates.SuggestionKeepsCandidates | db.py:88-100 | recording a suggestion does not change the next scan's candidates |
| Candidates.DecidedNeverCandidate | db.py:88-100 | once an existing row is approved or skipped, that name is never a candidate |
| Selection.Evaluate | notifier.py:37-46 | a candidate evaluates exactly when its reading and analysis succeed. Its score is the composite score of its own analysis, and its caption is generated from that analysis. With in-range features its score lies in [0, 1] |
| Selection.PickBest | notifier.py:48-52 | there is no winner exactly when every evaluation failed; otherwise the winner scores at least as high as every success, and every earlier success scores strictly lower, which is what a stable descending sort puts first |
| Selection.FirstBestUnique | notifier.py:51-52 | only one position can be the first maximum, so the pick is deterministic |
| Selection.ApproveData | notifier.py:61 | the approve payload is "approve:" followed by exactly the file name |
| Selection.SkipData | notifier.py:62 | the skip payload is "skip:" followed by exactly the file name |
| Selection.SelectAndRecord | notifier.py:28-62 | no candidates, or no success, means no suggestion and no ledger change. Otherwise the winner is one of the candidates and the first best of them, and it scores at least as high as every success. The suggestion carries the winner's own evaluated score and caption. It is recorded by exactly one insert-or-replace with that name, score and caption, and it gets the payloads "approve:"+name and "skip:"+name |
| Selection.ChooseAndSend | notifier.py:22-62 | the pass ranks exactly the scan's answer for this ledger, listing and limit, with every guarantee of Selection.SelectAndRecord. The winner is a listed, eligible name, and approved and skipped rows come out of the pass unchanged |
| Selection.SameRanking | notifier.py:48-52 | ranking the same candidates with the same analyses gives the same outcome: the same winner, score, caption and payloads, or no suggestion both times |
| Selection.RepeatedPassSameWinner | notifier.py:22-62 | a second pass over the ledger the first pass left, with the same listing and analyses, suggests the same photo with the same score, caption and payloads, or again nothing |
| Selection.WinnerHasMaxComposite | notifier.py:37-52 | the suggested file was analysed, its score is the composite score of its analysis, and no analysed candidate has a higher composite score |
| Callback.SplitAction | main.py:71-76 | the data fails to parse exactly when it has no colon; otherwise the action has no colon and action + ":" + file is the data |
| Callback.SplitActionOfJoined | main.py:73 | for an action without a colon, parsing action + ":" + name gives back exactly that action and name, even when the name contains colons |
| Callback.ButtonDataRoundTrip | notifier.py:61-62 | the approve and skip payloads of a suggestion parse back to ("approve", name) and ("skip", name) |
| Callback.SplitExt | main.py:85 | base followed by extension is the name. The extension is empty, or a single dot followed by neither a dot nor a slash. A non-empty extension follows a non-dot character in the last path component. An empty extension means every dot in the last path component is preceded only by dots in it |
| Callback.SplitExtAt | main.py:85 | a name without a slash or a leading dot splits at its last dot |
| Callback.SplitExtExamples | main.py:85 | "photo.jpg" splits into "photo" and ".jpg"; "a.tar.gz" into "a.tar" and ".gz" |
| Callback.SplitExtNoExtension | main.py:85 | ".profile" and "d.x/photo" have no extension |
| Callback.NumberedShape | main.py:88 | `base_i.ext` is one underscore and the counter longer than the name, starts with the base and an underscore, ends with the extension, and so never equals the name |
| Callback.NumberedInjective | main.py:88 | different counters give different `base_i.ext` names |
| Callback.FreeNumberExists | main.py:86-92 | among the first \|archive\| + 1 numbered names at least one is free, so the collision loop terminates |
| Callback.ArchiveName | main.py:83-92 | the destination is never already in the archive; it is the name itself when free; otherwise it is `base_i.ext` for the smallest free i ≥ 1 |
| Callback.HandleCallback | main.py:65-105 | data without a colon is an invalid action and changes nothing. "approve" applies the approve update before any move, and the approval stands even when the source is missing or the move fails. A successful move takes the file out of the photo folder and into the archive under the name itself when free, else under `base_i.ext` for the smallest free i ≥ 1. "skip" applies only the skip update. Any other action changes nothing |

## Left out

- Image analysis: decoding, the Laplacian variance and its tanh, the
  mean grey level, the k-means dominant colour and the face detector are
  calls into foreign libraries over floating point. They enter as the
  `Features` parameter, and the dominant colour is not claimed to be
  reproducible.
- Floating point: scores are exact reals, so rounding in the weighted
  sum and in the division by 255 is not modelled.
- The clock: the capture month from `fromtimestamp`, the caption's UTC
  year and the `suggested_at` timestamp are parameters.
- Scheduler.NextRun: returns the local date and time of the next run, not
  the epoch integer. The conversion through `timestamp()`, time zones and
  daylight saving time are left out. Seconds stand in for microseconds,
  which is exact because the target time has zero seconds.
- SQLite plumbing: connections, commits, table creation and atomicity are
  left out. Each operation is one function on the map.
- Python's `str.lower()` is modelled on ASCII letters only. Other
  characters are left as they are.
- The folder listing is a parameter. Reading files, modification times
  and the move itself are left out; the move's failure is a boolean
  parameter. Folders are sets of plain names, so path joining and names
  containing `/` are not modelled.
- Telegram: answering the query, message texts, the inline keyboard, the
  thumbnail and the photo send are left out. A pass without a winner
  becomes `NoSuggestion`, and the decision outcome becomes a `Reply`
  value without its text.
- The background loop, its five-second cooldown, the on-demand
  suggestion task and any interleaving between passes are left out. The
  loop's only computed content is the next run time, which
  `Scheduler.NextRun` covers.
- Logging and configuration loading are not modelled. The configured
  hour, minute and candidate limit are parameters.
- The stable descending sort of the evaluated list is modelled by the
  element it puts first (`Selection.PickBest`), not as a full sort.
