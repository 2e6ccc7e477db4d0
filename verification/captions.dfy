/**
  The suggested caption: the file name, a category tag, an optional tone
  tag, and a hashtag line ending in the year.
*/
module Captions {
  import opened Wrappers
  import opened Scoring
  import Decimal
  import Strings

  /** Separator between tags: space, middle dot (U+00B7), space. */
  const TagSeparator: string := " \U{B7} "

  /** Python's `sep.join(parts)`. */
  function Join(sep: string, parts: seq<string>): string
    decreases |parts|
  {
    if |parts| == 0 then ""
    else if |parts| == 1 then parts[0]
    else parts[0] + sep + Join(sep, parts[1..])
  }

  function CategoryTag(faces: nat): string {
    if faces > 0 then "portrait" else "shot"
  }

  /** Warm wins over cool; a colour that is neither gets no tone tag. */
  function ToneTag(c: Rgb): (t: Option<string>)
    ensures t == Some("warm tones") <==> c.r > 180 && c.g > 120
    ensures t == Some("cool tones") <==> !(c.r > 180 && c.g > 120) && c.b > 140
    ensures t == None <==> !(c.r > 180 && c.g > 120) && c.b <= 140
  {
    if c.r > 180 && c.g > 120 then Some("warm tones")
    else if c.b > 140 then Some("cool tones")
    else None
  }

  function Parts(rep: Report): seq<string> {
    [CategoryTag(rep.faces)] + (match ToneTag(rep.dominant) case Some(t) => [t] case None => [])
  }

  function Hashtags(faces: nat, year: nat): seq<string> {
    (if faces > 0 then ["#portrait", "#people"] else ["#photooftheday"]) + ["#" + Decimal.Show(year)]
  }

  /** The text before the year on the hashtag line. */
  function HashtagLead(faces: nat): string {
    if faces > 0 then "#portrait #people #" else "#photooftheday #"
  }

  /** What the tone tag adds after the category tag. */
  function ToneSuffix(c: Rgb): string {
    match ToneTag(c)
    case Some(t) => TagSeparator + t
    case None => ""
  }

  lemma JoinPartsShape(rep: Report)
    ensures Join(TagSeparator, Parts(rep)) == CategoryTag(rep.faces) + ToneSuffix(rep.dominant)
  {
  }

  lemma JoinHashtagsShape(faces: nat, year: nat)
    ensures Join(" ", Hashtags(faces, year)) == HashtagLead(faces) + Decimal.Show(year)
  {
    var tags := Hashtags(faces, year);
    var y := "#" + Decimal.Show(year);
    if faces > 0 {
      assert tags[2..] == [y];
      assert Join(" ", tags[1..]) == "#people" + " " + y;
    } else {
      assert tags[1..] == [y];
    }
  }

  /**
    The caption for `filename`; `year` is the current UTC year, which the
    analyser reads from the clock.
  */
  function Caption(filename: string, rep: Report, year: nat): (c: string)
    ensures |filename| + 3 <= |c| && c[..|filename| + 3] == filename + " | "
    ensures Strings.EndsWith(c, "#" + Decimal.Show(year))
  {
    JoinHashtagsShape(rep.faces, year);
    var c := filename + " | " + Join(TagSeparator, Parts(rep)) + "\n\n" + Join(" ", Hashtags(rep.faces, year));
    assert c[..|filename| + 3] == filename + " | ";
    var y := "#" + Decimal.Show(year);
    assert c[|c| - |y|..] == y;
    c
  }

  /** The category and tone tags as they appear after the file name. */
  function TagLine(rep: Report): string {
    CategoryTag(rep.faces) + ToneSuffix(rep.dominant)
  }

  function HashtagLine(faces: nat, year: nat): string {
    HashtagLead(faces) + Decimal.Show(year)
  }

  /** Everything after `filename + " | "`. */
  function Body(rep: Report, year: nat): string {
    TagLine(rep) + "\n\n" + HashtagLine(rep.faces, year)
  }

  /** The caption laid out: name, tag line, blank line, hashtag line. */
  lemma CaptionShape(filename: string, rep: Report, year: nat)
    ensures Caption(filename, rep, year) == (filename + " | ") + Body(rep, year)
  {
    JoinPartsShape(rep);
    JoinHashtagsShape(rep.faces, year);
  }

  lemma TagLineHasNoNewline(rep: Report)
    ensures '\n' !in TagLine(rep)
  {
  }

  /** Reads the tone tag back from what the tone adds to the tag line. */
  function ReadTone(suffix: string): Option<string> {
    if |suffix| <= |TagSeparator| then None else Some(suffix[|TagSeparator|..])
  }

  lemma ReadToneSuffix(c: Rgb)
    ensures ReadTone(ToneSuffix(c)) == ToneTag(c)
  {
  }

  /** The third character of a hashtag line tells the face-dependent hashtags apart. */
  lemma HashtagLineReads(faces: nat, year: nat)
    ensures |HashtagLine(faces, year)| > 2
    ensures HashtagLine(faces, year)[2] == 'o' <==> faces > 0
    ensures HashtagLine(faces, year)[|HashtagLead(faces)|..] == Decimal.Show(year)
  {
  }

  /** A blank line between two lines is the first line's newline followed by the second's. */
  lemma BlankLineSplit(a: string, b: string)
    ensures a + "\n\n" + b == a + ['\n'] + ("\n" + b)
  {
  }

  lemma BodyDeterminesTags(r1: Report, y1: nat, r2: Report, y2: nat)
    requires Body(r1, y1) == Body(r2, y2)
    ensures (r1.faces > 0 <==> r2.faces > 0)
    ensures ToneTag(r1.dominant) == ToneTag(r2.dominant)
    ensures y1 == y2
  {
    var m1, m2 := TagLine(r1), TagLine(r2);
    var t1, t2 := HashtagLine(r1.faces, y1), HashtagLine(r2.faces, y2);
    TagLineHasNoNewline(r1);
    TagLineHasNoNewline(r2);
    BlankLineSplit(m1, t1);
    BlankLineSplit(m2, t2);
    Strings.SplitAtFirst('\n', m1, "\n" + t1, m2, "\n" + t2);
    assert t1 == ("\n" + t1)[1..] && t2 == ("\n" + t2)[1..];
    HashtagLineReads(r1.faces, y1);
    HashtagLineReads(r2.faces, y2);
    Decimal.ShowInjective(y1, y2);
    var k := |CategoryTag(r1.faces)|;
    assert ToneSuffix(r1.dominant) == m1[k..];
    assert ToneSuffix(r2.dominant) == m2[k..];
    ReadToneSuffix(r1.dominant);
    ReadToneSuffix(r2.dominant);
  }

  /**
    For a given file name the caption determines the category (faces or
    not), the tone tag and the year: analyses that differ in any of these
    give different captions.
  */
  lemma CaptionDeterminesTags(filename: string, r1: Report, y1: nat, r2: Report, y2: nat)
    requires Caption(filename, r1, y1) == Caption(filename, r2, y2)
    ensures (r1.faces > 0 <==> r2.faces > 0)
    ensures ToneTag(r1.dominant) == ToneTag(r2.dominant)
    ensures y1 == y2
  {
    var p := filename + " | ";
    var b1, b2 := Body(r1, y1), Body(r2, y2);
    CaptionShape(filename, r1, y1);
    CaptionShape(filename, r2, y2);
    assert b1 == (p + b1)[|p|..];
    assert b2 == (p + b2)[|p|..];
    BodyDeterminesTags(r1, y1, r2, y2);
  }
}
