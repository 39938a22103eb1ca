/** The service layer (services/geminiService.ts): what the application does
    with the text the hosted model sends back, and the placeholder video
    lookup. The model provider itself is not modelled: its reply text is an
    input, `None` when the reply carries no text. */
module GeminiService {
  import opened Wrappers
  import opened Types
  import opened JsString

  /** The marker the solver prompt asks the model to put before its keywords. */
  const Sentinel: string := "KEYWORDS:"

  /** `response.text || ""`: a reply without text, or with empty text, reads
      as the empty string. This is what `processDoubtImage` resolves to. */
  function ResponseText(text: Option<string>): (r: string)
    ensures text.None? ==> r == ""
    ensures text.Some? ==> r == text.value
  {
    text.GetOr("")
  }

  /** What `getStepByStepSolution` resolves to. */
  datatype Solution = Solution(explanation: string, videoKeywords: string)

  /** The post-processing of the solver reply: split on every occurrence of
      the sentinel, keep the trimmed first piece as the explanation, and the
      trimmed second piece as the keywords unless it is missing or empty, in
      which case the question is used as it is. The keywords are therefore
      either the question untouched or a trimmed, sentinel-free text. */
  function GetStepByStepSolution(text: Option<string>, question: string): (r: Solution)
    ensures r.videoKeywords == question
         || (NoEdgeWhitespace(r.videoKeywords) && !Contains(r.videoKeywords, Sentinel))
  {
    var full := ResponseText(text);
    var parts := Split(full, Sentinel);
    if |parts| > 1 && parts[1] != "" then
      SplitPiecesAreFree(full, Sentinel, 1);
      TrimKeepsFree(parts[1], Sentinel);
      Solution(Trim(parts[0]), Trim(parts[1]))
    else
      Solution(Trim(parts[0]), question)
  }

  /** The explanation never contains the sentinel and has no leading or
      trailing whitespace, whatever the reply. */
  lemma ExplanationIsClean(text: Option<string>, question: string)
    ensures var e := GetStepByStepSolution(text, question).explanation;
      !Contains(e, Sentinel) && NoEdgeWhitespace(e)
  {
    var full := ResponseText(text);
    SplitPiecesAreFree(full, Sentinel, 0);
    TrimKeepsFree(Split(full, Sentinel)[0], Sentinel);
  }

  /** No occurrence of the sentinel can overlap another. */
  lemma SentinelFirstCharUnique()
    ensures FirstCharUnique(Sentinel)
  {
  }

  /** The pieces of a text that holds no sentinel: just the text. */
  lemma SplitWithoutSentinel(s: string)
    requires !Contains(s, Sentinel)
    ensures Split(s, Sentinel) == [s]
  {
    assert s[0..] == s;
    PieceRunsToEnd(s, Sentinel, 0);
  }

  /** No sentinel: the explanation is the whole text trimmed, and the
      keywords are the question verbatim, not trimmed. */
  lemma ParseWithoutSentinel(full: string, question: string)
    requires !Contains(full, Sentinel)
    ensures GetStepByStepSolution(Some(full), question) == Solution(Trim(full), question)
  {
    SplitWithoutSentinel(full);
  }

  /** A reply without text gives an empty explanation and the question as
      keywords. */
  lemma ParseMissingText(question: string)
    ensures GetStepByStepSolution(None, question) == Solution("", question)
  {
    LacksFirstChar("", Sentinel);
    SplitWithoutSentinel("");
    TrimAllWhitespace("");
  }

  /** Exactly one sentinel with a non-empty tail: both sides, trimmed. */
  lemma ParseSentinelOnce(pre: string, post: string, question: string)
    requires !Contains(pre, Sentinel) && !Contains(post, Sentinel) && post != ""
    ensures GetStepByStepSolution(Some(pre + Sentinel + post), question) == Solution(Trim(pre), Trim(post))
  {
    SentinelFirstCharUnique();
    SplitOnce(pre, Sentinel, post);
  }

  /** The sentinel as the very last thing: the empty tail is falsy, so the
      keywords fall back to the question. */
  lemma ParseSentinelAtEnd(pre: string, question: string)
    requires !Contains(pre, Sentinel)
    ensures GetStepByStepSolution(Some(pre + Sentinel), question) == Solution(Trim(pre), question)
  {
    assert pre + Sentinel == pre + Sentinel + "";
    LacksFirstChar("", Sentinel);
    SentinelFirstCharUnique();
    SplitOnce(pre, Sentinel, "");
  }

  /** A tail of whitespace only is not empty, so it is used, and trims to the
      empty string: the keywords become "" rather than the question. */
  lemma ParseWhitespaceTail(pre: string, tail: string, question: string)
    requires !Contains(pre, Sentinel) && tail != "" && AllWhitespace(tail)
    ensures GetStepByStepSolution(Some(pre + Sentinel + tail), question) == Solution(Trim(pre), "")
  {
    assert !IsWhitespace(Sentinel[0]);
    LacksFirstChar(tail, Sentinel);
    ParseSentinelOnce(pre, tail, question);
    TrimAllWhitespace(tail);
  }

  /** Two or more sentinels: the keywords come from the text between the
      first and the second one (or the question, when that text is empty),
      and everything after the second is discarded. */
  lemma ParseRepeatedSentinel(pre: string, mid: string, rest: string, question: string)
    requires !Contains(pre, Sentinel) && !Contains(mid, Sentinel)
    ensures GetStepByStepSolution(Some(pre + Sentinel + mid + Sentinel + rest), question)
         == Solution(Trim(pre), if mid == "" then question else Trim(mid))
  {
    SentinelFirstCharUnique();
    SplitTwice(pre, Sentinel, mid, rest);
  }

  /** The reply shape the prompt asks for, worked through once: an
      explanation line and a line break, then the sentinel, a space and the
      keywords "addition, arithmetic, math" (its first keyword, then the
      others). Each literal part is a parameter fixed by `requires`, here and
      in the helpers below, so that the verifier reasons about the
      concatenation piece by piece instead of comparing long literal strings
      character by character. */
  lemma ParseExampleReply(line: string, lineEnd: string, space: string, first: string, others: string)
    requires line == "Step 1: ..." && lineEnd == " \n" && space == " "
    requires first == "addition" && others == ", arithmetic, math"
    ensures GetStepByStepSolution(Some(line + lineEnd + Sentinel + space + first + others), "2+2=?")
         == Solution(line, first + others)
  {
    var pre, post := line + lineEnd, space + (first + others);
    assert line + lineEnd + Sentinel + space + first + others == pre + Sentinel + post;
    ExampleLineIsFree(line, lineEnd);
    ExampleKeywordsAreFree(space, first, others);
    ParseSentinelOnce(pre, post, "2+2=?");
    ExampleLineTrim(line, lineEnd);
    ExampleKeywordsTrim(space, first, others);
  }

  lemma ExampleLineIsFree(line: string, lineEnd: string)
    requires line == "Step 1: ..." && lineEnd == " \n"
    ensures !Contains(line + lineEnd, Sentinel)
  {
    assert Sentinel[0] !in line + lineEnd;
    LacksFirstChar(line + lineEnd, Sentinel);
  }

  lemma ExampleKeywordsAreFree(space: string, first: string, others: string)
    requires space == " " && first == "addition" && others == ", arithmetic, math"
    ensures !Contains(space + (first + others), Sentinel)
  {
    assert Sentinel[0] !in space + (first + others);
    LacksFirstChar(space + (first + others), Sentinel);
  }

  lemma ExampleLineTrim(line: string, lineEnd: string)
    requires line == "Step 1: ..." && lineEnd == " \n"
    ensures Trim(line + lineEnd) == line
  {
    assert line + lineEnd == [] + line + lineEnd;
    TrimUnique([], line, lineEnd);
  }

  lemma ExampleKeywordsTrim(space: string, first: string, others: string)
    requires space == " " && first == "addition" && others == ", arithmetic, math"
    ensures Trim(space + (first + others)) == first + others
  {
    var keywords := first + others;
    assert keywords[0] == first[0] && keywords[|keywords| - 1] == others[|others| - 1];
    assert space + keywords == space + keywords + [];
    TrimUnique(space, keywords, []);
  }

  // ---------------------------------------------------------------------
  // fetchMockVideos

  /** The values `Math.random()` contributes to the three thumbnail URLs. */
  datatype ThumbnailSeeds = ThumbnailSeeds(first: string, second: string, third: string)

  function ThumbnailUrl(seed: string): string {
    "https://picsum.photos/seed/" + seed + "/320/180"
  }

  const FirstTitlePrefix: string := "Detailed lesson on: "

  /** The placeholder video list: three fixed records, the first titled after
      the part of the query before its first comma. */
  function FetchMockVideos(query: string, seeds: ThumbnailSeeds): (r: seq<YouTubeVideo>)
    ensures |r| == 3
  {
    [
      YouTubeVideo("dQw4w9WgXcQ", FirstTitlePrefix + Split(query, ",")[0], ThumbnailUrl(seeds.first), "Education Academy"),
      YouTubeVideo("3JZ_D3ELwOQ", "Problem Solving Workshop", ThumbnailUrl(seeds.second), "Master Class"),
      YouTubeVideo("L_jWHffIx5E", "Exam Prep: Core Concepts", ThumbnailUrl(seeds.third), "Study Guide")
    ]
  }

  /** The first title names the query up to its first comma, or the whole
      query when it has none. */
  lemma FirstTitleIsFirstKeyword(query: string, head: string, rest: string, seeds: ThumbnailSeeds)
    requires query == head + rest && ',' !in head && (rest == "" || rest[0] == ',')
    ensures FetchMockVideos(query, seeds)[0].title == FirstTitlePrefix + head
  {
    FirstPieceOnChar(query, ',', head, rest);
  }

  /** The example keywords title the first video "Detailed lesson on:
      addition". The two parts are parameters fixed by `requires`, as in
      `ParseExampleReply`. */
  lemma ExampleFirstTitle(first: string, others: string, seeds: ThumbnailSeeds)
    requires first == "addition" && others == ", arithmetic, math"
    ensures FetchMockVideos(first + others, seeds)[0].title == FirstTitlePrefix + first
  {
    assert ',' !in first;
    FirstTitleIsFirstKeyword(first + others, first, others, seeds);
  }

  /** The list's ids are pairwise distinct, so they can key the rendered list. */
  lemma MockVideoIdsDistinct(query: string, seeds: ThumbnailSeeds, i: nat, j: nat)
    requires i < 3 && j < 3 && i != j
    ensures FetchMockVideos(query, seeds)[i].id != FetchMockVideos(query, seeds)[j].id
  {
  }

  /** The fixed part of the list: the three ids and channels in order, the
      second and third titles, and each thumbnail from its own seed. */
  lemma MockVideosFixedFields(query: string, seeds: ThumbnailSeeds)
    ensures var r := FetchMockVideos(query, seeds);
      && r[0].id == "dQw4w9WgXcQ" && r[1].id == "3JZ_D3ELwOQ" && r[2].id == "L_jWHffIx5E"
      && r[0].channelTitle == "Education Academy" && r[1].channelTitle == "Master Class"
      && r[2].channelTitle == "Study Guide"
      && r[1].title == "Problem Solving Workshop" && r[2].title == "Exam Prep: Core Concepts"
      && r[0].thumbnail == ThumbnailUrl(seeds.first) && r[1].thumbnail == ThumbnailUrl(seeds.second)
      && r[2].thumbnail == ThumbnailUrl(seeds.third)
  {
  }

  /** Only the first title depends on the query. */
  lemma MockVideosIgnoreRestOfQuery(q1: string, q2: string, seeds: ThumbnailSeeds)
    ensures FetchMockVideos(q1, seeds)[1..] == FetchMockVideos(q2, seeds)[1..]
    ensures var a, b := FetchMockVideos(q1, seeds)[0], FetchMockVideos(q2, seeds)[0];
      a.id == b.id && a.thumbnail == b.thumbnail && a.channelTitle == b.channelTitle
    ensures Split(q1, ",")[0] == Split(q2, ",")[0] ==> FetchMockVideos(q1, seeds) == FetchMockVideos(q2, seeds)
  {
  }
}
