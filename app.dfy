/** The single-screen controller (App.tsx): the session state and the event
    handlers that update it. Each asynchronous handler is split into the
    part that runs before its `await` (a Start method) and the part that runs
    when the awaited provider call settles (a Complete method, given the
    provider's outcome as a parameter). */
module App {
  import opened Wrappers
  import opened Types
  import opened JsString
  import opened GeminiService

  /** The two tabs of the results screen ('text' | 'video'). */
  datatype Tab = Text | Video

  /** How an awaited provider call settled: it resolved with a reply (whose
      text may be missing), or it rejected. */
  datatype Reply = Answered(text: Option<string>) | Failed

  /** Which awaited call, if any, is outstanding; a pending solve remembers
      the question its handler captured. */
  datatype Pending = Idle | AwaitingOcr | AwaitingSolve(question: string)

  const OcrLoadingMessage: string := "Reading your question..."
  const SolveLoadingMessage: string := "AI is solving your doubt..."

  /** `base64.split(',')[1]`: the part of a data URL between its first and
      second comma, or nothing (`undefined`) when it has no comma. */
  function OcrPayload(dataUrl: string): (r: Option<string>)
    ensures r.None? <==> ',' !in dataUrl
    ensures r.Some? ==> ',' !in r.value
  {
    var parts := Split(dataUrl, ",");
    SplitSingle(dataUrl, ",");
    ContainsChar(dataUrl, ',');
    if |parts| >= 2 then
      SplitPiecesAreFree(dataUrl, ",", 1);
      ContainsChar(parts[1], ',');
      Some(parts[1])
    else None
  }

  /** A data URL `header,payload` (possibly followed by `,more`) sends exactly
      `payload`. */
  lemma OcrPayloadIsSecondPiece(header: string, payload: string, rest: string)
    requires ',' !in header && ',' !in payload && (rest == "" || rest[0] == ',')
    ensures OcrPayload(header + "," + payload + rest) == Some(payload)
  {
    var s := header + "," + payload + rest;
    var k := |header| + 1;
    ContainsChar(header, ',');
    ContainsChar(payload, ',');
    assert s == header + "," + (payload + rest);
    SplitAtFirst(header, ",", payload + rest);
    if rest == "" {
      assert s[k..] == payload;
      PieceRunsToEnd(s, ",", k);
    } else {
      assert s[k..k + |payload|] == payload;
      assert s[k + |payload|..k + |payload| + 1] == ",";
      PieceEndsAtOccurrence(s, ",", k, k + |payload|);
    }
  }

  /** What `handleSolve` stores once the solver has answered: the question as
      captured, the parsed explanation, and the videos looked up with the
      parsed keywords. */
  function SolveResult(question: string, text: Option<string>, seeds: ThumbnailSeeds): (r: SolutionResult)
    ensures r.extractedText == question && |r.videos| == 3
    ensures !Contains(r.explanation, Sentinel) && NoEdgeWhitespace(r.explanation)
  {
    var solution := GetStepByStepSolution(text, question);
    ExplanationIsClean(text, question);
    SolutionResult(question, solution.explanation, FetchMockVideos(solution.videoKeywords, seeds))
  }

  /** The session state, one field per `useState` hook. */
  class Session {
    var step: AppStep
    var image: Option<string>
    var extractedText: string
    var loading: bool
    var loadingMessage: string
    var results: Option<SolutionResult>
    var activeTab: Tab
    ghost var pending: Pending

    /** What every handler preserves: CROPPING is never entered, the edit
        screen has an image, the results screen has results, and the spinner
        shows exactly while a provider call is outstanding. */
    ghost predicate Valid()
      reads this
    {
      && step != CROPPING
      && (step == OCR_EDIT ==> image.Some?)
      && (step == RESULTS ==> results.Some?)
      && (loading <==> !pending.Idle?)
      && (pending == AwaitingOcr ==> image.Some?)
    }

    /** The initial values of the hooks. */
    constructor ()
      ensures Valid() && pending == Idle
      ensures step == DASHBOARD && image == None && extractedText == "" && !loading
      ensures loadingMessage == "" && results == None && activeTab == Text
    {
      step := DASHBOARD;
      image := None;
      extractedText := "";
      loading := false;
      loadingMessage := "";
      results := None;
      activeTab := Text;
      pending := Idle;
    }

    /** The file reader has produced a data URL: the image is stored and text
        extraction starts on it. Returns what is sent to the provider. */
    method ImageLoaded(dataUrl: string) returns (payload: Option<string>)
      requires Valid()
      modifies this`image, this`loading, this`loadingMessage, this`pending
      ensures Valid() && image == Some(dataUrl)
      ensures loading && loadingMessage == OcrLoadingMessage && pending == AwaitingOcr
      ensures payload == OcrPayload(dataUrl)
    {
      image := Some(dataUrl);
      payload := StartOcr(dataUrl);
    }

    /** `triggerOCR` up to its `await`: show the spinner and compute the
        payload. Its only caller has stored the image first. */
    method StartOcr(base64: string) returns (payload: Option<string>)
      requires Valid() && image.Some?
      modifies this`loading, this`loadingMessage, this`pending
      ensures Valid()
      ensures loading && loadingMessage == OcrLoadingMessage && pending == AwaitingOcr
      ensures payload == OcrPayload(base64)
    {
      loading := true;
      loadingMessage := OcrLoadingMessage;
      pending := AwaitingOcr;
      payload := OcrPayload(base64);
    }

    /** `triggerOCR` after its `await`: on success store the extracted text
        and open the edit screen; on failure change neither; in both cases
        (the `finally` block) hide the spinner. */
    method CompleteOcr(reply: Reply)
      requires Valid() && pending == AwaitingOcr
      modifies this`extractedText, this`step, this`loading, this`pending
      ensures Valid() && !loading && pending == Idle
      ensures reply.Answered? ==> extractedText == ResponseText(reply.text) && step == OCR_EDIT
      ensures reply.Failed? ==> extractedText == old(extractedText) && step == old(step)
    {
      if reply.Answered? {
        extractedText := ResponseText(reply.text);
        step := OCR_EDIT;
      }
      loading := false;
      pending := Idle;
    }

    /** `handleSolve` up to its first `await`: show the spinner; the question
        sent is the text as it is now. */
    method StartSolve() returns (question: string)
      requires Valid()
      modifies this`loading, this`loadingMessage, this`pending
      ensures Valid()
      ensures loading && loadingMessage == SolveLoadingMessage
      ensures question == extractedText && pending == AwaitingSolve(question)
    {
      loading := true;
      loadingMessage := SolveLoadingMessage;
      question := extractedText;
      pending := AwaitingSolve(question);
    }

    /** `handleSolve` after the solver settles: on success store the results
        for the captured question and open the results screen; on failure
        change neither; in both cases hide the spinner. */
    method CompleteSolve(question: string, reply: Reply, seeds: ThumbnailSeeds)
      requires Valid() && pending == AwaitingSolve(question)
      modifies this`results, this`step, this`loading, this`pending
      ensures Valid() && !loading && pending == Idle
      ensures reply.Answered? ==> results == Some(SolveResult(question, reply.text, seeds)) && step == RESULTS
      ensures reply.Failed? ==> results == old(results) && step == old(step)
    {
      if reply.Answered? {
        results := Some(SolveResult(question, reply.text, seeds));
        step := RESULTS;
      }
      loading := false;
      pending := Idle;
    }

    /** The text area's change handler. */
    method EditText(text: string)
      requires Valid()
      modifies this`extractedText
      ensures Valid() && extractedText == text
    {
      extractedText := text;
    }

    /** The two tab buttons of the results screen. */
    method SelectTab(tab: Tab)
      requires Valid()
      modifies this`activeTab
      ensures Valid() && activeTab == tab
    {
      activeTab := tab;
    }

    /** The header's back button and "Solve another doubt": return to the
        dashboard without clearing the image, the text or the results. */
    method GoToDashboard()
      requires Valid()
      modifies this`step
      ensures Valid() && step == DASHBOARD
    {
      step := DASHBOARD;
    }
  }

  /** A whole successful session: pick an image, extraction answers, solve,
      the solver answers. */
  method SuccessfulRoundTrip(dataUrl: string, ocrText: Option<string>, reply: Option<string>, seeds: ThumbnailSeeds)
    returns (sent: Option<string>, step: AppStep, result: Option<SolutionResult>, loading: bool)
    ensures sent == OcrPayload(dataUrl) && step == RESULTS && !loading
    ensures result == Some(SolveResult(ResponseText(ocrText), reply, seeds))
    ensures result.value.extractedText == ResponseText(ocrText) && |result.value.videos| == 3
  {
    var s := new Session();
    sent := s.ImageLoaded(dataUrl);
    s.CompleteOcr(Answered(ocrText));
    var question := s.StartSolve();
    s.CompleteSolve(question, Answered(reply), seeds);
    step, result, loading := s.step, s.results, s.loading;
  }

  /** The example flow: the question "2+2=?" and a reply in the prompted
      format end on the results screen with the explanation line and a first
      video titled after the first keyword. The literal parts of the reply
      are parameters fixed by `requires`, as in `ParseExampleReply`. */
  method ExampleRoundTrip(dataUrl: string, line: string, lineEnd: string, space: string,
                          first: string, others: string, seeds: ThumbnailSeeds)
    returns (step: AppStep, result: SolutionResult)
    requires line == "Step 1: ..." && lineEnd == " \n" && space == " "
    requires first == "addition" && others == ", arithmetic, math"
    ensures step == RESULTS && result.extractedText == "2+2=?" && result.explanation == line
    ensures |result.videos| == 3 && result.videos[0].title == FirstTitlePrefix + first
  {
    var s := new Session();
    var _ := s.ImageLoaded(dataUrl);
    s.CompleteOcr(Answered(Some("2+2=?")));
    var question := s.StartSolve();
    var reply := line + lineEnd + Sentinel + space + first + others;
    ParseExampleReply(line, lineEnd, space, first, others);
    ExampleFirstTitle(first, others, seeds);
    s.CompleteSolve(question, Answered(Some(reply)), seeds);
    step, result := s.step, s.results.value;
  }

  /** A failed extraction from the dashboard leaves the dashboard showing,
      the text untouched and the spinner hidden. */
  method FailedExtraction(dataUrl: string) returns (step: AppStep, text: string, loading: bool, message: string)
    ensures step == DASHBOARD && text == "" && !loading && message == OcrLoadingMessage
  {
    var s := new Session();
    var _ := s.ImageLoaded(dataUrl);
    s.CompleteOcr(Failed);
    step, text, loading, message := s.step, s.extractedText, s.loading, s.loadingMessage;
  }

  /** A failed solve leaves the edit screen and the earlier results in place. */
  method FailedSolve(dataUrl: string, ocrText: Option<string>) returns (step: AppStep, text: string, result: Option<SolutionResult>, loading: bool)
    ensures step == OCR_EDIT && text == ResponseText(ocrText) && result == None && !loading
  {
    var s := new Session();
    var _ := s.ImageLoaded(dataUrl);
    s.CompleteOcr(Answered(ocrText));
    var question := s.StartSolve();
    s.CompleteSolve(question, Failed, ThumbnailSeeds("", "", ""));
    step, text, result, loading := s.step, s.extractedText, s.results, s.loading;
  }

  /** Nothing cancels an outstanding solve: when the user edits the text on
      the edit screen and then goes back while it runs, its completion still
      opens the results screen, with the question that was sent rather than
      the edited text. */
  method SolveCompletesAfterLeaving(dataUrl: string, ocrText: Option<string>, edited: string, reply: Option<string>, seeds: ThumbnailSeeds)
    returns (step: AppStep, text: string, result: Option<SolutionResult>)
    ensures step == RESULTS && text == edited
    ensures result.Some? && result.value.extractedText == ResponseText(ocrText)
  {
    var s := new Session();
    var _ := s.ImageLoaded(dataUrl);
    s.CompleteOcr(Answered(ocrText));
    var question := s.StartSolve();
    s.EditText(edited);
    s.GoToDashboard();
    s.CompleteSolve(question, Answered(reply), seeds);
    step, text, result := s.step, s.extractedText, s.results;
  }
}
