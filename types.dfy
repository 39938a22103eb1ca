/** The shared record and enum declarations of the application (types.ts). */
module Types {
  import opened Wrappers

  /** The steps of the user interface flow. CROPPING is declared but no
      handler ever enters it. */
  datatype AppStep = DASHBOARD | CROPPING | OCR_EDIT | RESULTS

  /** The string value of each member of the TypeScript string enum; it
      reads back as the same step. */
  function StepName(s: AppStep): (r: string)
    ensures StepFromName(r) == Some(s)
  {
    match s
    case DASHBOARD => "DASHBOARD"
    case CROPPING => "CROPPING"
    case OCR_EDIT => "OCR_EDIT"
    case RESULTS => "RESULTS"
  }

  /** The step a string value stands for, if any. */
  function StepFromName(name: string): Option<AppStep> {
    if name == "DASHBOARD" then Some(DASHBOARD)
    else if name == "CROPPING" then Some(CROPPING)
    else if name == "OCR_EDIT" then Some(OCR_EDIT)
    else if name == "RESULTS" then Some(RESULTS)
    else None
  }

  /** Only the four enum values read as a step, each as its own. */
  lemma StepFromNameInverse(name: string, s: AppStep)
    requires StepFromName(name) == Some(s)
    ensures StepName(s) == name
  {
  }

  /** Distinct steps carry distinct strings, so the string identifies the step. */
  lemma StepNamesDistinct(a: AppStep, b: AppStep)
    ensures StepName(a) == StepName(b) <==> a == b
  {
  }

  /** A suggested video lesson. */
  datatype YouTubeVideo = YouTubeVideo(id: string, title: string, thumbnail: string, channelTitle: string)

  /** What the results screen shows: the question as it was sent, the
      explanation, and the suggested videos. */
  datatype SolutionResult = SolutionResult(extractedText: string, explanation: string, videos: seq<YouTubeVideo>)
}
