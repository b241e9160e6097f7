/** One image's classification with every failure contained
    (`process_single_image`, run.py lines 87-128). The image decoding, the
    request to the vision model and the reading of its reply are one abstract
    outcome. */
module Classify {
  import opened Response

  /** What the attempt to classify one image came to. */
  datatype Outcome =
    | Reply(content: string)     // the model answered with this text
    | ApiFailure(message: string)   // the client raised `APIError`
    | OtherFailure(message: string) // anything else raised on the way

  /** The pair `process_single_image` returns. */
  datatype Detection = Detection(path: string, numbers: seq<string>)

  /** The path given is the path returned; a failure of any kind gives no
      numbers, a reply gives the numbers parsed from it. */
  function ClassifyImage(filePath: string, outcome: Outcome): (d: Detection)
    ensures d.path == filePath
    ensures !outcome.Reply? ==> d.numbers == []
    ensures outcome.Reply? ==> d.numbers == ParseReply(outcome.content)
  {
    match outcome
    case Reply(content) => Detection(filePath, ParseReply(content))
    case ApiFailure(_) => Detection(filePath, [])
    case OtherFailure(_) => Detection(filePath, [])
  }

  /** The result never depends on the failure's message or kind, and a
      failure gives the same result as a reply of "none". */
  lemma FailuresAreIndistinguishable(filePath: string, e1: Outcome, e2: Outcome)
    requires !e1.Reply? && !e2.Reply?
    ensures ClassifyImage(filePath, e1) == ClassifyImage(filePath, e2)
    ensures ClassifyImage(filePath, e1) == ClassifyImage(filePath, Reply("none"))
  {
    NoneAnywhereYieldsNothing([], "none", []);
    assert [] + "none" + [] == "none";
  }
}
