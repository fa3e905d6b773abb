/** `get_ai_response`: the provider's outcome turned into the text the script
    renders. The remote chat-completion call itself is not modelled; its
    outcome is an input. */
module Response {
  import opened Text

  /** What the completion call can come back with. */
  datatype Outcome =
    | Answer(content: string)        // the first choice's message content
    | RateLimited                    // the library's RateLimitError
    | InvalidRequest(detail: string) // InvalidRequestError, with its text
    | OtherFault(name: string)       // any other exception

  /** What `get_ai_response` does with it: return a text, or let an exception
      escape. */
  datatype Reply = Returned(text: string) | Raised(fault: string)

  const RateLimitMessage: string := "Rate limit exceeded. Please try again later."
  const InvalidRequestPrefix: string := "Invalid request: "

  /** Only the two named errors are caught; an answer is trimmed, the rate
      limit yields a fixed message and an invalid request a prefixed one. */
  function GetAiResponse(outcome: Outcome): (r: Reply)
    ensures r.Raised? <==> outcome.OtherFault?
    ensures outcome.OtherFault? ==> r.fault == outcome.name
    ensures outcome.Answer? ==>
      var c, t := outcome.content, r.text;
      r.Returned? && Trimmed(t) && LeadingSpace(c) + |t| <= |c|
      && AllSpace(c[..LeadingSpace(c)]) && c[LeadingSpace(c)..][..|t|] == t
      && AllSpace(c[LeadingSpace(c) + |t|..])
    ensures outcome.RateLimited? ==> r == Returned(RateLimitMessage)
    ensures outcome.InvalidRequest? ==>
      r.Returned? && IsPrefix(InvalidRequestPrefix, r.text)
      && r.text[|InvalidRequestPrefix|..] == outcome.detail
  {
    match outcome
    case Answer(content) => Returned(Strip(content))
    case RateLimited => Returned(RateLimitMessage)
    case InvalidRequest(detail) => Returned(InvalidRequestPrefix + detail)
    case OtherFault(name) => Raised(name)
  }
}
