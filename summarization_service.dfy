/** SummarizationService: the text is made safe for JSON, placed in a fixed
    prompt, and the one completion answer is trimmed or replaced by a fixed
    text when there is none. */
module SummarizationService {
  import opened Wrappers
  import opened Text
  import opened BlogRecords
  import opened JsonHelper

  /** The prompt text before the sanitised input. */
  const SummarizePromptHead: string :=
    "\n"
    + "            Please summarize the following text into a concise and clear summary suitable for general use.\n"
    + "            The summary should not exceed 500 words. Focus on the key points and omit unnecessary details:\n"
    + "\n"
    + "            "


  /** The prompt text after the sanitised input. */
  const SummarizePromptTail: string :=
    "\n"
    + "\n"
    + "            Your response should only include the summarized content."

  /** The answer when the completion service returns no message. */
  const NoSummary := "No summary available."

  /** The prompt: the sanitised text between the fixed head and tail. */
  function SummarizePrompt(text: string): (r: string)
    ensures var e := EscapeForJson(text);
            |r| == |SummarizePromptHead| + |e| + |SummarizePromptTail|
            && r[..|SummarizePromptHead|] == SummarizePromptHead
            && r[|SummarizePromptHead|..|SummarizePromptHead| + |e|] == e
            && r[|SummarizePromptHead| + |e|..] == SummarizePromptTail
  {
    SummarizePromptHead + EscapeForJson(text) + SummarizePromptTail
  }

  /** response?.ToString(): the text of a message, "" when its content is null. */
  function MessageText(content: Option<string>): string {
    content.GetOr("")
  }

  /** SummarizeAsync. */
  function Summarize(text: string, complete: string -> Completion): (r: Result<string>)
    ensures r.Success? ==> r.value == NoSummary ||
                           r.value == [] || (!IsWhiteSpace(r.value[0]) && !IsWhiteSpace(r.value[|r.value| - 1]))
  {
    match complete(SummarizePrompt(text))
    case Failed(message) => Failure(message)
    case NoMessage => Success(NoSummary)
    case Message(content) => Success(Trim(MessageText(content)))
  }

  /** The prompt carries the sanitised text, and it differs from the raw text
      whenever the raw text holds a control character. */
  lemma PromptEmbedsSanitised(text: string, k: nat)
    requires k < |text| && IsControl(text[k])
    ensures var e := EscapeForJson(text);
            SummarizePrompt(text)[|SummarizePromptHead|..|SummarizePromptHead| + |e|] == e && e != text
  {
    EscapeForJsonNoControl(text);
  }

  /** Text needing no escape appears in the prompt unchanged. */
  lemma PromptEmbedsPlain(text: string)
    requires forall k :: 0 <= k < |text| ==> !MustEscape(text[k])
    ensures SummarizePrompt(text) == SummarizePromptHead + text + SummarizePromptTail
  {
    EscapeForJsonPlain(text);
  }

  /** The answer depends on the completion service only through its answer
      to the one prompt. */
  lemma SummarizeOneCall(text: string, c1: string -> Completion, c2: string -> Completion)
    requires c1(SummarizePrompt(text)) == c2(SummarizePrompt(text))
    ensures Summarize(text, c1) == Summarize(text, c2)
  {
  }

  /** No message gives "No summary available."; a message gives its text trimmed. */
  lemma SummarizeOutcomes(text: string, complete: string -> Completion)
    ensures complete(SummarizePrompt(text)) == NoMessage ==> Summarize(text, complete) == Success(NoSummary)
    ensures complete(SummarizePrompt(text)).Message? ==>
              Summarize(text, complete) == Success(Trim(MessageText(complete(SummarizePrompt(text)).content)))
    ensures complete(SummarizePrompt(text)).Failed? ==>
              Summarize(text, complete) == Failure(complete(SummarizePrompt(text)).message)
  {
  }

  /** A message with blank text gives "", not the fixed text. */
  lemma BlankAnswerEmpty(text: string, complete: string -> Completion, answer: string)
    requires complete(SummarizePrompt(text)) == Message(Some(answer)) && AllWhiteSpace(answer)
    ensures Summarize(text, complete) == Success("")
  {
    TrimEmptyIffWhiteSpace(answer);
  }
}
