/** The records of BlogPostService.cs and the outcomes of the two external
    calls the pipeline makes: the chat completion and the JSON deserialiser. */
module BlogRecords {
  import opened Wrappers

  /** BlogMetadata: title, categories and tags, lists in order. */
  datatype BlogMetadata = BlogMetadata(title: string, categories: seq<string>, tags: seq<string>)

  /** CombinedResponse: the deserialised model answer; either field may be absent. */
  datatype CombinedResponse = CombinedResponse(summary: Option<string>, metadata: Option<BlogMetadata>)

  /** BlogPostResult: what one generation produces. */
  datatype BlogPostResult = BlogPostResult(metadata: BlogMetadata, summary: string, content: string, filename: string)

  /** The (Summary, Metadata) pair returned by the first generation step. */
  datatype SummaryAndMetadata = SummaryAndMetadata(summary: string, metadata: BlogMetadata)

  /** What JsonSerializer.Deserialize<CombinedResponse> does with a text:
      throws a JsonException, returns null, or returns a response. */
  datatype Deserialized = JsonError | NullResponse | Parsed(response: CombinedResponse)

  /** What GetChatMessageContentAsync does with a prompt: throws (the message
      of the exception), returns no message, or returns a message whose
      Content may be null. */
  datatype Completion = Failed(message: string) | NoMessage | Message(content: Option<string>)

  /** response?.Content */
  function ContentOf(c: Completion): (r: Option<string>)
    requires !c.Failed?
    ensures r.Some? <==> c.Message? && c.content.Some?
  {
    if c.Message? then c.content else None
  }
}
