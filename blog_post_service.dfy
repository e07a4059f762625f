/** BlogPostService: the three-step pipeline that turns notes into a blog
    post.  Each chat completion is the function `complete`, applied to the
    prompt; the JSON deserialiser is the function `deserialize`, applied to
    the extracted text.  The file date is the caller's yyyy-MM-dd text. */
module BlogPostService {
  import opened Wrappers
  import opened Text
  import opened BlogRecords
  import opened JsonExtraction
  import opened MetadataDefaults
  import opened Filename

  /** BlogConstants.SummaryAndMetadataPrompt. */
  const SummaryAndMetadataPrompt: string :=
    "\n"
    + "            You are a professional technical blog writer. Based on the following project notes, perform these tasks:\n"
    + "\n"
    + "            1. Create a concise, clear, and engaging summary that captures the key points. This summary should be suitable for a technical blog post introduction.\n"
    + "            2. Generate appropriate metadata including a descriptive title, relevant categories, and specific tags based on the content.\n"
    + "\n"
    + "            The metadata should be in JSON format with this structure:\n"
    + "            {\n"
    + "                \"summary\": \"<A concise, engaging summary of the notes, focusing on key technical points and insights>\",\n"
    + "                \"metadata\": {\n"
    + "                    \"title\": \"<A clear, descriptive title that captures the main topic>\",\n"
    + "                    \"categories\": [\"<primary category>\", \"<secondary category>\", ...],\n"
    + "                    \"tags\": [\"<specific tag1>\", \"<specific tag2>\", ...]\n"
    + "                }\n"
    + "            }\n"
    + "\n"
    + "            Your response should ONLY include the JSON with no additional text."


  /** BlogConstants.BlogPostGenerationPrompt. */
  const BlogPostGenerationPrompt: string :=
    "\n"
    + "        You are a professional technical blog writer. Based on the following project notes and summary, create a well-structured, engaging blog post.\n"
    + "\n"
    + "        Write a complete blog post that:\n"
    + "        1. Expands on the summary with more details from the notes\n"
    + "        2. Uses proper markdown formatting with headings, code blocks, and links\n"
    + "        3. Has a clear introduction, body, and conclusion\n"
    + "        4. Includes code examples where relevant\n"
    + "        5. Explains technical concepts clearly\n"
    + "        6. Uses a professional but conversational tone\n"
    + "\n"
    + "        Your response should ONLY include the blog post content in markdown format."


  /** The summary used for a parsed response without one. */
  const NoSummary := "No summary available."

  /** The first prompt: the template, then the notes. */
  function SummaryAndMetadataRequest(notes: string): (r: string)
    ensures |r| >= |notes| && r[|r| - |notes|..] == notes
    ensures |r| >= |SummaryAndMetadataPrompt| && r[..|SummaryAndMetadataPrompt|] == SummaryAndMetadataPrompt
  {
    SummaryAndMetadataPrompt + "\n\nNotes:\n" + notes
  }

  /** The second prompt: the template, the step-one summary, then the notes. */
  function BlogContentRequest(notes: string, summary: string): (r: string)
    ensures var i := |BlogPostGenerationPrompt| + |"\n\nSummary:\n"|;
            i + |summary| <= |r| && r[i..i + |summary|] == summary
    ensures |r| >= |notes| && r[|r| - |notes|..] == notes
  {
    BlogPostGenerationPrompt + "\n\nSummary:\n" + summary + "\n\nOriginal Notes:\n" + notes
  }

  /** The `??` merge of a parsed response: each missing part is defaulted on
      its own. */
  function Merge(response: CombinedResponse, notes: string): SummaryAndMetadata {
    SummaryAndMetadata(
      response.summary.GetOr(NoSummary),
      if response.metadata.Some? then response.metadata.value else DefaultMetadata(notes))
  }

  /** What the deserialiser's outcome for the extracted text leads to: a
      JsonException and a null result both fall back to the defaults. */
  function Interpret(d: Deserialized, notes: string): SummaryAndMetadata {
    match d
    case JsonError => DefaultSummaryAndMetadata(notes)
    case NullResponse => DefaultSummaryAndMetadata(notes)
    case Parsed(response) => Merge(response, notes)
  }

  /** The outcome of step one for a given first reply.  A throwing completion
      call propagates; an empty reply or a reply without a balanced object
      gives the defaults; otherwise the first balanced object is deserialised. */
  ghost predicate IsSummaryAndMetadata(notes: string, reply: Completion,
                                       deserialize: string -> Deserialized,
                                       r: Result<SummaryAndMetadata>)
  {
    if reply.Failed? then r == Failure(reply.message)
    else
      var content := ContentOf(reply);
      if IsNullOrWhiteSpace(content) || NoMatch(content.value) then
        r == Success(DefaultSummaryAndMetadata(notes))
      else
        exists m :: IsFirstMatch(content.value, m) && r == Success(Interpret(deserialize(m.value), notes))
  }

  /** GenerateSummaryAndMetadataAsync. */
  method GenerateSummaryAndMetadataAsync(notes: string, complete: string -> Completion,
                                         deserialize: string -> Deserialized)
    returns (r: Result<SummaryAndMetadata>)
    ensures IsSummaryAndMetadata(notes, complete(SummaryAndMetadataRequest(notes)), deserialize, r)
  {
    var prompt := SummaryAndMetadataRequest(notes);
    var reply := complete(prompt);
    if reply.Failed? {
      return Failure(reply.message);
    }
    var content := ContentOf(reply);
    if IsNullOrWhiteSpace(content) {
      var defaults := CreateDefaultSummaryAndMetadata(notes);
      return Success(defaults);
    }
    var jsonMatch := ExtractJson(content.value);
    if jsonMatch.None? {
      var defaults := CreateDefaultSummaryAndMetadata(notes);
      return Success(defaults);
    }
    var parsed := deserialize(jsonMatch.value.value);
    assert IsFirstMatch(content.value, jsonMatch.value);
    match parsed {
      case JsonError =>
        var defaults := CreateDefaultSummaryAndMetadata(notes);
        r := Success(defaults);
      case NullResponse =>
        var defaults := CreateDefaultSummaryAndMetadata(notes);
        r := Success(defaults);
      case Parsed(response) =>
        var summary := response.summary.GetOr(NoSummary);
        var metadata: BlogMetadata;
        if response.metadata.Some? {
          metadata := response.metadata.value;
        } else {
          metadata := CreateDefaultMetadata(notes);
        }
        r := Success(SummaryAndMetadata(summary, metadata));
    }
    assert r == Success(Interpret(parsed, notes));
  }

  /** GenerateBlogContentAsync: the trimmed content of the second reply, or
      the summary when there is no content at all. */
  function GenerateBlogContent(notes: string, summary: string, complete: string -> Completion): (r: Result<string>)
    ensures r.Success? ==> r.value == summary || r.value == Trim(r.value)
  {
    var reply := complete(BlogContentRequest(notes, summary));
    if reply.Failed? then Failure(reply.message)
    else match ContentOf(reply)
      case None => Success(summary)
      case Some(c) => Success(Trim(c))
  }

  /** Steps two and three, given the outcome of step one. */
  function Assemble(step1: Result<SummaryAndMetadata>, notes: string, fileDate: string,
                    complete: string -> Completion): Result<BlogPostResult>
  {
    match step1
    case Failure(e) => Failure(e)
    case Success(sm) =>
      match GenerateBlogContent(notes, sm.summary, complete)
      case Failure(e) => Failure(e)
      case Success(content) =>
        Success(BlogPostResult(sm.metadata, sm.summary, content, GenerateFilename(sm.metadata.title, fileDate)))
  }

  /** The outcome of GenerateBlogPostAsync. */
  ghost predicate IsBlogPost(notes: string, fileDate: string, complete: string -> Completion,
                             deserialize: string -> Deserialized, r: Result<BlogPostResult>)
  {
    exists step1 :: IsSummaryAndMetadata(notes, complete(SummaryAndMetadataRequest(notes)), deserialize, step1)
                    && r == Assemble(step1, notes, fileDate, complete)
  }

  /** GenerateBlogPostAsync: summary and metadata, then content, then the
      filename from the title; any failure is passed on unchanged. */
  method GenerateBlogPostAsync(notes: string, fileDate: string, complete: string -> Completion,
                               deserialize: string -> Deserialized)
    returns (r: Result<BlogPostResult>)
    ensures IsBlogPost(notes, fileDate, complete, deserialize, r)
  {
    var step1 := GenerateSummaryAndMetadataAsync(notes, complete, deserialize);
    if step1.Failure? {
      return Failure(step1.error);
    }
    var sm := step1.value;
    var content := GenerateBlogContent(notes, sm.summary, complete);
    if content.Failure? {
      return Failure(content.error);
    }
    var filename := GenerateFilename(sm.metadata.title, fileDate);
    r := Success(BlogPostResult(sm.metadata, sm.summary, content.value, filename));
  }

  /** A text holding a balanced object is not blank. */
  lemma MatchNotBlank(t: string, m: Match)
    requires IsFirstMatch(t, m)
    ensures !IsNullOrWhiteSpace(Some(t))
  {
    assert t[m.index] == m.value[0];
  }

  /** Step one has exactly one outcome for each reply. */
  lemma SummaryAndMetadataDeterministic(notes: string, reply: Completion, deserialize: string -> Deserialized,
                                        r1: Result<SummaryAndMetadata>, r2: Result<SummaryAndMetadata>)
    requires IsSummaryAndMetadata(notes, reply, deserialize, r1)
    requires IsSummaryAndMetadata(notes, reply, deserialize, r2)
    ensures r1 == r2
  {
    if !reply.Failed? {
      var content := ContentOf(reply);
      if !IsNullOrWhiteSpace(content) && !NoMatch(content.value) {
        var m1 :| IsFirstMatch(content.value, m1) && r1 == Success(Interpret(deserialize(m1.value), notes));
        var m2 :| IsFirstMatch(content.value, m2) && r2 == Success(Interpret(deserialize(m2.value), notes));
        FirstMatchUnique(content.value, m1, m2);
      }
    }
  }

  /** A missing, content-less or blank first reply gives the default summary
      and the metadata synthesised from the notes. */
  lemma BlankReplyDefaults(notes: string, reply: Completion, deserialize: string -> Deserialized,
                           r: Result<SummaryAndMetadata>)
    requires IsSummaryAndMetadata(notes, reply, deserialize, r)
    requires !reply.Failed? && IsNullOrWhiteSpace(ContentOf(reply))
    ensures r == Success(SummaryAndMetadata(DefaultSummary, DefaultMetadata(notes)))
  {
  }

  /** No balanced object, a null deserialisation and a JsonException all give
      the same defaults as a blank reply. */
  lemma UnusableReplyDefaults(notes: string, text: string, deserialize: string -> Deserialized,
                              r: Result<SummaryAndMetadata>)
    requires IsSummaryAndMetadata(notes, Message(Some(text)), deserialize, r)
    requires NoMatch(text) || forall m :: IsFirstMatch(text, m) ==> !deserialize(m.value).Parsed?
    ensures r == Success(SummaryAndMetadata(DefaultSummary, DefaultMetadata(notes)))
  {
    if !IsNullOrWhiteSpace(Some(text)) && !NoMatch(text) {
      var m :| IsFirstMatch(text, m) && r == Success(Interpret(deserialize(m.value), notes));
      assert !deserialize(m.value).Parsed?;
    }
  }

  /** A reply whose first balanced object deserialises to a response gives
      that response merged with the defaults. */
  lemma ParsedReply(notes: string, text: string, deserialize: string -> Deserialized,
                    r: Result<SummaryAndMetadata>, m: Match, response: CombinedResponse)
    requires IsSummaryAndMetadata(notes, Message(Some(text)), deserialize, r)
    requires IsFirstMatch(text, m) && deserialize(m.value) == Parsed(response)
    ensures r == Success(Merge(response, notes))
  {
    MatchNotBlank(text, m);
    var m' :| IsFirstMatch(text, m') && r == Success(Interpret(deserialize(m'.value), notes));
    FirstMatchUnique(text, m, m');
  }

  /** The merge defaults the two parts independently: a present summary is
      kept verbatim and a missing one becomes "No summary available."; present
      metadata is kept unchanged, even with empty lists, and missing metadata
      is synthesised without touching the summary. */
  lemma MergeDefaultsIndependently(response: CombinedResponse, notes: string)
    ensures var r := Merge(response, notes);
            (response.summary.Some? ==> r.summary == response.summary.value) &&
            (response.summary.None? ==> r.summary == NoSummary) &&
            (response.metadata.Some? ==> r.metadata == response.metadata.value) &&
            (response.metadata.None? ==> r.metadata == DefaultMetadata(notes))
  {
  }

  /** The two "no summary" texts are different strings. */
  lemma NoSummaryTextsDiffer()
    ensures NoSummary != DefaultSummary
  {
    assert |NoSummary| == 21 && |DefaultSummary| == 83;
  }

  /** Content is the summary only when the second reply has no content. */
  lemma ContentFallsBackOnNull(notes: string, summary: string, complete: string -> Completion)
    requires complete(BlogContentRequest(notes, summary)) == NoMessage ||
             complete(BlogContentRequest(notes, summary)) == Message(None)
    ensures GenerateBlogContent(notes, summary, complete) == Success(summary)
  {
  }

  /** Present content is returned trimmed: no whitespace at either end. */
  lemma ContentTrimmed(notes: string, summary: string, complete: string -> Completion, c: string)
    requires complete(BlogContentRequest(notes, summary)) == Message(Some(c))
    ensures var r := GenerateBlogContent(notes, summary, complete).value;
            r == Trim(c) && (r == [] || (!IsWhiteSpace(r[0]) && !IsWhiteSpace(r[|r| - 1])))
  {
    var t := Trim(c);
    assert GenerateBlogContent(notes, summary, complete) == Success(t);
    assert t == [] || (!IsWhiteSpace(t[0]) && !IsWhiteSpace(t[|t| - 1]));
  }

  /** Whitespace-only content gives "", not the summary. */
  lemma BlankContentEmpty(notes: string, summary: string, complete: string -> Completion, c: string)
    requires complete(BlogContentRequest(notes, summary)) == Message(Some(c)) && AllWhiteSpace(c)
    ensures GenerateBlogContent(notes, summary, complete) == Success("")
  {
    TrimEmptyIffWhiteSpace(c);
  }

  /** Generating a post has exactly one outcome. */
  lemma BlogPostDeterministic(notes: string, fileDate: string, complete: string -> Completion,
                              deserialize: string -> Deserialized, r1: Result<BlogPostResult>, r2: Result<BlogPostResult>)
    requires IsBlogPost(notes, fileDate, complete, deserialize, r1)
    requires IsBlogPost(notes, fileDate, complete, deserialize, r2)
    ensures r1 == r2
  {
    var reply := complete(SummaryAndMetadataRequest(notes));
    var s1 :| IsSummaryAndMetadata(notes, reply, deserialize, s1) && r1 == Assemble(s1, notes, fileDate, complete);
    var s2 :| IsSummaryAndMetadata(notes, reply, deserialize, s2) && r2 == Assemble(s2, notes, fileDate, complete);
    SummaryAndMetadataDeterministic(notes, reply, deserialize, s1, s2);
  }

  /** A generated post carries the step-one summary and metadata, its content
      is the second step's answer to a prompt made of that summary and the
      notes, and its filename comes from the title and the date alone. */
  lemma BlogPostParts(notes: string, fileDate: string, complete: string -> Completion,
                      deserialize: string -> Deserialized, post: BlogPostResult)
    requires IsBlogPost(notes, fileDate, complete, deserialize, Success(post))
    ensures IsSummaryAndMetadata(notes, complete(SummaryAndMetadataRequest(notes)), deserialize,
                                 Success(SummaryAndMetadata(post.summary, post.metadata)))
    ensures GenerateBlogContent(notes, post.summary, complete) == Success(post.content)
    ensures post.filename == GenerateFilename(post.metadata.title, fileDate)
  {
    var step1 :| IsSummaryAndMetadata(notes, complete(SummaryAndMetadataRequest(notes)), deserialize, step1)
                 && Success(post) == Assemble(step1, notes, fileDate, complete);
    AssembledParts(step1, notes, fileDate, complete, post);
  }

  lemma AssembledParts(step1: Result<SummaryAndMetadata>, notes: string, fileDate: string,
                       complete: string -> Completion, post: BlogPostResult)
    requires Assemble(step1, notes, fileDate, complete) == Success(post)
    ensures step1 == Success(SummaryAndMetadata(post.summary, post.metadata))
    ensures GenerateBlogContent(notes, post.summary, complete) == Success(post.content)
    ensures post.filename == GenerateFilename(post.metadata.title, fileDate)
  {
  }

  /** When the first completion call throws, so does the whole generation. */
  lemma BlogPostFailurePropagates(notes: string, fileDate: string, complete: string -> Completion,
                                  deserialize: string -> Deserialized, r: Result<BlogPostResult>)
    requires complete(SummaryAndMetadataRequest(notes)).Failed?
    requires IsBlogPost(notes, fileDate, complete, deserialize, r)
    ensures r == Failure(complete(SummaryAndMetadataRequest(notes)).message)
  {
  }

  /** When step one succeeds but the second completion call throws, the whole
      generation fails with that error. */
  lemma BlogContentFailurePropagates(notes: string, fileDate: string, complete: string -> Completion,
                                     deserialize: string -> Deserialized, sm: SummaryAndMetadata,
                                     r: Result<BlogPostResult>)
    requires IsSummaryAndMetadata(notes, complete(SummaryAndMetadataRequest(notes)), deserialize, Success(sm))
    requires complete(BlogContentRequest(notes, sm.summary)).Failed?
    requires IsBlogPost(notes, fileDate, complete, deserialize, r)
    ensures r == Failure(complete(BlogContentRequest(notes, sm.summary)).message)
  {
    var reply := complete(SummaryAndMetadataRequest(notes));
    var step1 :| IsSummaryAndMetadata(notes, reply, deserialize, step1)
                 && r == Assemble(step1, notes, fileDate, complete);
    SummaryAndMetadataDeterministic(notes, reply, deserialize, step1, Success(sm));
  }

  /** With no first answer at all the post is built from the defaults: the
      default summary, the synthesised metadata, and a non-empty tag list. */
  lemma NoAnswerPost(notes: string, fileDate: string, complete: string -> Completion,
                     deserialize: string -> Deserialized, post: BlogPostResult)
    requires complete(SummaryAndMetadataRequest(notes)) == NoMessage
    requires IsBlogPost(notes, fileDate, complete, deserialize, Success(post))
    ensures post.summary == DefaultSummary && post.metadata == DefaultMetadata(notes)
    ensures post.metadata.categories == DefaultCategories && 1 <= |post.metadata.tags| <= MaxTags
  {
    BlogPostParts(notes, fileDate, complete, deserialize, post);
  }
}
