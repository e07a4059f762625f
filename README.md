# Blog-generation pipeline of assistant-api, in Dafny

This project models the part of assistant-api that turns free-form project
notes into a published blog post:

- `BlogPostService` asks a chat-completion service for a summary and metadata
  as JSON. It pulls the first brace-balanced object out of the reply and
  deserialises it. Wherever the reply is unusable it falls back to metadata
  synthesised from the notes. It then asks for the full post content and
  derives the post's filename from its title.
- `BlogPostPlugin` renders the post as Markdown with Jekyll front matter and
  saves it under that filename.
- `SummarizationService` sanitises a text with `JsonHelper.EscapeForJson`,
  embeds it in a prompt and returns the trimmed answer.

One Dafny module stands for each component:

| file | module | models |
|---|---|---|
| `text.dfy` | `Text` | the .NET string operations the code relies on: `Trim`, `Trim(char)`, `Split`, `string.Join`, `Contains(term, OrdinalIgnoreCase)`, `IsNullOrWhiteSpace` |
| `blog_records.dfy` | `BlogRecords` | `BlogMetadata`, `CombinedResponse`, `BlogPostResult`, and what the completion service and the deserialiser can answer |
| `json_extraction.dfy` | `JsonExtraction` | the balancing-group regular expression of `BlogPostService.cs` line 70 |
| `json_helper.dfy` | `JsonHelper` | `JsonHelper.EscapeForJson`, and a JSON string decoder to state its round trip |
| `filename.dfy` | `Filename` | `GenerateFilename` |
| `metadata_defaults.dfy` | `MetadataDefaults` | `CreateDefaultMetadata` and `CreateDefaultSummaryAndMetadata` |
| `blog_post_service.dfy` | `BlogPostService` | the prompts, the two generation steps and `GenerateBlogPostAsync` |
| `blog_post_plugin.dfy` | `BlogPostPlugin` | `CreateMarkdownContent`, `SaveMarkdownToFile` and `GenerateBlogPost` |
| `summarization_service.dfy` | `SummarizationService` | `SummarizeAsync` |
| `default_metadata_example.dfy` | `DefaultMetadataExample` | the fallback metadata of one concrete note, end to end |

The collaborators the code calls but does not own are parameters:

- The chat-completion service is a function `complete: string -> Completion`. It maps a prompt to:
  - `Failed(message)`, an exception;
  - `NoMessage`, a null response;
  - `Message(content)`, where the content itself may be null.
- `System.Text.Json`'s deserialiser is a function `deserialize: string -> Deserialized`. It returns:
  - `JsonError`, a `JsonException`;
  - `NullResponse`, null;
  - `Parsed(response)`.
- Because both are plain functions, the orchestration can be stated as a
  relation, `IsSummaryAndMetadata` and `IsBlogPost`. The methods are proved
  to produce exactly the result that relation describes.
- The two calls to `DateTime.Now` are two independent parameters:
  - `fileDate`, the `yyyy-MM-dd` date used in the filename;
  - `date`, the front-matter date.
- An exception that escapes a method is a `Failure` of `Result`.

The regular expression `\{(?:[^{}]|(?<open>\{)|(?<-open>\}))+(?(open)(?!))\}`:

- Each loop item has exactly one alternative that applies. So the engine
  can only backtrack over the number of iterations, and the greedy loop
  stops at the first `}` that takes the depth back to zero.
- The match is therefore the text from the leftmost `{` whose depth first
  returns to zero on a closing brace, with at least one character between
  the outer braces.
- `IsObject`, `IsFirstMatch` and `NoMatch` state this declaratively.
- `ScanObject` (the depth counter) and `ExtractJson` (the scan over start
  positions) are loops proved against that statement.

Behaviour of the code worth stating plainly:

- The fallback title is the trimmed first line of the notes, even when that
  line is empty and later lines are not (`LeadingNewlinePlaceholder`). Its
  length is counted in UTF-16 code units, as `string.Length` counts it.
- The content falls back to the summary only when the second reply or its
  content is null. An empty or blank reply gives empty content.
- Metadata parsed from the reply is used as it is, so its categories or tags
  may be empty. Only metadata that is missing altogether is replaced by
  defaults.
- An exception from the completion service is not caught by
  `GenerateSummaryAndMetadataAsync`, which catches only `JsonException`. It
  fails the whole generation instead of producing defaults.
- The extraction does not track string literals. A brace inside a quoted
  JSON string counts towards the depth (`BraceInStringLiteral`).
- A missing summary in the parsed JSON becomes "No summary available.".
  That is not the default summary used on the other fallback paths
  (`NoSummaryTextsDiffer`).
- `EscapeForJson` follows Newtonsoft's default escaping. That escaping also
  turns U+0085, U+2028 and U+2029 into `\uXXXX`. Trimming the quotes removes
  the closing quote of a final `\"` as well, so a text ending in a quote
  yields a result that is no longer a valid string body
  (`EscapeForJsonTrailingQuoteInvalid`).

## Model

| member | source | states |
|---|---|---|
| Text.IsNullOrWhiteSpace | Services/BlogPostService.cs:61 | `string.IsNullOrWhiteSpace`: the text is absent or all whitespace; `TrimEmptyIffWhiteSpace` ties it to trimming |
| Text.TrimBy | Services/BlogPostService.cs:125 | `Trim(chars)` removes exactly the longest prefix and the longest suffix of trimmed characters: the result is a slice of the input, everything cut off is a trimmed character, and the result neither starts nor ends with one |
| Text.TrimByIdempotent | Services/BlogPostService.cs:125 | trimming twice is trimming once |
| Text.Trim | Services/BlogPostService.cs:111 | `Trim()` is trimming whitespace; its properties are those of `TrimBy` |
| Text.TrimEmptyIffWhiteSpace | Services/BlogPostService.cs:61 | `Trim()` gives the empty string exactly when the text is all whitespace, which is when `IsNullOrWhiteSpace` holds |
| Text.Split | Services/BlogPostService.cs:147 | `Split('\n')` always yields at least one piece, and no piece contains the separator |
| Text.SplitFirst | Services/BlogPostService.cs:147 | the first piece of a split is the prefix of the text up to the first separator, or the whole text |
| Text.SplitJoin | Plugins/BlogPostPlugin.cs:54-55 | splitting a `string.Join` of a non-empty list at the separator gives the list back when no item contains the separator |
| Text.Join | Plugins/BlogPostPlugin.cs:54-55 | `string.Join`: the items with the separator between neighbours; `SplitJoin` recovers the items |
| Text.ContainsIgnoreCase | Services/BlogPostService.cs:159 | ordinal case-insensitive containment, characterised by `ContainsIgnoreCaseIff` |
| Text.ContainsIgnoreCaseIff | Services/BlogPostService.cs:159 | `Contains(term, OrdinalIgnoreCase)` holds exactly when the term occurs, letter case aside, at some position of the text |
| Text.Utf16Length | Services/BlogPostService.cs:148 | `string.Length` counts UTF-16 code units: between one and two per character, exactly one per character of the Basic Multilingual Plane (`Utf16LengthBmp`) |
| Text.Utf16LengthBmp | Services/BlogPostService.cs:148 | a text without characters above U+FFFF has as many code units as characters |
| BlogRecords.ContentOf | Services/BlogPostService.cs:61 | `response?.Content` is present exactly when there is a response and it carries content |
| JsonExtraction.ScanObject | Services/BlogPostService.cs:70 | from an opening brace, returns the end of the balanced object that starts there, or reports that no prefix from there is one |
| JsonExtraction.ExtractJson | Services/BlogPostService.cs:70-71 | `Regex.Match` fails exactly when no substring is a balanced object; otherwise it returns the leftmost one, which is its text at its index |
| JsonExtraction.ObjectPrefix | Services/BlogPostService.cs:70 | no proper prefix of a match is itself a match: the first return to depth zero ends it |
| JsonExtraction.FirstMatchUnique | Services/BlogPostService.cs:70 | the match is unique: two leftmost matches are equal |
| JsonExtraction.FirstMatchExists | Services/BlogPostService.cs:70-71 | when any balanced substring exists, a leftmost match exists |
| JsonExtraction.EmptyBracesNoMatch | Services/BlogPostService.cs:70 | `{}` alone is no match, because the loop needs at least one item |
| JsonExtraction.ExtractFromProse | Services/BlogPostService.cs:69-70 | an object preceded by text without braces is found at its position, whatever follows it |
| JsonExtraction.BraceInStringLiteral | Services/BlogPostService.cs:70 | a closing brace inside a quoted string ends the match early: the match in `{"s":"}"}` is `{"s":"}` |
| JsonHelper.HexDigit | Utilities/JsonHelper.cs:18 | the lower-case hexadecimal digit of a value below 16 reads back as that value |
| JsonHelper.EscapeChar | Utilities/JsonHelper.cs:18 | a character is escaped exactly when the serialiser must escape it; an escape starts with a backslash and ends in a quote only for the quote itself |
| JsonHelper.EscapeBody | Utilities/JsonHelper.cs:18 | the inside of the serialised literal, each character escaped on its own; `EscapeBodyRoundTrip` and `EscapeBodyNoControl` state what it means |
| JsonHelper.JsonString | Utilities/JsonHelper.cs:18 | `JsonConvert.ToString(s)`: the escaped body between two quotes |
| JsonHelper.EscapeForJson | Utilities/JsonHelper.cs:13-19 | empty input comes back unchanged; otherwise the result neither starts nor ends with a quote |
| JsonHelper.UnescapeEscapeChar | Utilities/JsonHelper.cs:18 | each single-character escape decodes back to its character |
| JsonHelper.EscapeBodyRoundTrip | Utilities/JsonHelper.cs:18 | the body of `JsonConvert.ToString(s)` is a valid JSON string body that decodes to `s` |
| JsonHelper.EscapeBodyNoControl | Utilities/JsonHelper.cs:18 | the escaped body holds no raw control character |
| JsonHelper.EscapeForJsonShape | Utilities/JsonHelper.cs:18 | `Trim('"')` removes just the two enclosing quotes, plus the final quote of a closing `\"` when the text ends in a quote |
| JsonHelper.EscapeForJsonPlain | Utilities/JsonHelper.cs:13-19 | text with nothing to escape is returned unchanged |
| JsonHelper.EscapeForJsonNoControl | Utilities/JsonHelper.cs:13-19 | the sanitised text holds no raw control character |
| JsonHelper.LineSeparatorEscaped | Utilities/JsonHelper.cs:18 | a line separator U+2028 comes out as the six characters `\u2028` |
| JsonHelper.EscapeForJsonTrailingQuote | Utilities/JsonHelper.cs:18 | for a text ending in a quote, the result ends in a lone backslash and, with the quote put back, is the full escaped body |
| JsonHelper.EscapeForJsonRoundTrip | Utilities/JsonHelper.cs:13-19 | decoding the sanitised text restores the input when it does not end in a quote, and fails when it does |
| JsonHelper.EscapeForJsonTrailingQuoteInvalid | Utilities/JsonHelper.cs:18 | a text ending in a quote yields an invalid string body |
| Filename.GenerateFilename | Services/BlogPostService.cs:117-128 | the filename of a title and a date; `FilenameParts`, `DockerExample` and `HyphenRunsKept` state its shape |
| Filename.StripDisallowed | Services/BlogPostService.cs:123 | removing `[^a-zA-Z0-9\s-]` leaves only letters, digits, whitespace and hyphens, and never lengthens the text |
| Filename.CollapseWhiteSpace | Services/BlogPostService.cs:124 | `Regex.Replace(s, @"\s+", "-")`; `CollapseRemovesWhiteSpace` and `CollapseRun` state that each whitespace run becomes one hyphen |
| Filename.CollapseRemovesWhiteSpace | Services/BlogPostService.cs:124 | after replacing `\s+` with `-` no whitespace is left |
| Filename.Slug | Services/BlogPostService.cs:123-125 | the slug holds only letters, digits and hyphens, and neither starts nor ends with a hyphen |
| Filename.CollapseRun | Services/BlogPostService.cs:124 | every maximal whitespace run becomes exactly one hyphen, and the text on either side is treated independently |
| Filename.StripDisallowedConcat | Services/BlogPostService.cs:123 | stripping works character by character: it distributes over concatenation |
| Filename.SlugIdempotent | Services/BlogPostService.cs:123-125 | a slug is its own slug |
| Filename.FilenameParts | Services/BlogPostService.cs:117-128 | the filename is the date, a hyphen, the slug of the title and `.md`, and the part between date and extension has the slug's properties |
| Filename.DockerExample | Services/BlogPostService.cs:117-128 | the title `Docker & Kubernetes: A Guide!` gives `<date>-Docker-Kubernetes-A-Guide.md` |
| Filename.HyphenRunsKept | Services/BlogPostService.cs:123-125 | hyphens already in the title are kept next to collapsed spaces: `A - B` gives `A---B` |
| MetadataDefaults.FirstLine | Services/BlogPostService.cs:147 | the trimmed text before the first line feed; `DefaultTitleFirstLine` relates it to the title |
| MetadataDefaults.DefaultTitle | Services/BlogPostService.cs:147-148 | the fallback title is either the placeholder or more than five UTF-16 code units long |
| MetadataDefaults.DefaultTitleFirstLine | Services/BlogPostService.cs:147-148 | the title is the trimmed text before the first line feed when that has more than five UTF-16 code units, otherwise the placeholder |
| MetadataDefaults.AstralTitle | Services/BlogPostService.cs:147-148 | three non-space characters above U+FFFF count as six code units, so they are long enough to be the title |
| MetadataDefaults.LeadingNewlinePlaceholder | Services/BlogPostService.cs:147-148 | notes that start with a line feed get the placeholder title, whatever follows |
| MetadataDefaults.DefaultCategoriesFixed | Services/BlogPostService.cs:151 | the fallback categories are always Technical, Development |
| MetadataDefaults.MatchingTerms | Services/BlogPostService.cs:158-159 | each matched term is a vocabulary term found in the notes, and there are no more matches than terms |
| MetadataDefaults.MatchingTermsIff | Services/BlogPostService.cs:158-159 | a term is matched exactly when it is in the vocabulary and occurs in the notes, letter case aside |
| MetadataDefaults.MatchingTermsOrdered | Services/BlogPostService.cs:158-159 | matches come in vocabulary order |
| MetadataDefaults.MatchingTermsEmptyIff | Services/BlogPostService.cs:158-163 | there is no match exactly when no vocabulary term occurs in the notes |
| MetadataDefaults.TakeUpTo | Services/BlogPostService.cs:160 | `Take(5)` keeps a prefix of at most five items, all of them when there are five or fewer |
| MetadataDefaults.DefaultTags | Services/BlogPostService.cs:154-167 | the fallback tags number between one and five |
| MetadataDefaults.DefaultTagsFallbackIff | Services/BlogPostService.cs:163-167 | the tags are Development, Technology exactly when no vocabulary term occurs in the notes |
| MetadataDefaults.FallbackNotVocabulary | Services/BlogPostService.cs:154-167 | the fallback tag Development is not a vocabulary term, so fallback tags cannot be mistaken for matches |
| MetadataDefaults.DefaultTagsSound | Services/BlogPostService.cs:154-167 | unless they are the fallback, the tags are vocabulary terms that occur in the notes |
| MetadataDefaults.DefaultTagsComplete | Services/BlogPostService.cs:154-167 | when at most five terms match, every vocabulary term occurring in the notes is a tag |
| MetadataDefaults.DefaultTagsFirstFive | Services/BlogPostService.cs:158-161 | when more than five vocabulary terms occur, the tags are the first five of them |
| MetadataDefaults.DefaultTagsOrdered | Services/BlogPostService.cs:154-167 | unless they are the fallback, the tags come in vocabulary order |
| MetadataDefaults.FindTerms | Services/BlogPostService.cs:158-161 | the filter-and-take loop returns the first five matching terms of the vocabulary, in order |
| MetadataDefaults.CreateDefaultMetadata | Services/BlogPostService.cs:144-175 | the method builds exactly the fallback metadata: title, fixed categories and tags |
| MetadataDefaults.DefaultMetadata | Services/BlogPostService.cs:144-175 | the fallback metadata: the default title, the fixed categories and the default tags, whose properties are the lemmas above |
| MetadataDefaults.DefaultSummaryAndMetadata | Services/BlogPostService.cs:133-139 | the generic summary with the fallback metadata; `CreateDefaultSummaryAndMetadata` builds it |
| MetadataDefaults.CreateDefaultSummaryAndMetadata | Services/BlogPostService.cs:133-139 | the generic summary paired with the fallback metadata |
| BlogPostService.SummaryAndMetadataRequest | Services/BlogPostService.cs:56 | the first prompt starts with the summary-and-metadata instructions and ends with the notes |
| BlogPostService.BlogContentRequest | Services/BlogPostService.cs:106 | the second prompt holds the summary after the blog-writing instructions and ends with the notes |
| BlogPostService.GenerateSummaryAndMetadataAsync | Services/BlogPostService.cs:54-99 | the result is the one `IsSummaryAndMetadata` assigns to the reply to the first prompt |
| BlogPostService.SummaryAndMetadataDeterministic | Services/BlogPostService.cs:54-99 | that relation is a function: one reply, one result |
| BlogPostService.BlankReplyDefaults | Services/BlogPostService.cs:61-65 | a null, content-less or blank reply gives the default summary and metadata |
| BlogPostService.MatchNotBlank | Services/BlogPostService.cs:61-71 | a reply containing a match is never blank, so the blank test and the extraction never overlap |
| BlogPostService.UnusableReplyDefaults | Services/BlogPostService.cs:71-98 | a reply with no extractable object, or whose object does not deserialise to a value, gives the defaults |
| BlogPostService.ParsedReply | Services/BlogPostService.cs:77-92 | a deserialised response is merged field by field |
| BlogPostService.Merge | Services/BlogPostService.cs:89-92 | the deserialised fields, with defaults for missing ones; `MergeDefaultsIndependently` states how |
| BlogPostService.Interpret | Services/BlogPostService.cs:61-98 | the result for each outcome of deserialisation; `UnusableReplyDefaults` and `ParsedReply` state it |
| BlogPostService.MergeDefaultsIndependently | Services/BlogPostService.cs:89-92 | a missing summary becomes "No summary available." and missing metadata becomes the fallback metadata, each independently of the other |
| BlogPostService.NoSummaryTextsDiffer | Services/BlogPostService.cs:90 | the summary used for a missing JSON field is not the default summary of line 136 |
| BlogPostService.GenerateBlogContent | Services/BlogPostService.cs:104-112 | the content is either the summary or a text with no surrounding whitespace |
| BlogPostService.ContentFallsBackOnNull | Services/BlogPostService.cs:111 | a null response or null content gives the summary as content |
| BlogPostService.ContentTrimmed | Services/BlogPostService.cs:111 | returned content is the trimmed reply and has no whitespace at either end |
| BlogPostService.BlankContentEmpty | Services/BlogPostService.cs:111 | a blank reply gives empty content, not the summary |
| BlogPostService.GenerateBlogPostAsync | Services/BlogPostService.cs:23-49 | the result is the one `IsBlogPost` assigns to the two replies |
| BlogPostService.BlogPostDeterministic | Services/BlogPostService.cs:23-49 | the same replies give the same post |
| BlogPostService.Assemble | Services/BlogPostService.cs:28-42 | the post built from the first step's result; `AssembledParts` and `BlogPostParts` state its parts |
| BlogPostService.BlogPostParts | Services/BlogPostService.cs:28-42 | the post holds the summary and metadata of step 1, the content of step 2 for that summary, and the filename of its title |
| BlogPostService.AssembledParts | Services/BlogPostService.cs:28-42 | an assembled post is built from a successful first step and exactly the parts above |
| BlogPostService.BlogPostFailurePropagates | Services/BlogPostService.cs:44-48 | an exception from the first completion call (line 59) is rethrown: the generation fails with that error |
| BlogPostService.BlogContentFailurePropagates | Services/BlogPostService.cs:103-111 | an exception from the second completion call (line 109) is rethrown: the generation fails with that error |
| BlogPostService.NoAnswerPost | Services/BlogPostService.cs:61-65 | with no answer to the first prompt, the post has the default summary, the fallback metadata, the fixed categories and one to five tags |
| BlogPostPlugin.FrontMatter | Plugins/BlogPostPlugin.cs:58-67 | the YAML header block; `MarkdownLines` states its lines |
| BlogPostPlugin.CreateMarkdownContent | Plugins/BlogPostPlugin.cs:48-71 | the Markdown is the front matter followed by the content unchanged |
| BlogPostPlugin.MarkdownLines | Plugins/BlogPostPlugin.cs:58-70 | the Markdown's lines are `---`, `layout: post`, the quoted title, the date, the space-joined categories, the space-joined tags, `---` and a blank line, then the content's lines |
| BlogPostPlugin.FrontMatterListsRecoverable | Plugins/BlogPostPlugin.cs:54-55 | non-empty lists of categories and tags without spaces can be read back from their header line; an empty list reads back as one empty item |
| BlogPostPlugin.EmptyListLine | Plugins/BlogPostPlugin.cs:54-67 | empty lists leave their header keys with nothing after them |
| BlogPostPlugin.HelloExample | Plugins/BlogPostPlugin.cs:48-71 | the categories A and B render as `A B` and the single tag x as `x` |
| BlogPostPlugin.OutputDirectory.Save | Plugins/BlogPostPlugin.cs:98 | writing a file creates it or replaces its text, and leaves every other file alone |
| BlogPostPlugin.GenerateBlogPost | Plugins/BlogPostPlugin.cs:22-46 | on success, the rendered Markdown of the generated post is saved under the post's filename and returned; on failure nothing is written |
| BlogPostPlugin.SavedIsReturned | Plugins/BlogPostPlugin.cs:29-39 | the saved and returned Markdown and its filename depend only on the replies |
| SummarizationService.SummarizePrompt | Services/SummarizationService.cs:23-31 | the prompt is the fixed head, the sanitised text and the fixed tail |
| SummarizationService.PromptEmbedsSanitised | Services/SummarizationService.cs:23-29 | a text holding a control character is embedded in escaped form, not raw |
| SummarizationService.PromptEmbedsPlain | Services/SummarizationService.cs:23-29 | a text with nothing to escape is embedded as it is |
| SummarizationService.MessageText | Services/SummarizationService.cs:34 | `response?.ToString()`: the text of a message, empty when it has no content |
| SummarizationService.Summarize | Services/SummarizationService.cs:20-35 | a summary is "No summary available." or has no whitespace at either end |
| SummarizationService.SummarizeOutcomes | Services/SummarizationService.cs:33-34 | a null response gives "No summary available.", a message gives its trimmed text, and an exception propagates |
| SummarizationService.SummarizeOneCall | Services/SummarizationService.cs:33 | the summary depends only on the service's answer to the one prompt |
| SummarizationService.BlankAnswerEmpty | Services/SummarizationService.cs:34 | a blank answer gives an empty summary, not the fallback text |
| DefaultMetadataExample.ExampleMatchingTerms | Services/BlogPostService.cs:154-161 | in "Today I deployed a Docker container to Kubernetes using a CI/CD pipeline.", the matched terms are exactly Docker, Kubernetes, CI/CD |
| DefaultMetadataExample.ExampleMetadata | Services/BlogPostService.cs:144-175 | those notes get themselves as title, Technical, Development as categories, and Docker, Kubernetes, CI/CD as tags |
| DefaultMetadataExample.ExamplePostWithoutAnswer | Services/BlogPostService.cs:23-65 | with no answer to the first prompt, the post generated from those notes carries that metadata and the default summary |

## Left out

- Logging through `ILogger` is left out: it has no effect on any result.
- `DateTime.Now` is not modelled. Both dates are parameters: `fileDate` for the filename and `date` for the front matter.
- The configured blog directory, its default under `AppContext.BaseDirectory` and `Directory.CreateDirectory` are not modelled. The output directory is an `OutputDirectory` object, a map from file name to text; writes overwrite.
- File-system failures of `File.WriteAllText` are not modelled.
- The chat-completion service and `JsonSerializer.Deserialize` are parameters. Their behaviour (network, prompts' effect on the model, case-insensitive property binding) is not modelled.
- Of `Constants/BlogConstants.cs`, only the constants the pipeline uses are modelled. The two prompt texts keep their leading line break and indentation.
- The line endings inside the verbatim strings are taken to be `\n`: the two prompt texts of `Constants/BlogConstants.cs`, the `$@` front matter at `Plugins/BlogPostPlugin.cs:58-67` (`BlogPostPlugin.FrontMatter`) and the prompt in `Services/SummarizationService.cs` (`SummarizationService.SummarizePromptHead` and `SummarizationService.SummarizePromptTail`).
- `Text.IsWhiteSpace` covers the ASCII whitespace characters only. .NET's `char.IsWhiteSpace` and the regex class `\s` also accept Unicode spaces; notes and titles with those are not modelled.
- `Text.ToUpperAscii` folds ASCII letters only. `OrdinalIgnoreCase` also folds letters beyond ASCII; the vocabulary terms are all ASCII, but a non-ASCII letter in the notes that folds onto an ASCII one is not modelled.
- `JsonHelper.EscapeChar` writes `\u00xx` in lower-case hexadecimal, as the serialiser does. Escape handling other than the default (HTML, non-ASCII) is not used by the code and is not modelled.
- Null strings are not modelled: notes and texts are never null. `response?.Content` and the `summary` and `metadata` of the deserialised response are `Option`s; the title, categories and tags inside `BlogMetadata` are plain values.
- BlogPostPlugin.GenerateBlogPost: a reply whose JSON gives null for the title, the categories or the tags cannot be represented. The source throws there (`Regex.Replace` on a null title at Services/BlogPostService.cs:123, `string.Join` on a null list at Plugins/BlogPostPlugin.cs:54-55); the model has no such failure and saves the post.
- Asynchrony is left out. The async methods are sequential functions and methods, and exceptions become `Failure` results.
- The HTTP endpoints are not part of this model. The blog endpoints pass the notes, or the uploaded file's text, to the pipeline without any check (Endpoints/BlogEndpoints.cs:36 and :93); only `/summarize` rejects blank text (Endpoints/SummarizationEndpoints.cs:17). `ValidationFilter<T>` is attached to no endpoint. The pipeline is modelled for every input, blank notes included.
- The end-to-end example proves the fallback metadata for one sentence only. The general tag properties are the lemmas of `MetadataDefaults`.
