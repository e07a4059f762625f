/** BlogPostPlugin: renders a generated post as Markdown with Jekyll front
    matter and saves it under the post's filename.  The front-matter date is
    the caller's "yyyy-MM-dd HH:mm:ss zzz" text; the directory the files go to
    is an OutputDirectory object. */
module BlogPostPlugin {
  import opened Wrappers
  import opened Text
  import opened BlogRecords
  import BlogPostService

  /** The header lines, each followed by '\n', then one blank line. */
  function FrontMatter(title: string, date: string, categories: string, tags: string): string {
    "---\n"
    + "layout: post\n"
    + "title:  \"" + title + "\"\n"
    + "date:   " + date + "\n"
    + "categories: " + categories + "\n"
    + "tags: " + tags + "\n"
    + "---\n"
    + "\n"
  }

  /** CreateMarkdownContent: the front matter, with categories and tags joined
      by single spaces, followed by the content unchanged. */
  function CreateMarkdownContent(post: BlogPostResult, date: string): (r: string)
    ensures var header := FrontMatter(post.metadata.title, date,
                                      Join(post.metadata.categories, ' '), Join(post.metadata.tags, ' '));
            |header| <= |r| && r[..|header|] == header && r[|header|..] == post.content
  {
    var categories := Join(post.metadata.categories, ' ');
    var tags := Join(post.metadata.tags, ' ');
    FrontMatter(post.metadata.title, date, categories, tags) + post.content
  }

  /** The lines of the Markdown: the seven header lines in their fixed order,
      the blank line, then the lines of the content.  The title stands between
      the quotes exactly as given. */
  lemma MarkdownLines(post: BlogPostResult, date: string)
    requires '\n' !in post.metadata.title && '\n' !in date
    requires forall k :: 0 <= k < |post.metadata.categories| ==> '\n' !in post.metadata.categories[k]
    requires forall k :: 0 <= k < |post.metadata.tags| ==> '\n' !in post.metadata.tags[k]
    ensures Split(CreateMarkdownContent(post, date), '\n')
            == ["---",
                "layout: post",
                "title:  \"" + post.metadata.title + "\"",
                "date:   " + date,
                "categories: " + Join(post.metadata.categories, ' '),
                "tags: " + Join(post.metadata.tags, ' '),
                "---",
                ""] + Split(post.content, '\n')
  {
    JoinChars(post.metadata.categories, ' ', '\n');
    JoinChars(post.metadata.tags, ' ', '\n');
    FrontMatterLines(post.metadata.title, date, Join(post.metadata.categories, ' '),
                     Join(post.metadata.tags, ' '), post.content);
  }

  lemma FrontMatterLines(title: string, date: string, categories: string, tags: string, content: string)
    requires '\n' !in title && '\n' !in date && '\n' !in categories && '\n' !in tags
    ensures Split(FrontMatter(title, date, categories, tags) + content, '\n')
            == ["---", "layout: post", "title:  \"" + title + "\"", "date:   " + date,
                "categories: " + categories, "tags: " + tags, "---", ""] + Split(content, '\n')
  {
    var nl := ['\n'];
    var l2 := "title:  \"" + title + "\"";
    var l3 := "date:   " + date;
    var l4 := "categories: " + categories;
    var l5 := "tags: " + tags;
    assert FrontMatter(title, date, categories, tags) + content
           == "---" + nl + ("layout: post" + nl + (l2 + nl + (l3 + nl + (l4 + nl + (l5 + nl
              + ("---" + nl + ("" + nl + content)))))));
    SplitEightLines("---", "layout: post", l2, l3, l4, l5, "---", "", content);
  }

  /** Eight lines without '\n', each followed by one, split back into themselves. */
  lemma SplitEightLines(l0: string, l1: string, l2: string, l3: string, l4: string, l5: string,
                        l6: string, l7: string, rest: string)
    requires '\n' !in l0 && '\n' !in l1 && '\n' !in l2 && '\n' !in l3
    requires '\n' !in l4 && '\n' !in l5 && '\n' !in l6 && '\n' !in l7
    ensures var nl := ['\n'];
            Split(l0 + nl + (l1 + nl + (l2 + nl + (l3 + nl + (l4 + nl + (l5 + nl
                  + (l6 + nl + (l7 + nl + rest))))))), '\n')
            == [l0, l1, l2, l3, l4, l5, l6, l7] + Split(rest, '\n')
  {
    var nl := ['\n'];
    SplitFourLines(l4, l5, l6, l7, rest);
    SplitFourLines(l0, l1, l2, l3, l4 + nl + (l5 + nl + (l6 + nl + (l7 + nl + rest))));
  }

  /** Four lines without '\n', each followed by one, split back into themselves. */
  lemma SplitFourLines(l0: string, l1: string, l2: string, l3: string, rest: string)
    requires '\n' !in l0 && '\n' !in l1 && '\n' !in l2 && '\n' !in l3
    ensures var nl := ['\n'];
            Split(l0 + nl + (l1 + nl + (l2 + nl + (l3 + nl + rest))), '\n')
            == [l0, l1, l2, l3] + Split(rest, '\n')
  {
    var nl := ['\n'];
    SplitTwoLines(l2, l3, rest);
    SplitTwoLines(l0, l1, l2 + nl + (l3 + nl + rest));
  }

  /** Two lines without '\n', each followed by one, split back into themselves. */
  lemma SplitTwoLines(l0: string, l1: string, rest: string)
    requires '\n' !in l0 && '\n' !in l1
    ensures var nl := ['\n'];
            Split(l0 + nl + (l1 + nl + rest), '\n') == [l0, l1] + Split(rest, '\n')
  {
    SplitAfter(l1, '\n', rest);
    SplitAfter(l0, '\n', l1 + ['\n'] + rest);
  }

  /** With categories and tags free of spaces, a non-empty list can be read
      back from its header line; an empty list reads back as one empty item. */
  lemma FrontMatterListsRecoverable(xs: seq<string>)
    requires forall k :: 0 <= k < |xs| ==> ' ' !in xs[k]
    ensures xs != [] ==> Split(Join(xs, ' '), ' ') == xs
    ensures xs == [] ==> Split(Join(xs, ' '), ' ') == [""]
  {
    if xs != [] {
      SplitJoin(xs, ' ');
    }
  }

  /** An empty list leaves nothing after its key. */
  lemma EmptyListLine(post: BlogPostResult, date: string)
    requires post.metadata.categories == [] && post.metadata.tags == []
    ensures CreateMarkdownContent(post, date)
            == FrontMatter(post.metadata.title, date, "", "") + post.content
  {
  }

  /** A post titled "Hello" in categories A and B with tag x renders as the
      header with "A B" and "x" on their lines, then its content. */
  lemma HelloExample(summary: string, filename: string, date: string)
    ensures CreateMarkdownContent(
              BlogPostResult(BlogMetadata("Hello", ["A", "B"], ["x"]), summary, "Body.", filename), date)
            == FrontMatter("Hello", date, "A B", "x") + "Body."
  {
    var xs := ["A", "B"];
    assert xs[1..] == ["B"];
    assert Join(xs, ' ') == "A" + [' '] + "B";
  }

  /** The directory the generated posts are written to: file name to file text. */
  class OutputDirectory {
    var files: map<string, string>

    constructor ()
      ensures files == map[]
    {
      files := map[];
    }

    /** File.WriteAllText: creates the file or replaces its text. */
    method Save(filename: string, text: string)
      modifies this
      ensures files == old(files)[filename := text]
    {
      files := files[filename := text];
    }
  }

  /** GenerateBlogPost: generates the post, renders it, saves the Markdown
      under the post's filename and returns exactly what it saved.  A failure
      of the service is passed on and nothing is saved. */
  method GenerateBlogPost(notes: string, fileDate: string, date: string,
                          complete: string -> Completion, deserialize: string -> Deserialized,
                          dir: OutputDirectory)
    returns (r: Result<string>, ghost post: BlogPostResult)
    modifies dir
    ensures r.Success? ==> BlogPostService.IsBlogPost(notes, fileDate, complete, deserialize, Success(post))
                           && r.value == CreateMarkdownContent(post, date)
                           && dir.files == old(dir.files)[post.filename := r.value]
    ensures r.Failure? ==> BlogPostService.IsBlogPost(notes, fileDate, complete, deserialize, Failure(r.error))
                           && dir.files == old(dir.files)
  {
    var result := BlogPostService.GenerateBlogPostAsync(notes, fileDate, complete, deserialize);
    post := BlogPostResult(BlogMetadata("", [], []), "", "", "");
    if result.Failure? {
      return Failure(result.error), post;
    }
    post := result.value;
    var markdown := CreateMarkdownContent(result.value, date);
    dir.Save(result.value.filename, markdown);
    r := Success(markdown);
  }

  /** What is saved is what is returned, under the filename of the one post
      the service produces. */
  lemma SavedIsReturned(notes: string, fileDate: string, date: string,
                        complete: string -> Completion, deserialize: string -> Deserialized,
                        post1: BlogPostResult, post2: BlogPostResult)
    requires BlogPostService.IsBlogPost(notes, fileDate, complete, deserialize, Success(post1))
    requires BlogPostService.IsBlogPost(notes, fileDate, complete, deserialize, Success(post2))
    ensures CreateMarkdownContent(post1, date) == CreateMarkdownContent(post2, date)
    ensures post1.filename == post2.filename
  {
    BlogPostService.BlogPostDeterministic(notes, fileDate, complete, deserialize, Success(post1), Success(post2));
  }
}
