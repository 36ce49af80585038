/**
  The `POST /api/mentor` handler as a function of what its calls return:
  whether the API key is configured, the parsed request body, the post
  lookup, the completion call and the reply insert. It yields the HTTP
  response together with what the handler asked of the outside world: the
  post id it looked up, the user message it sent and the reply it inserted.
 */
module Mentor {
  import opened JsValues
  import opened JsText

  const MissingKeyMessage := "OPENAI_API_KEY is not configured."
  const MissingPostIdMessage := "postId is required."
  const PostNotFoundMessage := "Post not found."
  const RequestFailedMessage := "OpenAI request failed."
  const EmptyResponseMessage := "OpenAI returned an empty response."
  const UnexpectedMessage := "Unexpected server error."
  const MentorSuffix := "\n\nRespond as the mentor."

  /** The request body as the handler reads it: the `postId` and `prompt`
      fields (a JSON value that is not an object has neither), or what was
      thrown, when `request.json()` throws or the body is JSON `null` and
      reading `body.postId` throws. */
  datatype RequestBody =
    | Parsed(postId: Option<string>, prompt: Option<string>)
    | Unparsable(thrown: Thrown)

  /** The selected columns of the post. */
  datatype PostRecord = PostRecord(title: string, body: string, tags: Option<seq<string>>)

  /** The `posts` lookup by id: a row, an error, or no row. */
  datatype Lookup = Found(post: PostRecord) | LookupFailed(message: string) | NoRow

  /** The completion call: it threw, answered with a non-OK status (with the
      API's error message if its body had one), or answered with the first
      choice's message content if there was one. */
  datatype Completion =
    | CompletionThrew(thrown: Thrown)
    | Rejected(apiMessage: Option<string>)
    | Completed(content: Option<string>)

  /** The `replies` insert. */
  datatype InsertResult = InsertOk | InsertFailed(message: string)

  datatype ResponseBody = ErrorBody(error: string) | ReplyBody(replyText: string)

  /** `NextResponse.json(body, { status })`; the default status is 200. */
  datatype Response = Response(status: int, body: ResponseBody)

  /** The row the handler inserts into `replies`. */
  datatype NewReply = NewReply(postId: string, body: string, isAi: bool)

  /** The response and the handler's requests to the outside world, in the
      order it makes them. */
  datatype Handling = Handling(
    response: Response,
    lookedUp: Option<string>,
    userMessage: Option<string>,
    inserted: Option<NewReply>)

  /** `details`: the caller's prompt verbatim when there is one (even `""`),
      otherwise the post's title, body and, if it has any, its tags as lines. */
  function Details(prompt: Option<string>, post: PostRecord): (details: string)
    ensures prompt.None? ==> StartsWith(details, "Title: " + post.title + "\n" + "Body: " + post.body)
  {
    if prompt.Some? then prompt.value
    else
      var tagLine := if post.tags.Some? && |post.tags.value| > 0
                     then ["Tags: " + Join(post.tags.value, ", ")] else [];
      var lines := ["Title: " + post.title, "Body: " + post.body] + tagLine;
      assert StartsWith(Join(lines, "\n"), lines[0] + "\n" + lines[1]) by {
        assert lines[1..] == ["Body: " + post.body] + tagLine;
        JoinStartsWithFirst(lines[1..], "\n");
        var rest := Join(lines[1..], "\n");
        assert Join(lines, "\n") == lines[0] + "\n" + rest;
        assert (lines[0] + "\n" + rest)[..|lines[0] + "\n" + lines[1]|] == lines[0] + "\n" + rest[..|lines[1]|];
      }
      Join(lines, "\n")
  }

  /** A join begins with its first piece. */
  lemma JoinStartsWithFirst(parts: seq<string>, sep: string)
    requires parts != []
    ensures StartsWith(Join(parts, sep), parts[0])
  {
    if |parts| > 1 {
      assert (parts[0] + sep + Join(parts[1..], sep))[..|parts[0]|] == parts[0];
    }
  }

  /** The user message sent with the system prompt. */
  function UserMessage(details: string): string {
    details + MentorSuffix
  }

  function Fail(status: int, message: string, lookedUp: Option<string>, userMessage: Option<string>): Handling {
    Handling(Response(status, ErrorBody(message)), lookedUp, userMessage, None)
  }

  /** The `POST` handler. Without an API key it answers 500 before reading
      anything. A body that fails to parse, or a completion call that throws,
      lands in the `catch`: 500 with the error's message. A reply is inserted
      only for a non-empty trimmed completion, and the response carries the
      inserted text exactly when it is a 200. */
  function HandleMentor(keyConfigured: bool, request: RequestBody, lookup: Lookup,
                        completion: Completion, insert: InsertResult): (h: Handling)
    ensures h.response.status in {200, 400, 404, 500}
    ensures h.response.status == 200 <==> h.response.body.ReplyBody?
    ensures h.inserted.Some? ==>
      && h.lookedUp == Some(h.inserted.value.postId)
      && h.userMessage.Some? && EndsWith(h.userMessage.value, MentorSuffix)
      && h.inserted.value.isAi
      && h.inserted.value.body != [] && IsTrimmed(h.inserted.value.body)
    ensures h.response.body.ReplyBody? ==>
      && insert.InsertOk? && h.lookedUp.Some?
      && h.inserted == Some(NewReply(h.lookedUp.value, h.response.body.replyText, true))
    ensures h.lookedUp.Some? ==> h.lookedUp.value != []
  {
    if !keyConfigured then Fail(500, MissingKeyMessage, None, None)
    else if request.Unparsable? then Fail(500, MessageOr(request.thrown, UnexpectedMessage), None, None)
    else if !Truthy(request.postId) then Fail(400, MissingPostIdMessage, None, None)
    else
      var postId := request.postId.value;
      match lookup
      case LookupFailed(message) => Fail(404, message, Some(postId), None)
      case NoRow => Fail(404, PostNotFoundMessage, Some(postId), None)
      case Found(post) =>
        var message := UserMessage(Details(request.prompt, post));
        assert EndsWith(message, MentorSuffix);
        match completion
        case CompletionThrew(thrown) => Fail(500, MessageOr(thrown, UnexpectedMessage), Some(postId), Some(message))
        case Rejected(apiMessage) =>
          Fail(500, if apiMessage.Some? then apiMessage.value else RequestFailedMessage, Some(postId), Some(message))
        case Completed(content) =>
          if content.None? || IsBlank(content.value) then
            Fail(500, EmptyResponseMessage, Some(postId), Some(message))
          else
            var replyText := Trim(content.value);
            TrimSpec(content.value);
            var reply := NewReply(postId, replyText, true);
            match insert
            case InsertFailed(m) => Handling(Response(500, ErrorBody(m)), Some(postId), Some(message), Some(reply))
            case InsertOk => Handling(Response(200, ReplyBody(replyText)), Some(postId), Some(message), Some(reply))
  }

  predicate EndsWith(s: string, suffix: string) {
    |suffix| <= |s| && s[|s| - |suffix|..] == suffix
  }

  /** Without an API key the handler answers 500 and does nothing else. */
  lemma NoKeyIsRefused(request: RequestBody, lookup: Lookup, completion: Completion, insert: InsertResult)
    ensures HandleMentor(false, request, lookup, completion, insert)
      == Handling(Response(500, ErrorBody(MissingKeyMessage)), None, None, None)
  {
  }

  /** A missing or empty `postId` is a 400, before any lookup. */
  lemma MissingPostIdIsRejected(postId: Option<string>, prompt: Option<string>, lookup: Lookup,
                                completion: Completion, insert: InsertResult)
    requires !Truthy(postId)
    ensures HandleMentor(true, Parsed(postId, prompt), lookup, completion, insert)
      == Handling(Response(400, ErrorBody(MissingPostIdMessage)), None, None, None)
  {
  }

  /** A failed lookup or a missing row is a 404 with the lookup's message or
      the not-found message, and nothing is sent to the model. */
  lemma LookupFailureIsNotFound(postId: string, prompt: Option<string>, lookup: Lookup,
                                completion: Completion, insert: InsertResult)
    requires postId != [] && !lookup.Found?
    ensures var h := HandleMentor(true, Parsed(Some(postId), prompt), lookup, completion, insert);
      && h.response.status == 404
      && h.response.body == ErrorBody(if lookup.LookupFailed? then lookup.message else PostNotFoundMessage)
      && h.lookedUp == Some(postId) && h.userMessage == None && h.inserted == None
  {
  }

  /** With a found post the model is sent the details and the mentor suffix:
      the caller's prompt verbatim if there is one. */
  lemma MessageCarriesDetails(postId: string, prompt: Option<string>, post: PostRecord,
                              completion: Completion, insert: InsertResult)
    requires postId != []
    ensures var h := HandleMentor(true, Parsed(Some(postId), prompt), Found(post), completion, insert);
      && h.userMessage == Some(Details(prompt, post) + MentorSuffix)
      && (prompt.Some? ==> h.userMessage == Some(prompt.value + MentorSuffix))
  {
  }

  /** The failures of the outside calls are all 500s and insert nothing. A
      body whose parse throws lands in the `catch` before any lookup, with
      the error's message or the fallback; so does a completion call that
      throws, after the lookup and the request; a non-OK completion answer
      carries the API's message or "OpenAI request failed.". */
  lemma UpstreamFailuresAre500(thrown: Thrown, postId: string, prompt: Option<string>, post: PostRecord,
                               lookup: Lookup, completion: Completion, apiMessage: Option<string>,
                               insert: InsertResult)
    ensures var h := HandleMentor(true, Unparsable(thrown), lookup, completion, insert);
      && h.response == Response(500, ErrorBody(MessageOr(thrown, UnexpectedMessage)))
      && h.lookedUp == None && h.userMessage == None && h.inserted == None
      && (thrown.ErrorObject? ==> h.response.body.error == thrown.message)
      && (thrown.OtherThrown? ==> h.response.body.error == UnexpectedMessage)
    ensures postId != [] ==>
      var h := HandleMentor(true, Parsed(Some(postId), prompt), Found(post), CompletionThrew(thrown), insert);
      && h.response == Response(500, ErrorBody(MessageOr(thrown, UnexpectedMessage)))
      && h.lookedUp == Some(postId) && h.userMessage.Some? && h.inserted == None
    ensures postId != [] ==>
      var h := HandleMentor(true, Parsed(Some(postId), prompt), Found(post), Rejected(apiMessage), insert);
      && h.response == Response(500, ErrorBody(if apiMessage.Some? then apiMessage.value else RequestFailedMessage))
      && h.lookedUp == Some(postId) && h.userMessage.Some? && h.inserted == None
  {
  }

  /** Without a prompt the details are exactly the title line, a line break
      and the body line, followed by a line break and the tags line when the
      post has tags, and by nothing else. */
  lemma DetailsText(post: PostRecord)
    ensures var hasTags := post.tags.Some? && |post.tags.value| > 0;
      Details(None, post) ==
        "Title: " + post.title + "\n" + "Body: " + post.body
        + (if hasTags then "\n" + "Tags: " + Join(post.tags.value, ", ") else "")
  {
    var hasTags := post.tags.Some? && |post.tags.value| > 0;
    var tagLine := if hasTags then ["Tags: " + Join(post.tags.value, ", ")] else [];
    var lines := ["Title: " + post.title, "Body: " + post.body] + tagLine;
    assert Join(lines, "\n") == lines[0] + "\n" + Join(lines[1..], "\n");
    if hasTags {
      assert lines[1..] == [lines[1], lines[2]];
      assert Join(lines[1..], "\n") == lines[1] + "\n" + lines[2];
    } else {
      assert lines[1..] == [lines[1]];
    }
  }

  /** Without a prompt, and when title, body and tags hold no line break, the
      details split into exactly a title line, a body line and, only when
      there are tags, a tags line. */
  lemma DetailsLines(post: PostRecord)
    requires '\n' !in post.title && '\n' !in post.body
    requires post.tags.Some? ==> forall t :: t in post.tags.value ==> '\n' !in t
    ensures var tagLine := if post.tags.Some? && |post.tags.value| > 0
                           then ["Tags: " + Join(post.tags.value, ", ")] else [];
      Split(Details(None, post), '\n') == ["Title: " + post.title, "Body: " + post.body] + tagLine
  {
    var tagLine := if post.tags.Some? && |post.tags.value| > 0
                   then ["Tags: " + Join(post.tags.value, ", ")] else [];
    var lines := ["Title: " + post.title, "Body: " + post.body] + tagLine;
    if tagLine != [] {
      JoinKeepsOut(post.tags.value, ", ", '\n');
    }
    forall k | 0 <= k < |lines| ensures '\n' !in lines[k] {
    }
    SplitJoin(lines, '\n');
  }

  /** Joining pieces and a separator that all lack a character gives a
      string without it. */
  lemma {:induction false} JoinKeepsOut(parts: seq<string>, sep: string, c: char)
    requires c !in sep
    requires forall t :: t in parts ==> c !in t
    ensures c !in Join(parts, sep)
  {
    if |parts| > 1 {
      JoinKeepsOut(parts[1..], sep, c);
      assert parts[0] in parts;
    }
  }

  /** An empty or whitespace-only completion, or none, is a 500 and no reply
      is inserted. */
  lemma EmptyCompletionIsRefused(postId: string, prompt: Option<string>, post: PostRecord,
                                 content: Option<string>, insert: InsertResult)
    requires postId != [] && (content.None? || IsBlank(content.value))
    ensures var h := HandleMentor(true, Parsed(Some(postId), prompt), Found(post), Completed(content), insert);
      h.response == Response(500, ErrorBody(EmptyResponseMessage)) && h.inserted == None
  {
  }

  /** A non-empty completion inserts exactly one AI reply holding the trimmed
      text; the response is that text if the insert succeeds and a 500 with
      the insert's message otherwise. */
  lemma CompletionIsInserted(postId: string, prompt: Option<string>, post: PostRecord,
                             content: string, insert: InsertResult)
    requires postId != [] && !IsBlank(content)
    ensures var h := HandleMentor(true, Parsed(Some(postId), prompt), Found(post), Completed(Some(content)), insert);
      && h.inserted == Some(NewReply(postId, Trim(content), true))
      && (insert.InsertOk? ==> h.response == Response(200, ReplyBody(Trim(content))))
      && (insert.InsertFailed? ==> h.response == Response(500, ErrorBody(insert.message)))
  {
  }
}
