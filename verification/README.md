# AI Mentor Wall — a Dafny model of its logic

The AI Mentor Wall is a Next.js and Supabase app for a hackathon. Teams post
blockers to a shared wall, teammates reply, and an AI mentor answers on
request. The wall follows the `posts` and `replies` tables through realtime
change events. This project models the app's own logic:

- **WallSync** (`wall_sync.dfy`): the wall page.
  - Folding post and reply change events into the wall: upsert or delete by id, then newest-first or oldest-first order.
  - The search filter.
  - The effect that clears an AI placeholder once the real AI reply is on the wall.
  - The page's state and its handlers, as a class `HomeState`.
- **NewPost** (`new_post.dfy`): the new-post form.
  - The blank check and the comma-separated tag parser.
  - `handleSubmit`, as a class `NewPostForm`.
- **Mentor** (`mentor.dfy`): the `POST /api/mentor` route.
  - It is a function of abstract outcomes: is the key configured, the request body, the post lookup, the completion call, the reply insert.
  - Its result is the response, plus what the route looked up, sent to the model and inserted.
- **AuthCallback** (`auth_callback.dfy`): site-URL resolution and the redirect of the auth callback route.
- **Thread** (`thread.dfy`): one post's thread.
  - Reply labels, pluralisation, the empty line, button disabling.
  - `submitReply` and `triggerMentor`, as a class `ThreadState`.
- Support modules:
  - **JsText** (`js_text.dfy`): the JavaScript string operations the code uses (`trim`, `toLowerCase`, `includes`, `split`, `join`), with round-trip lemmas.
  - **Sequences** (`sequences.dfy`): `filter`, a stable sort by an integer key, subsequences.
  - **JsValues** (`js_values.dfy`): optional values, truthiness, thrown errors.
  - **WallTypes** (`wall_types.dfy`): the rows, the change events, and the AI placeholder a thread shows with its text.

Creation times are integers. Ids are strings. A row field that may be absent
is an `Option`. Each awaited call is a parameter that says how the call
ended (`Outcome`, `MentorCall`, `Lookup`, `Completion`, `InsertResult`).

## Model

| member | source | states |
|---|---|---|
| WallSync.FindPost | src/app/page.tsx:271 | a found post is on the wall and has the id, and none is found exactly when no post has the id |
| WallSync.FindPostIsFirst | src/app/page.tsx:99 | a found post is the first post on the wall with that id: no earlier post has it |
| WallSync.ApplyPostChange | src/app/page.tsx:259-268 | a DELETE whose old row has no id, and any other event whose new row has no id, leave the wall unchanged |
| WallSync.PostRemoval | src/app/page.tsx:260-263 | a DELETE with an id gives an order-preserving subsequence holding exactly the posts with a different id, each as often as on the wall |
| WallSync.NewestFirstSort | src/app/page.tsx:282-285 | the post sort orders by descending `created_at` and is a permutation |
| WallSync.PostUpsertReplaces | src/app/page.tsx:270-285 | for an id on the wall: length unchanged, every post with the id becomes the incoming post, every other post kept as often as it was on the wall, existing replies carried over unless the row has its own, newest first |
| WallSync.PostUpsertAdds | src/app/page.tsx:273-285 | for a new id: length + 1, the result is the wall plus the incoming post as a multiset, replies empty unless the row has its own, newest first |
| WallSync.PostChangeKeepsIdsUnique | src/app/page.tsx:259-286 | if post ids were unique before any post event, they are unique after it |
| WallSync.ApplyReplyChange | src/app/page.tsx:288-308 | the number of posts never changes; an event missing the reply id or the post id leaves the wall unchanged |
| WallSync.ReplyRemoval | src/app/page.tsx:289-302 | only posts with the named post id change, and only their replies: those lose exactly the replies with the named id and keep the rest in order, each as often as before |
| WallSync.ReplyUpsert | src/app/page.tsx:310-327 | only the target post changes. Its replies hold the incoming reply and every reply with another id, each as often as before; the one of the same id is replaced. The length grows by one exactly when the id was new, and the replies are oldest first |
| WallSync.UpsertReplySpec | src/app/page.tsx:315-324 | replace-or-append then sort, for one post's replies: the facts `ReplyUpsert` states |
| WallSync.UpsertReply | src/app/page.tsx:315-319 | replace-or-append: the length grows by one exactly when no reply had the id, every reply in the result is the incoming one or was there before, and every reply with another id occurs as often as before |
| WallSync.ReplyForUnknownPost | src/app/page.tsx:312-313 | a reply whose post is not on the wall leaves the wall unchanged |
| WallSync.VisibleWall | src/app/page.tsx:116-125 | never longer than the wall, and shows only posts on the wall |
| WallSync.VisibleWallSpec | src/app/page.tsx:116-125 | a blank search shows the wall itself; otherwise an order-preserving subsequence holding exactly the posts whose lower-cased title, body or a tag contains the trimmed, lower-cased query, each as often as on the wall |
| WallSync.TitleMatchIsShown | src/app/page.tsx:121 | a post whose lower-cased title contains the query is shown |
| WallSync.TogglePost | src/app/page.tsx:127-129 | the toggled id flips between expanded and collapsed; every other key and value is unchanged |
| WallSync.ToggleTwice | src/app/page.tsx:127-129 | toggling twice restores every post's expanded state |
| WallTypes.PlaceholderText | src/components/post-thread.tsx:129-133 | a thinking placeholder shows the thinking line, a ready one its answer |
| WallSync.SettledPlaceholderRepeatsReply | src/components/post-thread.tsx:114-133 | a settled placeholder shows, up to whitespace and letter case, the body of an AI reply already shown on its post |
| WallSync.ClearSettled | src/app/page.tsx:93-113 | keeps every key of the map |
| WallSync.ClearSettledSpec | src/app/page.tsx:93-113 | keys kept; only ready entries change, only to null; a present entry is cleared exactly when ready and its post has an AI reply equal to its text after trim and lower-case; no settled entry remains |
| WallSync.ClearSettledPlaceholders | src/app/page.tsx:93-113 | the loop yields the cleared map, reports a mutation exactly when some entry was settled, and returns the original map when nothing was cleared |
| WallSync.WrapError | src/app/page.tsx:330-332 | always an `Error`, and an `Error` passes through unchanged |
| WallSync.WrapErrorKeepsErrors | src/app/page.tsx:330-332 | an `Error` is passed on as the same error, anything else becomes an `Error` with the fallback message; wrapping twice is wrapping once |
| WallSync.HomeState.constructor | src/app/page.tsx:19-28 | empty wall, search and maps |
| WallSync.HomeState.Visible | src/app/page.tsx:116-125 | a blank search shows the whole wall; otherwise only posts on the wall that match the trimmed, lower-cased search |
| WallSync.HomeState.CommitWall | src/app/page.tsx:93-113 | the wall is replaced, the placeholders are cleared against the new wall, and no settled placeholder is left |
| WallSync.HomeState.ReceivePostChange | src/app/page.tsx:70-72 | the wall becomes the folded wall, the placeholders are cleared against it, nothing else changes, and no settled placeholder is left |
| WallSync.HomeState.ReceiveReplyChange | src/app/page.tsx:81-83 | the same, for a reply event |
| WallSync.HomeState.SetSearch | src/app/page.tsx:28 | the search becomes the typed text |
| WallSync.HomeState.Toggle | src/app/page.tsx:127-129 | the expanded map becomes its toggle |
| WallSync.HomeState.HandleCreatePost | src/app/page.tsx:131-141 | success throws nothing; an `Error` is rethrown as it is, anything else as "Unable to post to the wall" |
| WallSync.HomeState.HandleReply | src/app/page.tsx:143-152 | the post's reply flag ends false; a failure is rethrown wrapped with "Unable to add reply" |
| WallSync.HomeState.BeginAskAI | src/app/page.tsx:154-159 | the post is busy and shows a thinking placeholder |
| WallSync.HomeState.FinishAskAI | src/app/page.tsx:161-183 | success makes the placeholder ready with the reply text and clears settled placeholders. A non-OK answer or a thrown call sets it to null and rethrows with the route's error or "Mentor request failed". The busy flag ends false |
| WallSync.NoPlaceholderRepeatsReply | src/app/page.tsx:93-113 | while no settled placeholder is left, no ready placeholder shows the text of an AI reply on its post |
| WallSync.EchoBeforeAnswerLeavesPlaceholder | src/app/page.tsx:93-114 | the realtime AI reply arrives before the route's answer; the ready placeholder is then settled but stays on screen, showing the same text as the AI reply on the wall, since the effect runs only on wall changes |
| NewPost.TrimAll | src/components/new-post-form.tsx:36 | each piece is trimmed, the count is kept |
| NewPost.ParseTags | src/components/new-post-form.tsx:34-37 | at most commas + 1 tags, none empty |
| NewPost.ParseTagsSpec | src/components/new-post-form.tsx:34-37 | the tags are the trimmed comma-separated pieces in order with empty ones dropped and every other one kept as often as it occurs; each is non-empty, trimmed and comma-free; at most commas + 1 of them |
| NewPost.ParseJoinedTags | src/components/new-post-form.tsx:34-37 | tags joined with ", " parse back to the same tags |
| NewPost.CreateInputWellFormed | src/components/new-post-form.tsx:40-44 | `onCreate` receives a non-empty trimmed title and body and well-formed tags |
| NewPost.NewPostForm.constructor | src/components/new-post-form.tsx:17-19 | empty fields, not submitting, no error |
| NewPost.NewPostForm.SubmitDisabled | src/components/new-post-form.tsx:81 | disabled whenever a submission is in flight, enabled when neither submitting nor disabled by the page |
| NewPost.NewPostForm.HandleSubmit | src/components/new-post-form.tsx:25-53 | a blank title or body only sets "Title and body are required." and nothing is sent. Otherwise the trimmed title and body and the parsed tags are sent. The form is emptied on success; on failure it is kept and the error becomes the thrown message or "Something went wrong". Not submitting afterwards |
| Mentor.Details | src/app/api/mentor/route.ts:55-65 | without a prompt, the details begin with the title line, a line break and the body line |
| Mentor.HandleMentor | src/app/api/mentor/route.ts:22-125 | status is 200, 400, 404 or 500, and 200 exactly with a reply body. An inserted reply is AI, non-empty and trimmed, for the looked-up post, after a message ending with the mentor suffix. A reply body means the insert succeeded and holds the returned text |
| Mentor.NoKeyIsRefused | src/app/api/mentor/route.ts:23-28 | without a key: 500 "OPENAI_API_KEY is not configured." and no lookup, request or insert |
| Mentor.MissingPostIdIsRejected | src/app/api/mentor/route.ts:35-40 | a missing or empty postId: 400 "postId is required." before any lookup |
| Mentor.LookupFailureIsNotFound | src/app/api/mentor/route.ts:48-53 | a lookup error or no row: 404 with its message or "Post not found.", nothing sent to the model |
| Mentor.UpstreamFailuresAre500 | src/app/api/mentor/route.ts:30-124 | a body whose parse throws gives 500 with the error's message or "Unexpected server error." and no lookup; a thrown completion call gives 500 with its message or the fallback; a non-OK answer gives 500 with the API's message or "OpenAI request failed."; nothing is inserted in any of them |
| Mentor.MessageCarriesDetails | src/app/api/mentor/route.ts:55-81 | the user message is the details plus "\n\nRespond as the mentor."; a supplied prompt, even "", is the details verbatim |
| Mentor.DetailsText | src/app/api/mentor/route.ts:55-65 | without a prompt, for every post: exactly the title line, a line break and the body line, then a line break and the tags joined with ", " when there are tags, and nothing else |
| Mentor.DetailsLines | src/app/api/mentor/route.ts:57-65 | only for a post whose title, body and tags hold no line break: without a prompt, the details split at line breaks into the title line, the body line and a tags line only when there are tags |
| Mentor.JoinKeepsOut | src/app/api/mentor/route.ts:61 | joining pieces that lack a character, with a separator that lacks it, gives a string without it |
| Mentor.EmptyCompletionIsRefused | src/app/api/mentor/route.ts:96-104 | a missing or blank completion: 500 "OpenAI returned an empty response.", nothing inserted |
| Mentor.CompletionIsInserted | src/app/api/mentor/route.ts:106-119 | a non-blank completion inserts exactly one AI reply with the trimmed text; 200 with that text, or 500 with the insert error |
| AuthCallback.ResolveSiteUrl | src/app/auth/callback/route.ts:3-14 | a configured URL with an http(s) scheme in any case is kept; another non-empty one gets "https://"; unset or empty falls back to protocol + "//" + host |
| AuthCallback.ConfiguredHasScheme | src/app/auth/callback/route.ts:4-11 | whenever a URL is configured, the result has an http(s) scheme |
| AuthCallback.ResolveIdempotent | src/app/auth/callback/route.ts:3-14 | resolving the resolved URL again gives it back |
| AuthCallback.CallbackRedirect | src/app/auth/callback/route.ts:16-19 | the redirect target is "/" on the resolved base, which has an http(s) scheme whenever one is configured, and is the request's origin otherwise |
| Thread.IsAuthor | src/components/post-thread.tsx:198 | strict equality: nothing equals an undefined reader id, and a present author matches only the reader with that same id |
| Thread.AuthorLabel | src/components/post-thread.tsx:196-200 | "AI Mentor" exactly for AI replies; "You" exactly for a human reply whose author strictly equals the current user id; "Teammate" otherwise |
| Thread.SignedOutSeesNoOwnReplies | src/components/post-thread.tsx:196-200 | with an undefined user id, a null author (or any author) is never "You" |
| Thread.OwnRepliesAreTheReaders | src/components/post-thread.tsx:196-200 | for a signed-in reader, "You" exactly for human replies by that id; never for a null author |
| Thread.ReplyNoun | src/components/post-thread.tsx:90 | "reply" exactly for one reply, "replies" otherwise |
| Thread.NoRepliesLineAgreesWithCount | src/components/post-thread.tsx:136 | "No replies yet." shows only with no replies and no placeholder, when the count reads "replies" |
| Thread.TrimmedInput | src/components/post-thread.tsx:45-64 | nothing is passed on exactly for blank text (no reply; an `undefined` prompt); otherwise the trimmed text, non-empty and trimmed |
| Thread.EnabledReplyIsSent | src/components/post-thread.tsx:161 | an enabled Reply button (not busy, draft not blank) always sends a reply |
| Thread.ThreadPromptReachesMentor | src/components/post-thread.tsx:64 | a blank thread prompt makes the route describe the post; any other reaches it trimmed as the whole description; the description is never empty |
| Thread.ThreadState.constructor | src/components/post-thread.tsx:37-40 | empty draft and prompt, no errors |
| Thread.ThreadState.SubmitReply | src/components/post-thread.tsx:44-59 | a blank draft sets "Reply cannot be empty." and sends nothing. Otherwise the trimmed draft is sent; it is cleared on success; on failure it is kept and the error is the thrown message or "Failed to add reply". The mentor fields are untouched |
| Thread.ThreadState.TriggerMentor | src/components/post-thread.tsx:61-73 | the trimmed prompt, or none if blank, is sent. Success clears the AI error, and clears the prompt only if it was non-blank. Failure shows the thrown message or "Mentor request failed" and keeps the prompt. The reply fields are untouched |
| JsText.TrimSpec | src/components/new-post-form.tsx:26 | `trim` yields a trimmed string that is the input minus whitespace-only ends |
| JsText.BlankIffAllSpace | src/components/new-post-form.tsx:26 | a string trims to empty exactly when it is all whitespace |
| JsText.TrimIdempotent | src/components/post-thread.tsx:45 | trimming twice is trimming once |
| JsText.LowerSpec | src/app/page.tsx:118 | the ASCII `Lower` that models `toLowerCase` keeps the length and maps each character on its own |
| JsText.LowerIdempotent | src/app/page.tsx:104-105 | lower-casing twice is lower-casing once |
| JsText.Split | src/components/new-post-form.tsx:35 | `split` gives commas + 1 pieces, none holding the separator |
| JsText.JoinSplit | src/components/new-post-form.tsx:35 | joining the pieces of a split with the separator restores the string |
| JsText.SplitJoin | src/app/api/mentor/route.ts:65 | splitting a join of separator-free pieces gives the pieces back |
| Sequences.Filter | src/app/page.tsx:119 | `filter` gives a subsequence holding exactly the elements that pass |
| Sequences.SortBySpec | src/app/page.tsx:282-285 | the sort is ascending by its key and a permutation |
| Sequences.SortByKeepsDistinct | src/app/page.tsx:282 | sorting keeps ids distinct |

## Left out

- Supabase and OpenAI calls, `fetch`, and `request.json()` are parameters that describe how each call ended. Their effects appear as the `Handling` record of the mentor route, not as real I/O.
- The realtime channel subscription and teardown, the session effect and `loadWall`/`fetchWall` are left out. The wall starts empty, and each change event is handed to `ReceivePostChange`/`ReceiveReplyChange`.
- Async timing and React rendering are left out. Each handler runs to completion with the outcome of its awaited call given. `handleAskAI` is split into `BeginAskAI` (before the `fetch`) and `FinishAskAI` (after it). Other events may fall between the two, as they can in the app.
- `WallSync.HomeState.FinishAskAI`: it runs the clearing effect right after marking the placeholder ready. The page as written does not; see Findings.
- `JsText.Lower`: only ASCII letters are lower-cased. Full Unicode case mapping is not modelled, and neither are strings as UTF-16 code units.
- Timestamps are integers. `new Date(...).getTime()`, invalid dates and the NaN comparator are not modelled.
- `Sequences.SortBy`: it is insertion into a sorted list, built on values. The in-place `sort` of a freshly built array is not modelled as an in-place update. The sort is stable, but no lemma states stability.
- Change events carry whole rows apart from the optional ids. Partial rows, where other fields may be missing, are not modelled.
- `Mentor.HandleMentor`: URL parsing, the system prompt, the model parameters and the JSON encoding of the request and response are left out. `Unparsable` stands for a body whose parse throws and for a JSON `null` body, on which reading `postId` throws; both reach the `catch`. Any other JSON value that is not an object has no `postId` and is `Parsed(None, None)`, a 400. A `postId` or `prompt` that is present but not a string is not modelled.
- `AuthCallback.CallbackRedirect`: the redirect is modelled as the pair (base, "/"). `new URL` resolution is not modelled: it drops any path on the base, and it throws on a base it cannot parse (a configured `https://` alone, or `my site.com` with a space), in which case `GET` fails instead of redirecting. The model does not say which bases parse.
- Number rendering in the reply count, relative times (`src/lib/time.ts`), button captions and markup are left out.
- The `answer` route, the debug pages, the auth panel and its callback page, the seed and admin scripts, and the Supabase client wrappers are not part of this model.

## Findings

| source | as written | input that shows it | evidently intended | confidence | as-written member | corrected member |
|---|---|---|---|---|---|---|
| src/app/page.tsx:93-114 | the effect that clears a settled AI placeholder depends only on `wall`, so it does not run when `handleAskAI` marks the placeholder ready | the realtime insert of the AI reply reaches the wall while the placeholder is still thinking, then `/api/mentor` answers with the same text: the ready placeholder now duplicates a reply on the wall and stays until some later wall change | a ready placeholder whose AI reply is already on the wall is cleared at once | medium, not executed | WallSync.EchoBeforeAnswerLeavesPlaceholder | WallSync.HomeState.FinishAskAI |
