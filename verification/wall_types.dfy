/**
  The rows of the `posts` and `replies` tables and the wall entry that
  carries a post with its replies, with creation times as integers. A
  realtime change event carries a partial row as `old` (here `oldRow`) and
  as `new` (here `newRow`); `PostRow` and `ReplyRow` keep the fields the
  wall code tests as optional. The AI placeholder a thread shows, which the
  page keeps one of per post, is here too.
 */
module WallTypes {
  import opened JsValues

  datatype Reply = Reply(
    id: string,
    postId: string,
    author: Option<string>,
    body: string,
    isAi: bool,
    createdAt: int)

  /** A post as the wall holds it, with its replies. */
  datatype Post = Post(
    id: string,
    author: Option<string>,
    title: string,
    body: string,
    tags: Option<seq<string>>,
    createdAt: int,
    replies: seq<Reply>)

  /** A `posts` row as a change event carries it; `replies` is present only
      if the row itself has such a field. */
  datatype PostRow = PostRow(
    id: Option<string>,
    author: Option<string>,
    title: string,
    body: string,
    tags: Option<seq<string>>,
    createdAt: int,
    replies: Option<seq<Reply>>)

  /** A `replies` row as a change event carries it. */
  datatype ReplyRow = ReplyRow(
    id: Option<string>,
    postId: Option<string>,
    author: Option<string>,
    body: string,
    isAi: bool,
    createdAt: int)

  datatype EventType = Insert | Update | Delete

  /** A realtime `postgres_changes` payload. */
  datatype Change<Row> = Change(eventType: EventType, oldRow: Option<Row>, newRow: Option<Row>)

  /** The status of a thread's AI placeholder, shared by the thread and the
      page that keeps one per post. */
  datatype OptimisticStatus = Thinking | Ready

  /** The placeholder a post shows while its AI reply is on the way. */
  datatype OptimisticReply = OptimisticReply(status: OptimisticStatus, text: string)

  /** The text the placeholder bubble shows: a fixed line while thinking,
      the answer once ready. */
  function PlaceholderText(o: OptimisticReply): (text: string)
    ensures o.status.Ready? ==> text == o.text
    ensures o.status.Thinking? ==> text == ThinkingText
  {
    if o.status.Thinking? then ThinkingText else o.text
  }

  const ThinkingText := "Thinking through the best answer…"
}
