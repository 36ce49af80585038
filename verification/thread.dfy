/**
  One post's thread: the label on each reply, the reply count's noun, the
  "No replies yet." line, the reply button's disabling, and the two handlers
  that send a reply and ask the mentor, with the local state they update.
 */
module Thread {
  import opened JsValues
  import opened JsText
  import opened WallTypes
  import opened WallSync
  import Mentor

  /** `currentUserId`, which may be absent, `null` or a user id. */
  datatype UserId = Undefined | Null | Id(value: string)

  /** `reply.author === currentUserId` with a nullable author: `null` only
      equals `null`, and nothing equals `undefined`. */
  predicate IsAuthor(author: Option<string>, current: UserId)
    ensures current.Undefined? ==> !IsAuthor(author, current)
    ensures IsAuthor(author, current) && author.Some? ==> current == Id(author.value)
  {
    match current
    case Undefined => false
    case Null => author.None?
    case Id(u) => author == Some(u)
  }

  /** The label of a reply bubble. */
  function AuthorLabel(reply: Reply, current: UserId): (ident: string)
    ensures ident == "AI Mentor" <==> reply.isAi
    ensures ident == "You" <==> !reply.isAi && IsAuthor(reply.author, current)
    ensures ident == "Teammate" <==> !reply.isAi && !IsAuthor(reply.author, current)
  {
    if reply.isAi then "AI Mentor"
    else if IsAuthor(reply.author, current) then "You"
    else "Teammate"
  }

  /** Signed out, `currentUserId` is `undefined`, and no reply is labelled
      as the reader's own. */
  lemma SignedOutSeesNoOwnReplies(reply: Reply)
    ensures AuthorLabel(reply, Undefined) != "You"
  {
  }

  /** For a signed-in reader, exactly the human replies whose author is the
      reader's id are labelled "You"; an anonymous reply never is. */
  lemma OwnRepliesAreTheReaders(reply: Reply, user: string)
    ensures AuthorLabel(reply, Id(user)) == "You" <==> !reply.isAi && reply.author == Some(user)
    ensures reply.author.None? ==> AuthorLabel(reply, Id(user)) != "You"
  {
  }

  /** The word after the reply count: `repl` + `y` or `ies`. */
  function ReplyNoun(count: nat): (noun: string)
    ensures noun == "reply" <==> count == 1
    ensures noun == "replies" <==> count != 1
  {
    "repl" + (if count == 1 then "y" else "ies")
  }

  /** "No replies yet." shows when there are no replies and no placeholder. */
  predicate ShowsNoReplies(replies: seq<Reply>, optimistic: Option<OptimisticReply>) {
    |replies| == 0 && optimistic.None?
  }

  /** When the "No replies yet." line shows, nothing else speaks for the
      thread: no reply bubble, no placeholder, and the count reads "replies". */
  lemma NoRepliesLineAgreesWithCount(replies: seq<Reply>, optimistic: Option<OptimisticReply>)
    requires ShowsNoReplies(replies, optimistic)
    ensures replies == [] && optimistic == None
    ensures ReplyNoun(|replies|) == "replies"
  {
  }

  /** The Reply button is disabled while busy or while the draft is blank. */
  predicate ReplyDisabled(busy: bool, draft: string) {
    busy || IsBlank(draft)
  }

  /** What a handler passes on for a text field: the trimmed text, or
      nothing when it is blank. `submitReply` sends no reply for a blank
      draft, and `triggerMentor` turns a blank prompt into `undefined`
      (`mentorPrompt.trim() || undefined`). */
  function TrimmedInput(text: string): (r: Option<string>)
    ensures r.None? <==> IsBlank(text)
    ensures r.Some? ==> r.value != [] && IsTrimmed(r.value) && r.value == Trim(text)
  {
    TrimSpec(text);
    if IsBlank(text) then None else Some(Trim(text))
  }

  /** Whenever the Reply button can be clicked, the click sends a reply. */
  lemma EnabledReplyIsSent(busy: bool, draft: string)
    requires !ReplyDisabled(busy, draft)
    ensures TrimmedInput(draft).Some?
  {
  }

  /** Asking the mentor from a thread: a blank prompt leaves the route to
      describe the post itself, any other prompt reaches it trimmed and is
      used as the whole description. */
  lemma ThreadPromptReachesMentor(prompt: string, post: Mentor.PostRecord)
    ensures IsBlank(prompt) ==> Mentor.Details(TrimmedInput(prompt), post) == Mentor.Details(None, post)
    ensures !IsBlank(prompt) ==> Mentor.Details(TrimmedInput(prompt), post) == Trim(prompt)
    ensures Mentor.Details(TrimmedInput(prompt), post) != []
  {
  }

  const EmptyReplyMessage := "Reply cannot be empty."
  const ReplyFallbackMessage := "Failed to add reply"
  const MentorFallbackMessage := "Mentor request failed"

  /** The thread's local state. */
  class ThreadState {
    var replyValue: string
    var replyError: Option<string>
    var aiError: Option<string>
    var mentorPrompt: string

    constructor ()
      ensures replyValue == [] && replyError == None
      ensures aiError == None && mentorPrompt == []
    {
      replyValue, replyError := [], None;
      aiError, mentorPrompt := None, [];
    }

    /** `submitReply`, with the outcome of the awaited `onReply` as a
        parameter. A blank draft only sets the error; otherwise the trimmed
        draft is sent, the draft cleared if `onReply` resolved, and the
        error set to its message if it threw. */
    method SubmitReply(onReply: Outcome) returns (sent: Option<string>)
      modifies this
      ensures sent == TrimmedInput(old(replyValue))
      ensures aiError == old(aiError) && mentorPrompt == old(mentorPrompt)
      ensures sent.None? ==> replyError == Some(EmptyReplyMessage) && replyValue == old(replyValue)
      ensures sent.Some? && onReply.Resolved? ==> replyError == None && replyValue == []
      ensures sent.Some? && onReply.Threw? ==>
        replyError == Some(MessageOr(onReply.error, ReplyFallbackMessage)) && replyValue == old(replyValue)
    {
      sent := TrimmedInput(replyValue);
      if sent.None? {
        replyError := Some(EmptyReplyMessage);
        return;
      }
      replyError := None;
      if onReply.Resolved? {
        replyValue := [];
      } else {
        replyError := Some(MessageOr(onReply.error, ReplyFallbackMessage));
      }
    }

    /** `triggerMentor`, with the outcome of the awaited `onAskAI` as a
        parameter. The mentor is always asked, with the trimmed prompt or
        none; a non-blank prompt is cleared when the call resolves, and a
        thrown error is shown. */
    method TriggerMentor(onAskAI: Outcome) returns (prompt: Option<string>)
      modifies this
      ensures prompt == TrimmedInput(old(mentorPrompt))
      ensures replyValue == old(replyValue) && replyError == old(replyError)
      ensures onAskAI.Resolved? ==>
        aiError == None && mentorPrompt == (if prompt.Some? then [] else old(mentorPrompt))
      ensures onAskAI.Threw? ==>
        aiError == Some(MessageOr(onAskAI.error, MentorFallbackMessage)) && mentorPrompt == old(mentorPrompt)
    {
      aiError := None;
      prompt := TrimmedInput(mentorPrompt);
      if onAskAI.Resolved? {
        if prompt.Some? {
          mentorPrompt := [];
        }
      } else {
        aiError := Some(MessageOr(onAskAI.error, MentorFallbackMessage));
      }
    }
  }
}
