/**
  The wall page's own logic: folding realtime change events for posts and
  replies into the in-memory wall, the search filter, clearing an AI
  placeholder once the real AI reply has arrived, and the page's state maps.
 */
module WallSync {
  import opened JsValues
  import opened JsText
  import opened Sequences
  import opened WallTypes

  // ---------------------------------------------------------------------
  // Lookups and orderings

  /** `wall.find((post) => post.id === id)`: the first post with that id. */
  function FindPost(wall: seq<Post>, id: string): (r: Option<Post>)
    ensures r.Some? ==> r.value in wall && r.value.id == id
    ensures r.None? <==> forall p :: p in wall ==> p.id != id
  {
    if wall == [] then None
    else if wall[0].id == id then Some(wall[0])
    else FindPost(wall[1..], id)
  }

  /** The post found is the first one with the id: no earlier post has it. */
  lemma {:induction false} FindPostIsFirst(wall: seq<Post>, id: string)
    ensures FindPost(wall, id).Some? ==>
      exists i :: 0 <= i < |wall| && wall[i] == FindPost(wall, id).value && IdAbsentBefore(wall, id, i)
  {
    if wall != [] {
      if wall[0].id == id {
        assert IdAbsentBefore(wall, id, 0);
      } else {
        FindPostIsFirst(wall[1..], id);
        var r := FindPost(wall[1..], id);
        if r.Some? {
          var i :| 0 <= i < |wall[1..]| && wall[1..][i] == r.value && IdAbsentBefore(wall[1..], id, i);
          assert wall[i + 1] == r.value;
          assert IdAbsentBefore(wall, id, i + 1);
        }
      }
    }
  }

  /** No post before index `i` has the id. */
  predicate IdAbsentBefore(wall: seq<Post>, id: string, i: int)
    requires 0 <= i <= |wall|
  {
    forall j :: 0 <= j < i ==> wall[j].id != id
  }

  /** `wall.some((post) => post.id === id)`. */
  predicate HasPost(wall: seq<Post>, id: string) {
    exists p :: p in wall && p.id == id
  }

  function PostId(p: Post): string { p.id }

  ghost predicate UniqueIds(wall: seq<Post>) {
    DistinctBy(wall, PostId)
  }

  /** Sort key of the posts comparator `b.created_at - a.created_at`. */
  function PostAge(p: Post): int { -p.createdAt }

  /** Sort key of the replies comparator `a.created_at - b.created_at`. */
  function ReplyTime(r: Reply): int { r.createdAt }

  predicate IsNewestFirst(wall: seq<Post>) {
    forall i, j :: 0 <= i < j < |wall| ==> wall[i].createdAt >= wall[j].createdAt
  }

  predicate IsOldestFirst(replies: seq<Reply>) {
    forall i, j :: 0 <= i < j < |replies| ==> replies[i].createdAt <= replies[j].createdAt
  }

  // ---------------------------------------------------------------------
  // Post change events

  /** The replies of the post already on the wall with this id, or none. */
  function ExistingReplies(wall: seq<Post>, id: string): seq<Reply> {
    match FindPost(wall, id)
    case Some(p) => p.replies
    case None => []
  }

  /** `{ replies: existingReplies, ...rawNew }`: the row's own fields win. */
  function Incoming(wall: seq<Post>, row: PostRow): Post
    requires row.id.Some?
  {
    Post(row.id.value, row.author, row.title, row.body, row.tags, row.createdAt,
         if row.replies.Some? then row.replies.value else ExistingReplies(wall, row.id.value))
  }

  /** `wall.map((post) => (post.id === incoming.id ? incoming : post))`. */
  function ReplacePost(wall: seq<Post>, incoming: Post): seq<Post> {
    seq(|wall|, i requires 0 <= i < |wall| => if wall[i].id == incoming.id then incoming else wall[i])
  }

  /** The event removes a post: a DELETE that carries an old row. */
  predicate IsRemoval<Row>(change: Change<Row>) {
    change.eventType == Delete && change.oldRow.Some?
  }

  /** The event upserts a post: not a removal, and its new row has an id. */
  predicate IsPostUpsert(change: Change<PostRow>) {
    !IsRemoval(change) && change.newRow.Some? && Truthy(change.newRow.value.id)
  }

  /** The upsert before sorting: replace the post with that id, or put the
      incoming post in front. */
  function UpsertPost(wall: seq<Post>, row: PostRow): seq<Post>
    requires row.id.Some?
  {
    var incoming := Incoming(wall, row);
    if HasPost(wall, incoming.id) then ReplacePost(wall, incoming) else [incoming] + wall
  }

  /** `applyPostChange`: fold one `posts` change event into the wall. A
      removal without an id, or any other event without a new id, leaves
      the wall as it is. */
  function ApplyPostChange(wall: seq<Post>, change: Change<PostRow>): (r: seq<Post>)
    ensures IsRemoval(change) && !Truthy(change.oldRow.value.id) ==> r == wall
    ensures !IsRemoval(change) && !IsPostUpsert(change) ==> r == wall
  {
    if IsRemoval(change) then
      var removed := change.oldRow.value.id;
      if Truthy(removed) then Filter(wall, (p: Post) => p.id != removed.value) else wall
    else if !IsPostUpsert(change) then wall
    else SortBy(UpsertPost(wall, change.newRow.value), PostAge)
  }

  /** A removal with an id drops every post with that id and keeps the others
      in their order. */
  lemma PostRemoval(wall: seq<Post>, change: Change<PostRow>)
    requires IsRemoval(change) && Truthy(change.oldRow.value.id)
    ensures IsSubsequence(ApplyPostChange(wall, change), wall)
    ensures forall p :: p in ApplyPostChange(wall, change) ==> p in wall && p.id != change.oldRow.value.id.value
    ensures forall p :: p in wall && p.id != change.oldRow.value.id.value ==> p in ApplyPostChange(wall, change)
    ensures forall p | p in wall && p.id != change.oldRow.value.id.value ::
      multiset(ApplyPostChange(wall, change))[p] == multiset(wall)[p]
  {
  }

  /** Sorting newest first: the sort by `PostAge` orders by descending time. */
  lemma NewestFirstSort(posts: seq<Post>)
    ensures IsNewestFirst(SortBy(posts, PostAge))
    ensures multiset(SortBy(posts, PostAge)) == multiset(posts)
  {
    SortBySpec(posts, PostAge);
    var r := SortBy(posts, PostAge);
    forall i, j | 0 <= i < j < |r| ensures r[i].createdAt >= r[j].createdAt {
      assert PostAge(r[i]) <= PostAge(r[j]);
    }
  }

  /** An upsert for an id already on the wall replaces that post in place of
      every post with the id: the length is unchanged, the other posts stay,
      the replies on the wall are kept unless the row brings its own, and the
      wall ends newest first. */
  lemma PostUpsertReplaces(wall: seq<Post>, change: Change<PostRow>)
    requires IsPostUpsert(change) && HasPost(wall, change.newRow.value.id.value)
    ensures var r := ApplyPostChange(wall, change);
      var incoming := Incoming(wall, change.newRow.value);
      && |r| == |wall|
      && incoming in r
      && (forall p :: p in r && p.id == incoming.id ==> p == incoming)
      && (forall p :: p in r ==> p in wall || p == incoming)
      && (forall p :: p in wall && p.id != incoming.id ==> p in r)
      && (forall p | p in wall && p.id != incoming.id :: multiset(r)[p] == multiset(wall)[p])
      && IsNewestFirst(r)
    ensures var row := change.newRow.value;
      row.replies.None? ==> Incoming(wall, row).replies == FindPost(wall, row.id.value).value.replies
  {
    var row := change.newRow.value;
    var incoming := Incoming(wall, row);
    var next := ReplacePost(wall, incoming);
    var r := ApplyPostChange(wall, change);
    assert r == SortBy(next, PostAge);
    ReplacePostMembers(wall, incoming);
    NewestFirstSort(next);
    assert |multiset(r)| == |multiset(next)|;
    forall p ensures p in r <==> p in next {
      assert p in r <==> p in multiset(r);
    }
  }

  /** The replacement itself, before sorting: every post with the id becomes
      the incoming post, and the others stay where they were. */
  lemma ReplacePostMembers(wall: seq<Post>, incoming: Post)
    requires HasPost(wall, incoming.id)
    ensures var next := ReplacePost(wall, incoming);
      && |next| == |wall|
      && incoming in next
      && (forall p :: p in next && p.id == incoming.id ==> p == incoming)
      && (forall p :: p in next ==> p in wall || p == incoming)
      && (forall p :: p in wall && p.id != incoming.id ==> p in next)
      && (forall p: Post | p.id != incoming.id :: multiset(next)[p] == multiset(wall)[p])
  {
    var next := ReplacePost(wall, incoming);
    ReplaceKeepsCounts(wall, next, (p: Post) => p.id == incoming.id);
    var k :| 0 <= k < |wall| && wall[k].id == incoming.id;
    assert next[k] == incoming;
    forall p | p in wall && p.id != incoming.id ensures p in next {
      var i :| 0 <= i < |wall| && wall[i] == p;
      assert next[i] == p;
    }
  }

  /** An upsert for a new id puts one more post on the wall, with the other
      posts kept and the wall newest first. */
  lemma PostUpsertAdds(wall: seq<Post>, change: Change<PostRow>)
    requires IsPostUpsert(change) && !HasPost(wall, change.newRow.value.id.value)
    ensures var r := ApplyPostChange(wall, change);
      var incoming := Incoming(wall, change.newRow.value);
      && |r| == |wall| + 1
      && multiset(r) == multiset(wall) + multiset{incoming}
      && IsNewestFirst(r)
    ensures var row := change.newRow.value;
      Incoming(wall, row).replies == if row.replies.Some? then row.replies.value else []
  {
    var row := change.newRow.value;
    var incoming := Incoming(wall, row);
    NewestFirstSort([incoming] + wall);
    assert |multiset(ApplyPostChange(wall, change))| == |multiset([incoming] + wall)|;
  }

  /** Ids that were unique on the wall stay unique after any post event. */
  lemma PostChangeKeepsIdsUnique(wall: seq<Post>, change: Change<PostRow>)
    requires UniqueIds(wall)
    ensures UniqueIds(ApplyPostChange(wall, change))
  {
    var r := ApplyPostChange(wall, change);
    if IsRemoval(change) && Truthy(change.oldRow.value.id) {
      SubsequenceKeepsDistinct(r, wall);
    } else if IsPostUpsert(change) {
      var row := change.newRow.value;
      var incoming := Incoming(wall, row);
      var next := UpsertPost(wall, row);
      if HasPost(wall, incoming.id) {
        assert forall i :: 0 <= i < |wall| ==> PostId(next[i]) == PostId(wall[i]);
      } else {
        forall i, j | 0 <= i < j < |next| ensures PostId(next[i]) != PostId(next[j]) {
          if i > 0 {
            assert next[i] == wall[i - 1] && next[j] == wall[j - 1];
          } else {
            assert next[j] in wall;
          }
        }
      }
      SortByKeepsDistinct(next, PostAge, PostId);
    }
  }

  lemma {:induction false} SubsequenceKeepsDistinct(a: seq<Post>, b: seq<Post>)
    requires IsSubsequence(a, b) && UniqueIds(b)
    ensures UniqueIds(a)
  {
    if b != [] {
      if a != [] && a[0] == b[0] && IsSubsequence(a[1..], b[1..]) {
        SubsequenceKeepsDistinct(a[1..], b[1..]);
        SubsequenceMembers(a[1..], b[1..]);
        forall i, j | 0 <= i < j < |a| ensures PostId(a[i]) != PostId(a[j]) {
          if i == 0 {
            assert a[j] in a[1..];
            var k :| 0 <= k < |b[1..]| && b[1..][k] == a[j];
            assert b[k + 1] == a[j];
          } else {
            assert a[i] == a[1..][i - 1] && a[j] == a[1..][j - 1];
          }
        }
      } else {
        SubsequenceKeepsDistinct(a, b[1..]);
      }
    }
  }

  lemma {:induction false} SubsequenceMembers(a: seq<Post>, b: seq<Post>)
    requires IsSubsequence(a, b)
    ensures forall x :: x in a ==> x in b
  {
    if b != [] {
      if a != [] && a[0] == b[0] && IsSubsequence(a[1..], b[1..]) {
        SubsequenceMembers(a[1..], b[1..]);
        assert forall x :: x in a ==> x == a[0] || x in a[1..];
      } else {
        SubsequenceMembers(a, b[1..]);
      }
    }
  }

  // ---------------------------------------------------------------------
  // Reply change events

  /** `post.replies.some((reply) => reply.id === id)`. */
  predicate HasReply(replies: seq<Reply>, id: string) {
    exists x :: x in replies && x.id == id
  }

  /** Replace the reply with the incoming one's id, or append the incoming one. */
  function UpsertReply(replies: seq<Reply>, incoming: Reply): (r: seq<Reply>)
    ensures |r| == |replies| + (if HasReply(replies, incoming.id) then 0 else 1)
    ensures forall x :: x in r ==> x == incoming || x in replies
    ensures forall x: Reply | x.id != incoming.id :: multiset(r)[x] == multiset(replies)[x]
  {
    if HasReply(replies, incoming.id) then
      var u := seq(|replies|, i requires 0 <= i < |replies| =>
        if replies[i].id == incoming.id then incoming else replies[i]);
      ReplaceKeepsCounts(replies, u, (x: Reply) => x.id == incoming.id);
      u
    else replies + [incoming]
  }

  /** `rawNew as Reply` once both ids are known to be present. */
  function ToReply(row: ReplyRow): Reply
    requires row.id.Some? && row.postId.Some?
  {
    Reply(row.id.value, row.postId.value, row.author, row.body, row.isAi, row.createdAt)
  }

  /** A removal that names both the reply and its post. */
  predicate IsReplyRemoval(change: Change<ReplyRow>) {
    IsRemoval(change) && Truthy(change.oldRow.value.postId) && Truthy(change.oldRow.value.id)
  }

  /** Not a removal, and the new row names both the reply and its post. */
  predicate IsReplyUpsert(change: Change<ReplyRow>) {
    !IsRemoval(change) && change.newRow.Some?
    && Truthy(change.newRow.value.postId) && Truthy(change.newRow.value.id)
  }

  /** `applyReplyChange`: fold one `replies` change event into the wall. The
      list of posts keeps its length and order; an event that lacks the
      reply's id or its post's id leaves the wall as it is. */
  function ApplyReplyChange(wall: seq<Post>, change: Change<ReplyRow>): (r: seq<Post>)
    ensures |r| == |wall|
    ensures !IsReplyRemoval(change) && !IsReplyUpsert(change) ==> r == wall
  {
    if IsRemoval(change) then
      var row := change.oldRow.value;
      if !Truthy(row.postId) || !Truthy(row.id) then wall
      else
        seq(|wall|, i requires 0 <= i < |wall| =>
          if wall[i].id == row.postId.value
          then wall[i].(replies := Filter(wall[i].replies, (x: Reply) => x.id != row.id.value))
          else wall[i])
    else if !IsReplyUpsert(change) then wall
    else
      var incoming := ToReply(change.newRow.value);
      seq(|wall|, i requires 0 <= i < |wall| =>
        if wall[i].id != incoming.postId then wall[i]
        else wall[i].(replies := SortBy(UpsertReply(wall[i].replies, incoming), ReplyTime)))
  }

  /** A reply removal touches only the posts with the named post id, and
      from those drops exactly the replies with the named id, keeping the
      rest in order. */
  lemma ReplyRemoval(wall: seq<Post>, change: Change<ReplyRow>)
    requires IsReplyRemoval(change)
    ensures var r := ApplyReplyChange(wall, change);
      var postId, replyId := change.oldRow.value.postId.value, change.oldRow.value.id.value;
      forall i :: 0 <= i < |wall| ==>
        if wall[i].id != postId then r[i] == wall[i]
        else
          && r[i].(replies := wall[i].replies) == wall[i]
          && IsSubsequence(r[i].replies, wall[i].replies)
          && (forall x :: x in r[i].replies ==> x in wall[i].replies && x.id != replyId)
          && (forall x :: x in wall[i].replies && x.id != replyId ==> x in r[i].replies)
          && (forall x | x in wall[i].replies && x.id != replyId ::
                multiset(r[i].replies)[x] == multiset(wall[i].replies)[x])
  {
  }

  /** A reply upsert touches only the posts with the reply's post id. There
      the reply replaces the one with its id or is appended, the others stay,
      and the replies end oldest first. */
  lemma ReplyUpsert(wall: seq<Post>, change: Change<ReplyRow>)
    requires IsReplyUpsert(change)
    ensures var r := ApplyReplyChange(wall, change);
      var incoming := ToReply(change.newRow.value);
      forall i :: 0 <= i < |wall| ==>
        if wall[i].id != incoming.postId then r[i] == wall[i]
        else
          && r[i].(replies := wall[i].replies) == wall[i]
          && IsOldestFirst(r[i].replies)
          && incoming in r[i].replies
          && (forall x :: x in r[i].replies ==> x == incoming || (x in wall[i].replies && x.id != incoming.id))
          && (forall x :: x in wall[i].replies && x.id != incoming.id ==> x in r[i].replies)
          && (forall x | x in wall[i].replies && x.id != incoming.id ::
                multiset(r[i].replies)[x] == multiset(wall[i].replies)[x])
          && |r[i].replies| == |wall[i].replies| + (if HasReply(wall[i].replies, incoming.id) then 0 else 1)
  {
    var r := ApplyReplyChange(wall, change);
    var incoming := ToReply(change.newRow.value);
    forall i | 0 <= i < |wall| && wall[i].id == incoming.postId
      ensures IsOldestFirst(r[i].replies)
      ensures incoming in r[i].replies
      ensures forall x :: x in r[i].replies ==> x == incoming || (x in wall[i].replies && x.id != incoming.id)
      ensures forall x :: x in wall[i].replies && x.id != incoming.id ==> x in r[i].replies
      ensures forall x | x in wall[i].replies && x.id != incoming.id ::
        multiset(r[i].replies)[x] == multiset(wall[i].replies)[x]
      ensures |r[i].replies| == |wall[i].replies| + (if HasReply(wall[i].replies, incoming.id) then 0 else 1)
    {
      UpsertReplySpec(wall[i].replies, incoming);
    }
  }

  /** Upserting then sorting: what `ReplyUpsert` states of one post. */
  lemma UpsertReplySpec(replies: seq<Reply>, incoming: Reply)
    ensures var r := SortBy(UpsertReply(replies, incoming), ReplyTime);
      && IsOldestFirst(r)
      && incoming in r
      && (forall x :: x in r ==> x == incoming || (x in replies && x.id != incoming.id))
      && (forall x :: x in replies && x.id != incoming.id ==> x in r)
      && (forall x | x in replies && x.id != incoming.id :: multiset(r)[x] == multiset(replies)[x])
      && |r| == |replies| + (if HasReply(replies, incoming.id) then 0 else 1)
  {
    var u := UpsertReply(replies, incoming);
    var r := SortBy(u, ReplyTime);
    UpsertReplyMembers(replies, incoming);
    SortBySpec(u, ReplyTime);
    assert |multiset(r)| == |multiset(u)|;
    forall x ensures x in r <==> x in u {
      assert x in r <==> x in multiset(r);
    }
  }

  /** The upsert itself, before sorting: the incoming reply is there, and
      every other reply with a different id stays. */
  lemma UpsertReplyMembers(replies: seq<Reply>, incoming: Reply)
    ensures var u := UpsertReply(replies, incoming);
      && incoming in u
      && (forall x :: x in u ==> x == incoming || (x in replies && x.id != incoming.id))
      && (forall x :: x in replies && x.id != incoming.id ==> x in u)
  {
    var u := UpsertReply(replies, incoming);
    if HasReply(replies, incoming.id) {
      var k :| 0 <= k < |replies| && replies[k].id == incoming.id;
      assert u[k] == incoming;
      forall x | x in replies && x.id != incoming.id ensures x in u {
        var i :| 0 <= i < |replies| && replies[i] == x;
        assert u[i] == x;
      }
    } else {
      assert u[|replies|] == incoming;
    }
  }

  /** A reply for a post that is not on the wall changes nothing. */
  lemma ReplyForUnknownPost(wall: seq<Post>, change: Change<ReplyRow>)
    requires IsReplyUpsert(change) && !HasPost(wall, change.newRow.value.postId.value)
    ensures ApplyReplyChange(wall, change) == wall
  {
    var r := ApplyReplyChange(wall, change);
    forall i | 0 <= i < |wall| ensures r[i] == wall[i] {
      assert wall[i] in wall;
    }
  }

  // ---------------------------------------------------------------------
  // Search

  /** A post matches a lower-cased query through its title, body or a tag. */
  predicate Matches(p: Post, query: string) {
    || Includes(Lower(p.title), query)
    || Includes(Lower(p.body), query)
    || (p.tags.Some? && exists t :: t in p.tags.value && Includes(Lower(t), query))
  }

  /** `visibleWall`: the whole wall for a blank search, otherwise the posts
      that match the trimmed, lower-cased query. */
  function VisibleWall(wall: seq<Post>, search: string): (r: seq<Post>)
    ensures |r| <= |wall|
    ensures forall p :: p in r ==> p in wall
  {
    if IsBlank(search) then wall
    else
      var query := Lower(Trim(search));
      Filter(wall, (p: Post) => Matches(p, query))
  }

  /** A blank search shows the wall itself; any other search shows, in
      wall order, exactly the posts that match the query. */
  lemma VisibleWallSpec(wall: seq<Post>, search: string)
    ensures IsBlank(search) ==> VisibleWall(wall, search) == wall
    ensures !IsBlank(search) ==>
      var r, query := VisibleWall(wall, search), Lower(Trim(search));
      && IsSubsequence(r, wall)
      && (forall p :: p in r ==> p in wall && Matches(p, query))
      && (forall p :: p in wall && Matches(p, query) ==> p in r)
      && (forall p | p in wall && Matches(p, query) :: multiset(r)[p] == multiset(wall)[p])
  {
  }

  /** A post whose title holds the query in any letter case is shown. */
  lemma TitleMatchIsShown(wall: seq<Post>, search: string, p: Post)
    requires p in wall && !IsBlank(search)
    requires Includes(Lower(p.title), Lower(Trim(search)))
    ensures p in VisibleWall(wall, search)
  {
  }

  // ---------------------------------------------------------------------
  // Expanded posts

  /** `expanded[post.id] ?? false`. */
  predicate IsExpanded(expanded: map<string, bool>, id: string) {
    id in expanded && expanded[id]
  }

  /** `togglePost`: `{ ...previous, [id]: !previous[id] }`. */
  function TogglePost(expanded: map<string, bool>, id: string): (r: map<string, bool>)
    ensures IsExpanded(r, id) == !IsExpanded(expanded, id)
    ensures id in r
    ensures forall k :: k != id ==> (k in r <==> k in expanded)
    ensures forall k :: k != id && k in expanded ==> r[k] == expanded[k]
  {
    expanded[id := !IsExpanded(expanded, id)]
  }

  /** Toggling twice shows the post as before. */
  lemma ToggleTwice(expanded: map<string, bool>, id: string, other: string)
    ensures IsExpanded(TogglePost(TogglePost(expanded, id), id), other) == IsExpanded(expanded, other)
  {
  }

  // ---------------------------------------------------------------------
  // Optimistic AI replies

  /** Per post id: a placeholder, or `null` once cleared. */
  type Placeholders = map<string, Option<OptimisticReply>>

  /** The post with that id has an AI reply whose text is the placeholder's
      text, up to surrounding whitespace and letter case. */
  predicate HasMatchingAiReply(wall: seq<Post>, postId: string, text: string) {
    match FindPost(wall, postId)
    case None => false
    case Some(p) =>
      exists x :: x in p.replies && x.isAi && Lower(Trim(x.body)) == Lower(Trim(text))
  }

  /** A ready placeholder whose real reply is on the wall. */
  predicate IsSettled(wall: seq<Post>, postId: string, entry: Option<OptimisticReply>) {
    entry.Some? && entry.value.status == Ready && HasMatchingAiReply(wall, postId, entry.value.text)
  }

  /** Every settled placeholder cleared to `null`, everything else as it was. */
  function ClearSettled(current: Placeholders, wall: seq<Post>): (r: Placeholders)
    ensures r.Keys == current.Keys
  {
    map k | k in current :: if IsSettled(wall, k, current[k]) then None else current[k]
  }

  /** What clearing changes: only ready placeholders, only to `null`, and
      exactly those whose AI reply is on the wall. */
  lemma ClearSettledSpec(current: Placeholders, wall: seq<Post>)
    ensures ClearSettled(current, wall).Keys == current.Keys
    ensures forall k :: k in current && ClearSettled(current, wall)[k] != current[k] ==>
      current[k].Some? && current[k].value.status == Ready && ClearSettled(current, wall)[k] == None
    ensures forall k :: k in current && current[k].Some? ==>
      (ClearSettled(current, wall)[k] == None <==>
        current[k].value.status == Ready && HasMatchingAiReply(wall, k, current[k].value.text))
    ensures forall k :: k in current ==> !IsSettled(wall, k, ClearSettled(current, wall)[k])
  {
  }

  /** After clearing, no placeholder is settled. */
  lemma ClearedLeavesNoneSettled(current: Placeholders, wall: seq<Post>)
    ensures forall k :: k in ClearSettled(current, wall) ==> !IsSettled(wall, k, ClearSettled(current, wall)[k])
  {
  }

  /** A settled placeholder shows, up to surrounding whitespace and letter
      case, the body of an AI reply already on its post: the answer twice. */
  lemma SettledPlaceholderRepeatsReply(wall: seq<Post>, postId: string, entry: Option<OptimisticReply>)
    requires IsSettled(wall, postId, entry)
    ensures FindPost(wall, postId).Some?
    ensures exists x :: (x in FindPost(wall, postId).value.replies && x.isAi &&
                         Lower(Trim(x.body)) == Lower(Trim(PlaceholderText(entry.value))))
  {
  }

  /** The effect that clears placeholders when the wall changes: copies the
      map, sets each settled entry to `null`, and hands back the original map
      when nothing was cleared. */
  method ClearSettledPlaceholders(current: Placeholders, wall: seq<Post>) returns (result: Placeholders, mutated: bool)
    ensures result == ClearSettled(current, wall)
    ensures mutated <==> exists k :: k in current && IsSettled(wall, k, current[k])
    ensures !mutated ==> result == current
  {
    mutated := false;
    var next := current;
    var todo := current.Keys;
    while todo != {}
      invariant todo <= current.Keys
      invariant next.Keys == current.Keys
      invariant forall k :: k in current && k !in todo ==>
        next[k] == if IsSettled(wall, k, current[k]) then None else current[k]
      invariant forall k :: k in todo ==> next[k] == current[k]
      invariant mutated <==> exists k :: k in current && k !in todo && IsSettled(wall, k, current[k])
      decreases todo
    {
      var postId :| postId in todo;
      if IsSettled(wall, postId, current[postId]) {
        next := next[postId := None];
        mutated := true;
      }
      todo := todo - {postId};
    }
    result := if mutated then next else current;
  }

  // ---------------------------------------------------------------------
  // The page's state

  /** `wrapError(error, fallback)`: an `Error` is rethrown as it is, anything
      else becomes an `Error` with the fallback message. */
  function WrapError(error: Thrown, fallback: string): (r: Thrown)
    ensures r.ErrorObject?
    ensures error.ErrorObject? ==> r == error
  {
    ErrorObject(MessageOr(error, fallback))
  }

  /** An `Error` passes through `wrapError` as the same error; anything else
      becomes an `Error` carrying the fallback message. */
  lemma WrapErrorKeepsErrors(error: Thrown, fallback: string)
    ensures error.ErrorObject? ==> WrapError(error, fallback) == error
    ensures error.OtherThrown? ==> WrapError(error, fallback) == ErrorObject(fallback)
    ensures WrapError(WrapError(error, fallback), fallback) == WrapError(error, fallback)
  {
  }

  /** How the `/api/mentor` call ended, as `handleAskAI` sees it. */
  datatype MentorCall =
    | Answered(ok: bool, error: Option<string>, replyText: string)
    | CallThrew(thrown: Thrown)

  /** The state of the wall page. Placeholder clearing runs after every
      change of the wall and after a placeholder becomes ready, so no settled
      placeholder is ever left on screen. */
  class HomeState {
    var wall: seq<Post>
    var search: string
    var expanded: map<string, bool>
    var replyBusy: map<string, bool>
    var aiBusy: map<string, bool>
    var optimisticReplies: Placeholders

    ghost predicate Valid()
      reads this
    {
      forall k :: k in optimisticReplies ==> !IsSettled(wall, k, optimisticReplies[k])
    }

    /** What the page shows: the wall through the search filter. */
    function Visible(): (r: seq<Post>)
      reads this
      ensures IsBlank(search) ==> r == wall
      ensures forall p :: p in r ==> p in wall && (IsBlank(search) || Matches(p, Lower(Trim(search))))
    {
      VisibleWall(wall, search)
    }

    constructor ()
      ensures Valid()
      ensures wall == [] && search == [] && expanded == map[]
      ensures replyBusy == map[] && aiBusy == map[] && optimisticReplies == map[]
    {
      wall, search := [], [];
      expanded, replyBusy, aiBusy := map[], map[], map[];
      optimisticReplies := map[];
    }

    /** `setWall(next)`, then the clearing effect that runs on every change
        of the wall. */
    method CommitWall(next: seq<Post>)
      modifies this`wall, this`optimisticReplies
      ensures Valid()
      ensures wall == next
      ensures optimisticReplies == ClearSettled(old(optimisticReplies), next)
    {
      var cleared, _ := ClearSettledPlaceholders(optimisticReplies, next);
      ClearedLeavesNoneSettled(optimisticReplies, next);
      wall, optimisticReplies := next, cleared;
    }

    /** The `posts` channel handler, then the clearing effect. */
    method ReceivePostChange(change: Change<PostRow>)
      requires Valid()
      modifies this
      ensures Valid()
      ensures wall == ApplyPostChange(old(wall), change)
      ensures optimisticReplies == ClearSettled(old(optimisticReplies), wall)
      ensures search == old(search) && expanded == old(expanded)
      ensures replyBusy == old(replyBusy) && aiBusy == old(aiBusy)
    {
      CommitWall(ApplyPostChange(wall, change));
    }

    /** The `replies` channel handler, then the clearing effect. */
    method ReceiveReplyChange(change: Change<ReplyRow>)
      requires Valid()
      modifies this
      ensures Valid()
      ensures wall == ApplyReplyChange(old(wall), change)
      ensures optimisticReplies == ClearSettled(old(optimisticReplies), wall)
      ensures search == old(search) && expanded == old(expanded)
      ensures replyBusy == old(replyBusy) && aiBusy == old(aiBusy)
    {
      CommitWall(ApplyReplyChange(wall, change));
    }

    method SetSearch(value: string)
      requires Valid()
      modifies this`search
      ensures Valid() && search == value
    {
      search := value;
    }

    /** `togglePost`. */
    method Toggle(id: string)
      requires Valid()
      modifies this`expanded
      ensures Valid()
      ensures expanded == TogglePost(old(expanded), id)
    {
      expanded := TogglePost(expanded, id);
    }

    /** `handleCreatePost`: a failure of `createPost` is rethrown wrapped;
        no page state changes. */
    method HandleCreatePost(createPost: Outcome) returns (thrown: Option<Thrown>)
      ensures createPost.Resolved? ==> thrown == None
      ensures createPost.Threw? && createPost.error.ErrorObject? ==> thrown == Some(createPost.error)
      ensures createPost.Threw? && createPost.error.OtherThrown? ==>
        thrown == Some(ErrorObject("Unable to post to the wall"))
    {
      if createPost.Threw? {
        thrown := Some(WrapError(createPost.error, "Unable to post to the wall"));
      } else {
        thrown := None;
      }
    }

    /** `handleReply`: busy while `createReply` runs; a failure is rethrown
      wrapped, and the post is not busy afterwards either way. */
    method HandleReply(postId: string, createReply: Outcome) returns (thrown: Option<Thrown>)
      requires Valid()
      modifies this`replyBusy
      ensures Valid()
      ensures replyBusy == old(replyBusy)[postId := false]
      ensures createReply.Resolved? ==> thrown == None
      ensures createReply.Threw? ==> thrown == Some(WrapError(createReply.error, "Unable to add reply"))
    {
      replyBusy := replyBusy[postId := true];
      if createReply.Threw? {
        thrown := Some(WrapError(createReply.error, "Unable to add reply"));
      } else {
        thrown := None;
      }
      replyBusy := replyBusy[postId := false];
    }

    /** The start of `handleAskAI`: busy, with a thinking placeholder. */
    method BeginAskAI(postId: string)
      requires Valid()
      modifies this`aiBusy, this`optimisticReplies
      ensures Valid()
      ensures aiBusy == old(aiBusy)[postId := true]
      ensures optimisticReplies == old(optimisticReplies)[postId := Some(OptimisticReply(Thinking, []))]
    {
      aiBusy := aiBusy[postId := true];
      optimisticReplies := optimisticReplies[postId := Some(OptimisticReply(Thinking, []))];
    }

    /** The end of `handleAskAI`: a successful answer makes the placeholder
        ready with the reply text, and the clearing runs at once in case the
        AI reply reached the wall first; a failure drops the placeholder and
        rethrows wrapped. The post is not busy afterwards either way. */
    method FinishAskAI(postId: string, call: MentorCall) returns (thrown: Option<Thrown>)
      requires Valid()
      modifies this`aiBusy, this`optimisticReplies
      ensures Valid()
      ensures aiBusy == old(aiBusy)[postId := false]
      ensures call.Answered? && call.ok ==>
        thrown == None &&
        optimisticReplies == ClearSettled(old(optimisticReplies)[postId := Some(OptimisticReply(Ready, call.replyText))], wall)
      ensures call.Answered? && !call.ok ==>
        thrown == Some(ErrorObject(if call.error.Some? then call.error.value else "Mentor request failed")) &&
        optimisticReplies == old(optimisticReplies)[postId := None]
      ensures call.CallThrew? ==>
        thrown == Some(WrapError(call.thrown, "Mentor request failed")) &&
        optimisticReplies == old(optimisticReplies)[postId := None]
    {
      if call.Answered? && call.ok {
        var ready := optimisticReplies[postId := Some(OptimisticReply(Ready, call.replyText))];
        var cleared, _ := ClearSettledPlaceholders(ready, wall);
        ClearedLeavesNoneSettled(ready, wall);
        optimisticReplies := cleared;
        thrown := None;
      } else {
        optimisticReplies := optimisticReplies[postId := None];
        if call.Answered? {
          thrown := Some(ErrorObject(if call.error.Some? then call.error.value else "Mentor request failed"));
        } else {
          thrown := Some(WrapError(call.thrown, "Mentor request failed"));
        }
      }
      aiBusy := aiBusy[postId := false];
    }
  }

  /** While the clearing is kept up to date, no ready placeholder on screen
      repeats an AI reply of its post. */
  lemma NoPlaceholderRepeatsReply(h: HomeState, postId: string, x: Reply)
    requires h.Valid()
    requires postId in h.optimisticReplies && h.optimisticReplies[postId].Some?
    requires h.optimisticReplies[postId].value.status == Ready
    requires FindPost(h.wall, postId).Some? && x in FindPost(h.wall, postId).value.replies && x.isAi
    ensures Lower(Trim(x.body)) != Lower(Trim(PlaceholderText(h.optimisticReplies[postId].value)))
  {
  }

  // ---------------------------------------------------------------------
  // The clearing effect as written

  /** In the page as written the clearing effect runs only when the wall
      changes. If the AI reply reaches the wall while the placeholder is still
      thinking, and the mentor call answers afterwards, the ready placeholder
      shows the reply a second time and nothing clears it. */
  lemma EchoBeforeAnswerLeavesPlaceholder()
    ensures
      var wall0 := [Post("p1", None, "Deploy fails", "Build breaks", None, 1, [])];
      var echo := Change(Insert, None, Some(ReplyRow(Some("r1"), Some("p1"), None, "Pin the version.", true, 2)));
      var wall1 := ApplyReplyChange(wall0, echo);
      var thinking := map["p1" := Some(OptimisticReply(Thinking, []))];
      var afterEffect := ClearSettled(thinking, wall1);
      var answered := afterEffect["p1" := Some(OptimisticReply(Ready, "Pin the version."))];
      && IsSettled(wall1, "p1", answered["p1"])
      && exists x :: x in wall1[0].replies && x.isAi &&
           Lower(Trim(x.body)) == Lower(Trim(PlaceholderText(answered["p1"].value)))
  {
    var wall0 := [Post("p1", None, "Deploy fails", "Build breaks", None, 1, [])];
    var row := ReplyRow(Some("r1"), Some("p1"), None, "Pin the version.", true, 2);
    var echo := Change(Insert, None, Some(row));
    var wall1 := ApplyReplyChange(wall0, echo);
    var reply := ToReply(row);
    ReplyUpsert(wall0, echo);
    assert reply in wall1[0].replies;
    assert FindPost(wall1, "p1") == Some(wall1[0]);
  }
}
