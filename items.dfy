/**
 * The content items a list view shows (research posts, how-tos) and the
 * per-item quantities the filter and the sorters look at.
 */
module Items {
  import opened Wrappers

  datatype Category = Category(labelText: string)  // ICategory.label (`label` is a keyword)

  /** A comment on an update; only how many there are matters here. */
  datatype Comment = Comment(creatorName: string, text: string)

  datatype Update = Update(comments: Option<seq<Comment>>)

  /** `Other` stands for every moderation state besides the three pending ones. */
  datatype ModerationStatus = Draft | AwaitingModeration | Rejected | Other

  datatype Item = Item(
    modified: string,                  // _modified
    contentModifiedTimestamp: string,  // _contentModifiedTimestamp
    created: string,                   // _created
    createdBy: string,                 // _createdBy
    title: Option<string>,
    votedUsefulBy: Option<seq<string>>,
    category: Option<Category>,
    researchCategory: Option<Category>,
    updates: Option<seq<Update>>,
    moderation: Option<ModerationStatus>)

  datatype User = User(userName: string)

  // ---------------------------------------------------------------------
  // Comment totals

  /** Comments on one update; an update without a comment list has none. */
  function CommentsLength(u: Update): nat
  {
    match u.comments
    case Some(cs) => |cs|
    case None => 0
  }

  /** The left fold `updates.reduce((total, update) => total + ..., total)`. */
  function ReduceComments(updates: seq<Update>, total: nat): nat
    decreases |updates|
  {
    if updates == [] then total
    else ReduceComments(updates[1..], total + CommentsLength(updates[0]))
  }

  /** The number of comments over all updates of an item; 0 without updates. */
  function CalculateTotalComments(item: Item): nat
  {
    match item.updates
    case Some(us) => ReduceComments(us, 0)
    case None => 0
  }

  /** Reference definition of the total: the comments of the last update added to those of the rest. */
  function SumComments(updates: seq<Update>): nat
    decreases |updates|
  {
    if updates == [] then 0
    else SumComments(updates[..|updates| - 1]) + CommentsLength(updates[|updates| - 1])
  }

  lemma {:induction false} SumCommentsAppend(a: seq<Update>, b: seq<Update>)
    ensures SumComments(a + b) == SumComments(a) + SumComments(b)
    decreases |b|
  {
    if b == [] {
      assert a + b == a;
    } else {
      assert (a + b)[..|a + b| - 1] == a + b[..|b| - 1];
      SumCommentsAppend(a, b[..|b| - 1]);
    }
  }

  /** The fold adds exactly the reference total to its starting value. */
  lemma {:induction false} ReduceCommentsIsSum(updates: seq<Update>, total: nat)
    ensures ReduceComments(updates, total) == total + SumComments(updates)
    decreases |updates|
  {
    if updates != [] {
      ReduceCommentsIsSum(updates[1..], total + CommentsLength(updates[0]));
      assert updates == [updates[0]] + updates[1..];
      SumCommentsAppend([updates[0]], updates[1..]);
      assert [updates[0]][..0] == [];
    }
  }

  lemma {:induction false} SumCommentsZero(updates: seq<Update>)
    ensures SumComments(updates) == 0 <==> forall i :: 0 <= i < |updates| ==> CommentsLength(updates[i]) == 0
    decreases |updates|
  {
    if updates != [] {
      var init := updates[..|updates| - 1];
      SumCommentsZero(init);
      assert forall i :: 0 <= i < |init| ==> init[i] == updates[i];
    }
  }

  lemma {:induction false} SumCommentsBound(updates: seq<Update>, i: nat)
    requires i < |updates|
    ensures CommentsLength(updates[i]) <= SumComments(updates)
    decreases |updates|
  {
    if i < |updates| - 1 {
      SumCommentsBound(updates[..|updates| - 1], i);
    }
  }

  /**
   * The total comment count is the sum over the updates, 0 for an item
   * without updates; it is 0 (where the code answers '0') exactly when no
   * update carries a comment, and it is at least the count of any one update.
   */
  lemma TotalComments(item: Item)
    ensures item.updates.None? ==> CalculateTotalComments(item) == 0
    ensures item.updates.Some? ==> CalculateTotalComments(item) == SumComments(item.updates.value)
    ensures CalculateTotalComments(item) == 0 <==>
      (item.updates.None? || forall i :: 0 <= i < |item.updates.value| ==> CommentsLength(item.updates.value[i]) == 0)
    ensures item.updates.Some? ==>
      forall i :: 0 <= i < |item.updates.value| ==> CommentsLength(item.updates.value[i]) <= CalculateTotalComments(item)
  {
    if item.updates.Some? {
      var us := item.updates.value;
      ReduceCommentsIsSum(us, 0);
      SumCommentsZero(us);
      forall i | 0 <= i < |us| ensures CommentsLength(us[i]) <= CalculateTotalComments(item) {
        SumCommentsBound(us, i);
      }
    }
  }

  /** Posting one more update with `k` comments raises the total by `k`. */
  lemma TotalCommentsAddUpdate(item: Item, u: Update)
    requires item.updates.Some?
    ensures CalculateTotalComments(item.(updates := Some(item.updates.value + [u])))
         == CalculateTotalComments(item) + CommentsLength(u)
  {
    var us := item.updates.value;
    ReduceCommentsIsSum(us, 0);
    ReduceCommentsIsSum(us + [u], 0);
    SumCommentsAppend(us, [u]);
    assert [u][..0] == [];
  }

  // ---------------------------------------------------------------------
  // Category and moderation predicates

  /**
   * The item is shown under `category`: its own category's label decides
   * when it has one, the research category's label otherwise.
   */
  predicate InCategory(item: Item, category: string)
  {
    if item.category.Some? then item.category.value.labelText == category
    else item.researchCategory.Some? && item.researchCategory.value.labelText == category
  }

  /** The label an item is filed under: its category's, or failing that its research category's. */
  function EffectiveLabel(item: Item): Option<string>
  {
    match item.category
    case Some(c) => Some(c.labelText)
    case None =>
      match item.researchCategory
      case Some(rc) => Some(rc.labelText)
      case None => None
  }

  predicate IsCreatedByUser(user: Option<User>, item: Item)
  {
    user.Some? && item.createdBy == user.value.userName
  }

  predicate IsModerationMatch(item: Item)
  {
    item.moderation == Some(Draft) || item.moderation == Some(AwaitingModeration) || item.moderation == Some(Rejected)
  }

  /** The active user's own item that is still a draft, awaiting moderation or rejected. */
  predicate MatchesCondition(user: Option<User>, item: Item)
  {
    IsCreatedByUser(user, item) && IsModerationMatch(item)
  }
}
