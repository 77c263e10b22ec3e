/**
 * The comparators the list view sorts with: by a property, by comment
 * total, and the moderation pass.  Each orders items by a key, largest
 * first, and `InsertionSort` runs any of them as an in-place stable sort.
 */
module Comparators {
  import opened Wrappers
  import opened Keys
  import opened Items
  import opened StableSort

  /** The item properties `sortByProperty` is called with. */
  datatype Property = ContentModifiedTimestampField | CreatedField | VotedUsefulByField | UpdatesField

  /** What reading a property gives: a string, an array (by its length) or nothing. */
  datatype PropertyValue = TextValue(s: string) | ArrayValue(length: nat) | Missing

  function PropertyOf(item: Item, p: Property): PropertyValue
  {
    match p
    case ContentModifiedTimestampField => TextValue(item.contentModifiedTimestamp)
    case CreatedField => TextValue(item.created)
    case VotedUsefulByField =>
      (match item.votedUsefulBy
       case Some(vs) => ArrayValue(|vs|)
       case None => Missing)
    case UpdatesField =>
      (match item.updates
       case Some(us) => ArrayValue(|us|)
       case None => Missing)
  }

  /** An array counts by its length, a missing value as 0, anything else as itself. */
  function LengthOf(v: PropertyValue): SortKey
  {
    match v
    case TextValue(s) => Text(s)
    case ArrayValue(n) => Count(n)
    case Missing => Count(0)
  }

  /** The three comparator callbacks passed to `.sort`. */
  datatype Comparator = ByProperty(property: Property) | ByComments | ByModeration(user: Option<User>)

  /** The key each comparator orders by, largest first. */
  function Key(c: Comparator, x: Item): SortKey
  {
    match c
    case ByProperty(p) => LengthOf(PropertyOf(x, p))
    case ByComments => Count(CalculateTotalComments(x))
    case ByModeration(u) => Count(if MatchesCondition(u, x) then 1 else 0)
  }

  function KeyOf(c: Comparator): Item -> SortKey
  {
    x => Key(c, x)
  }

  /**
   * The comparator as the callbacks compute it: negative when `a` goes
   * first, positive when `b` does, 0 when the two are tied.
   */
  function Compare(c: Comparator, a: Item, b: Item): int
  {
    match c
    case ByModeration(u) =>
      var aMatches := MatchesCondition(u, a);
      var bMatches := MatchesCondition(u, b);
      if aMatches && !bMatches then -1
      else if !aMatches && bMatches then 1
      else 0
    case _ =>
      var ka := Key(c, a);
      var kb := Key(c, b);
      if ka == kb then 0
      else if KeyLess(ka, kb) then 1
      else -1
  }

  /**
   * Each comparator is consistent in the sense a sort needs: it is
   * antisymmetric and orders by its key, largest first.
   */
  lemma CompareConsistent(c: Comparator, a: Item, b: Item)
    ensures -1 <= Compare(c, a, b) <= 1
    ensures Compare(c, a, b) == -Compare(c, b, a)
    ensures Compare(c, a, b) == 0 <==> Key(c, a) == Key(c, b)
    ensures Compare(c, a, b) > 0 <==> KeyLess(Key(c, a), Key(c, b))
    ensures Compare(c, a, b) < 0 <==> KeyLess(Key(c, b), Key(c, a))
  {
    KeyTrichotomy(Key(c, a), Key(c, b));
  }

  /** Two property keys never mix counts and texts, so property keys are totally ordered as the code compares them. */
  lemma PropertyKeysOfOneKind(p: Property, a: Item, b: Item)
    ensures Key(ByProperty(p), a).Count? == Key(ByProperty(p), b).Count?
  {
  }

  // ---------------------------------------------------------------------
  // The moderation pass

  function IsOwnPending(u: Option<User>): Item -> bool
  {
    x => MatchesCondition(u, x)
  }

  function IsOther(u: Option<User>): Item -> bool
  {
    x => !MatchesCondition(u, x)
  }

  /** The active user's own pending items of `s`, in order. */
  function OwnPending(u: Option<User>, s: seq<Item>): seq<Item>
  {
    Filter(s, IsOwnPending(u))
  }

  /** Every other item of `s`, in order. */
  function Others(u: Option<User>, s: seq<Item>): seq<Item>
  {
    Filter(s, IsOther(u))
  }

  lemma {:induction false} ModerationWithKey(u: Option<User>, s: seq<Item>, k: SortKey)
    ensures WithKey(KeyOf(ByModeration(u)), s, k) ==
      if k == Count(1) then OwnPending(u, s)
      else if k == Count(0) then Others(u, s)
      else []
    decreases |s|
  {
    if |s| != 0 {
      ModerationWithKey(u, s[..|s| - 1], k);
    }
  }

  lemma {:induction false} WithKeyAll(key: Item -> SortKey, s: seq<Item>, k: SortKey)
    requires forall i :: 0 <= i < |s| ==> key(s[i]) == k
    ensures WithKey(key, s, k) == s
    decreases |s|
  {
    if |s| != 0 {
      WithKeyAll(key, s[..|s| - 1], k);
    }
  }

  lemma {:induction false} WithKeyNone(key: Item -> SortKey, s: seq<Item>, k: SortKey)
    requires forall i :: 0 <= i < |s| ==> key(s[i]) != k
    ensures WithKey(key, s, k) == []
    decreases |s|
  {
    if |s| != 0 {
      WithKeyNone(key, s[..|s| - 1], k);
    }
  }

  /**
   * The moderation pass moves the user's own pending items to the front and
   * otherwise keeps the order: the result is those items in input order
   * followed by all the others in input order.
   */
  lemma ModerationPartition(u: Option<User>, s: seq<Item>)
    ensures SortBy(KeyOf(ByModeration(u)), s) == OwnPending(u, s) + Others(u, s)
    ensures var r := SortBy(KeyOf(ByModeration(u)), s);
      forall i, j :: 0 <= i < j < |r| && MatchesCondition(u, r[j]) ==> MatchesCondition(u, r[i])
  {
    var key := KeyOf(ByModeration(u));
    var p, o := OwnPending(u, s), Others(u, s);
    var t := p + o;
    forall i | 0 <= i < |p| ensures key(p[i]) == Count(1) {
      assert IsOwnPending(u)(p[i]);
    }
    forall i | 0 <= i < |o| ensures key(o[i]) == Count(0) {
      assert IsOther(u)(o[i]);
    }
    forall i, j | 0 <= i < j < |t| ensures KeyLe(key(t[j]), key(t[i])) {
      if i < |p| {
        assert t[i] == p[i];
        if j < |p| {
          assert t[j] == p[j];
        } else {
          assert t[j] == o[j - |p|];
        }
      } else {
        assert t[i] == o[i - |p|] && t[j] == o[j - |p|];
      }
    }
    forall k ensures WithKey(key, t, k) == WithKey(key, s, k) {
      WithKeyAppend(key, p, o, k);
      ModerationWithKey(u, s, k);
      if k == Count(1) {
        WithKeyAll(key, p, k);
        WithKeyNone(key, o, k);
      } else if k == Count(0) {
        WithKeyNone(key, p, k);
        WithKeyAll(key, o, k);
      } else {
        WithKeyNone(key, p, k);
        WithKeyNone(key, o, k);
      }
    }
    SortByCharacterized(key, s, t);
  }

  /** Without an active user the moderation pass changes nothing. */
  lemma ModerationWithoutUser(s: seq<Item>)
    ensures SortBy(KeyOf(ByModeration(None)), s) == s
  {
    var key := KeyOf(ByModeration(None));
    assert forall i :: 0 <= i < |s| ==> key(s[i]) == Count(0);
    SortBySortedIdentity(key, s);
  }

  /** Each moderation group of a sorted sequence is itself sorted. */
  lemma GroupsStaySorted(key: Item -> SortKey, u: Option<User>, s: seq<Item>)
    requires Sorted(key, s)
    ensures Sorted(key, OwnPending(u, s)) && Sorted(key, Others(u, s))
  {
    SortedSubsequence(key, s, IsOwnPending(u));
    SortedSubsequence(key, s, IsOther(u));
  }

  /** `Compare(c, ...)` as a callback of the kind `.sort` takes. */
  function CompareFn(c: Comparator): (Item, Item) -> int
  {
    (a, b) => Compare(c, a, b)
  }

  /** Every comparator is one the in-place sort accepts. */
  lemma CompareFnOrdersByKey(c: Comparator)
    ensures OrdersByKey(CompareFn(c), KeyOf(c))
  {
    forall a, b ensures CompareFn(c)(a, b) > 0 <==> KeyLess(KeyOf(c)(a), KeyOf(c)(b)) {
      CompareConsistent(c, a, b);
    }
  }
}
