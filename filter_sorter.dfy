/**
 * The list view state of one collection: the items, the sort option the
 * user picked, and the filter, sort and search operations the page calls.
 */
module FilterSorter {
  import opened Wrappers
  import opened Keys
  import opened Items
  import opened StableSort
  import opened Comparators

  /**
   * The sort options a page offers.  `NoSorting` is the option named
   * "None" (the name `None` is taken by the empty `Option`).
   */
  datatype ItemSortingOption = NoSorting | Modified | Created | MostUseful | Comments | Updates

  /** The name each option is looked up by. */
  function OptionName(o: ItemSortingOption): string
  {
    match o
    case NoSorting => "None"
    case Modified => "Modified"
    case Created => "Created"
    case MostUseful => "MostUseful"
    case Comments => "Comments"
    case Updates => "Updates"
  }

  /** Look an option up by name; an unknown name gives no option. */
  function ParseSortingOption(query: string): (r: Option<ItemSortingOption>)
    ensures forall o :: r == Some(o) <==> OptionName(o) == query
    ensures r.None? <==> forall o :: OptionName(o) != query
  {
    if query == "None" then Some(NoSorting)
    else if query == "Modified" then Some(Modified)
    else if query == "Created" then Some(Created)
    else if query == "MostUseful" then Some(MostUseful)
    else if query == "Comments" then Some(Comments)
    else if query == "Updates" then Some(Updates)
    else None
  }

  // ---------------------------------------------------------------------
  // Filtering and searching

  function InCategoryOf(category: string): Item -> bool
  {
    x => InCategory(x, category)
  }

  /** The items shown under `category`; an empty category shows them all. */
  function FilterByCategory(items: seq<Item>, category: string): seq<Item>
  {
    if category == "" then items else Filter(items, InCategoryOf(category))
  }

  /**
   * With no category nothing is dropped; otherwise the result keeps the
   * order of `items`, and holds every occurrence of each item whose
   * effective label is the category and nothing else.
   */
  lemma FilterByCategoryKeeps(items: seq<Item>, category: string)
    ensures category == "" ==> FilterByCategory(items, category) == items
    ensures IsSubsequence(FilterByCategory(items, category), items)
    ensures category != "" ==> forall x ::
      multiset(FilterByCategory(items, category))[x] ==
        if EffectiveLabel(x) == Some(category) then multiset(items)[x] else 0
  {
    if category == "" {
      SubsequenceOfItself(items);
    } else {
      FilterIsSubsequence(items, InCategoryOf(category));
      forall x ensures multiset(FilterByCategory(items, category))[x]
                       == if InCategory(x, category) then multiset(items)[x] else 0 {
        FilterCount(items, InCategoryOf(category), x);
      }
    }
  }

  lemma {:induction false} SubsequenceOfItself(s: seq<Item>)
    ensures IsSubsequence(s, s)
    decreases |s|
  {
    if |s| != 0 {
      SubsequenceOfItself(s[..|s| - 1]);
    }
  }

  /** Filtering by the same category twice is filtering once. */
  lemma FilterByCategoryIdempotent(items: seq<Item>, category: string)
    ensures FilterByCategory(FilterByCategory(items, category), category) == FilterByCategory(items, category)
  {
    if category != "" {
      FilterAgain(items, InCategoryOf(category));
    }
  }

  /**
   * Search: an empty search string gives the list back as it is; any
   * other string goes to the fuzzy matcher `fuse`, which is not modelled.
   */
  function Search(items: seq<Item>, searchValue: string, fuse: (seq<Item>, string) -> seq<Item>): (r: seq<Item>)
    ensures searchValue == "" ==> r == items
  {
    if searchValue == "" then items else fuse(items, searchValue)
  }

  // ---------------------------------------------------------------------
  // The sort pipeline

  /** The comparator the active option sorts with; none for "None" or no option. */
  function SorterComparator(sorter: Option<ItemSortingOption>): Option<Comparator>
  {
    match sorter
    case None => None
    case Some(o) =>
      match o
      case NoSorting => None
      case Modified => Some(ByProperty(ContentModifiedTimestampField))
      case Created => Some(ByProperty(CreatedField))
      case MostUseful => Some(ByProperty(VotedUsefulByField))
      case Comments => Some(ByComments)
      case Updates => Some(ByProperty(UpdatesField))
  }

  /** The list after the option's sort and before the moderation pass. */
  function ApplySorter(items: seq<Item>, sorter: Option<ItemSortingOption>): seq<Item>
  {
    match SorterComparator(sorter)
    case None => items
    case Some(c) => SortBy(KeyOf(c), items)
  }

  /** What `getSortedItems` returns for the given items, option and user. */
  function SortedItems(items: seq<Item>, sorter: Option<ItemSortingOption>, user: Option<User>): seq<Item>
  {
    SortBy(KeyOf(ByModeration(user)), ApplySorter(items, sorter))
  }

  /** The sorted list holds exactly the items, each as often as before. */
  lemma SortedItemsPermutation(items: seq<Item>, sorter: Option<ItemSortingOption>, user: Option<User>)
    ensures |SortedItems(items, sorter, user)| == |items|
    ensures multiset(SortedItems(items, sorter, user)) == multiset(items)
  {
    if c :| SorterComparator(sorter) == Some(c) {
      SortByPermutation(KeyOf(c), items);
    }
    SortByPermutation(KeyOf(ByModeration(user)), ApplySorter(items, sorter));
  }

  /**
   * The layout of the sorted list: the user's own pending items, then every
   * other item, each group in the order of the option's sort, which orders
   * by its key, largest first, and keeps ties in their input order.
   */
  lemma SortedItemsLayout(items: seq<Item>, sorter: Option<ItemSortingOption>, user: Option<User>)
    ensures var sorted := ApplySorter(items, sorter);
      SortedItems(items, sorter, user) == OwnPending(user, sorted) + Others(user, sorted)
    ensures SorterComparator(sorter).None? ==>
      SortedItems(items, sorter, user) == OwnPending(user, items) + Others(user, items)
    ensures SorterComparator(sorter).Some? ==>
      var key := KeyOf(SorterComparator(sorter).value);
      var sorted := ApplySorter(items, sorter);
      && Sorted(key, OwnPending(user, sorted)) && Sorted(key, Others(user, sorted))
      && Stable(key, items, sorted)
  {
    var sorted := ApplySorter(items, sorter);
    ModerationPartition(user, sorted);
    if SorterComparator(sorter).Some? {
      var key := KeyOf(SorterComparator(sorter).value);
      SortBySorted(key, items);
      SortByStable(key, items);
      GroupsStaySorted(key, user, sorted);
    }
  }

  /** Without an active user the list is the option's sort and nothing more. */
  lemma SortedItemsWithoutUser(items: seq<Item>, sorter: Option<ItemSortingOption>)
    ensures SortedItems(items, sorter, None) == ApplySorter(items, sorter)
    ensures SorterComparator(sorter).None? ==> SortedItems(items, sorter, None) == items
  {
    ModerationWithoutUser(ApplySorter(items, sorter));
  }

  /** `sort` with a name that is no option, or with "None", leaves the list as it is. */
  lemma SortWithoutOption(items: seq<Item>, query: string)
    requires ParseSortingOption(query).None? || query == "None"
    ensures SortedItems(items, ParseSortingOption(query), None) == items
  {
    SortedItemsWithoutUser(items, ParseSortingOption(query));
  }

  // ---------------------------------------------------------------------
  // The view state

  class FilterSorterDecorator {
    var activeSorter: Option<ItemSortingOption>
    var allItems: array<Item>

    /** Keeps the caller's array itself, not a copy, and starts unsorted. */
    constructor (items: array<Item>)
      ensures activeSorter == Some(NoSorting)
      ensures allItems == items
    {
      activeSorter := Some(NoSorting);
      allItems := items;
    }

    method SortByProperty(listItems: array<Item>, p: Property)
      modifies listItems
      ensures listItems[..] == SortBy(KeyOf(ByProperty(p)), old(listItems[..]))
    {
      CompareFnOrdersByKey(ByProperty(p));
      InsertionSort(listItems, CompareFn(ByProperty(p)), KeyOf(ByProperty(p)));
    }

    method SortByLatestModified(listItems: array<Item>)
      modifies listItems
      ensures listItems[..] == SortBy(KeyOf(ByProperty(ContentModifiedTimestampField)), old(listItems[..]))
    {
      SortByProperty(listItems, ContentModifiedTimestampField);
    }

    method SortByLatestCreated(listItems: array<Item>)
      modifies listItems
      ensures listItems[..] == SortBy(KeyOf(ByProperty(CreatedField)), old(listItems[..]))
    {
      SortByProperty(listItems, CreatedField);
    }

    method SortByMostUseful(listItems: array<Item>)
      modifies listItems
      ensures listItems[..] == SortBy(KeyOf(ByProperty(VotedUsefulByField)), old(listItems[..]))
    {
      SortByProperty(listItems, VotedUsefulByField);
    }

    method SortByUpdates(listItems: array<Item>)
      modifies listItems
      ensures listItems[..] == SortBy(KeyOf(ByProperty(UpdatesField)), old(listItems[..]))
    {
      SortByProperty(listItems, UpdatesField);
    }

    method SortByComments(listItems: array<Item>)
      modifies listItems
      ensures listItems[..] == SortBy(KeyOf(ByComments), old(listItems[..]))
    {
      CompareFnOrdersByKey(ByComments);
      InsertionSort(listItems, CompareFn(ByComments), KeyOf(ByComments));
    }

    method SortByModerationStatus(listItems: array<Item>, user: Option<User>)
      modifies listItems
      ensures listItems[..] == SortBy(KeyOf(ByModeration(user)), old(listItems[..]))
    {
      CompareFnOrdersByKey(ByModeration(user));
      InsertionSort(listItems, CompareFn(ByModeration(user)), KeyOf(ByModeration(user)));
    }

    /** Sorts a copy of `allItems`; `allItems` itself is left untouched. */
    method GetSortedItems(activeUser: Option<User>) returns (r: seq<Item>)
      ensures r == SortedItems(allItems[..], activeSorter, activeUser)
    {
      var snapshot := allItems[..];
      var validItems := new Item[|snapshot|](i requires 0 <= i < |snapshot| => snapshot[i]);
      assert validItems[..] == snapshot;
      if activeSorter.Some? {
        match activeSorter.value
        case Modified => SortByLatestModified(validItems);
        case Created => SortByLatestCreated(validItems);
        case MostUseful => SortByMostUseful(validItems);
        case Comments => SortByComments(validItems);
        case Updates => SortByUpdates(validItems);
        case NoSorting =>
      }
      assert validItems[..] == ApplySorter(snapshot, activeSorter);
      SortByModerationStatus(validItems, activeUser);
      r := validItems[..];
    }

    /** Select the option named `query` and sort for no particular user. */
    method Sort(query: string) returns (r: seq<Item>)
      modifies this`activeSorter
      ensures activeSorter == ParseSortingOption(query)
      ensures allItems == old(allItems) && allItems[..] == old(allItems[..])
      ensures r == SortedItems(allItems[..], activeSorter, None)
    {
      activeSorter := ParseSortingOption(query);
      r := GetSortedItems(None);
    }
  }
}
