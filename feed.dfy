/** The client's feature feed: the list shown is the fetched features whose
    notes contain the search term, ignoring case, and, when a category is
    selected, whose category is that one; each card is labelled with the
    feature's creation date as "<day> <month name> ,<year>". */
module FeatureFeed {
  import opened Text
  import opened Upload

  /** A fetched feature, as far as the feed reads it. A feature saved
      without a category has None. */
  datatype FeedItem = FeedItem(id: string, notes: string, category: Option<string>, files: seq<string>)

  /** The condition an item must meet to stay in the feed; the empty
      selected category selects nothing and so keeps every category. */
  predicate Kept(item: FeedItem, term: string, category: string) {
    Contains(Lower(item.notes), Lower(term)) && (category != "" ==> item.category == Some(category))
  }

  /** An item is kept exactly when the lower-cased term begins at some
      position of the lower-cased notes and, if a category is selected, the
      item has that category. */
  lemma KeptIffOccurs(item: FeedItem, term: string, category: string)
    ensures Kept(item, term, category) <==>
      (exists i :: 0 <= i <= |item.notes| && StartsWith(Lower(item.notes)[i..], Lower(term)))
      && (category == "" || item.category == Some(category))
  {
    ContainsIffOccurs(Lower(item.notes), Lower(term));
  }

  /** `a` is `b` with some elements dropped and the rest in their order. */
  predicate IsSubsequence<T(==)>(a: seq<T>, b: seq<T>)
    decreases |b|
  {
    if |a| == 0 then true
    else if |b| == 0 then false
    else (a[0] == b[0] && IsSubsequence(a[1..], b[1..])) || IsSubsequence(a, b[1..])
  }

  /** `filteredFeatures`: the items that meet the condition, in their order. */
  function FilterFeatures(items: seq<FeedItem>, term: string, category: string): (r: seq<FeedItem>)
    ensures IsSubsequence(r, items)
    ensures forall x :: x in r ==> Kept(x, term, category)
    ensures forall x :: x in items && Kept(x, term, category) ==> x in r
    ensures forall x :: Kept(x, term, category) ==> multiset(r)[x] == multiset(items)[x]
  {
    if |items| == 0 then []
    else
      var rest := FilterFeatures(items[1..], term, category);
      assert items == [items[0]] + items[1..];
      if Kept(items[0], term, category) then
        assert ([items[0]] + rest)[1..] == rest;
        [items[0]] + rest
      else
        rest
  }

  /** With no search term and no selected category the whole list is shown. */
  lemma {:induction false} EmptyQueryKeepsAll(items: seq<FeedItem>)
    ensures FilterFeatures(items, "", "") == items
  {
    if |items| > 0 {
      ContainsEmpty(Lower(items[0].notes));
      assert Lower("") == "";
      EmptyQueryKeepsAll(items[1..]);
      assert items == [items[0]] + items[1..];
    }
  }

  /** A list every item of which meets the condition is left as it is. */
  lemma {:induction false} FilterKeepsKept(items: seq<FeedItem>, term: string, category: string)
    requires forall x :: x in items ==> Kept(x, term, category)
    ensures FilterFeatures(items, term, category) == items
  {
    if |items| > 0 {
      assert items[0] in items;
      assert forall x :: x in items[1..] ==> x in items;
      FilterKeepsKept(items[1..], term, category);
      assert items == [items[0]] + items[1..];
    }
  }

  /** Filtering the filtered list again with the same query changes nothing. */
  lemma FilterIdempotent(items: seq<FeedItem>, term: string, category: string)
    ensures var once := FilterFeatures(items, term, category);
      FilterFeatures(once, term, category) == once
  {
    FilterKeepsKept(FilterFeatures(items, term, category), term, category);
  }

  /** The search ignores the case of the term as well as of the notes. */
  lemma SearchIgnoresCase(item: FeedItem, term: string, category: string)
    ensures Kept(item, term, category) <==> Kept(item, Lower(term), category)
  {
    LowerIdempotent(term);
  }

  /** Narrowing by both term and category gives the items that survive the
      term alone and then the category alone. */
  lemma {:induction false} FilterComposes(items: seq<FeedItem>, term: string, category: string)
    ensures FilterFeatures(items, term, category) == FilterFeatures(FilterFeatures(items, term, ""), "", category)
  {
    if |items| > 0 {
      FilterComposes(items[1..], term, category);
      ContainsEmpty(Lower(items[0].notes));
      assert Lower("") == "";
    }
  }

  // ---------------------------------------------------------------------
  // Date label

  /** The month names, January first, as `Date.getMonth()` counts them. */
  const MonthNames: seq<string> := ["January", "February", "March", "April", "May", "June",
    "July", "August", "September", "October", "November", "December"]

  lemma MonthNamesHaveNoSpace(m: nat)
    requires m < 12
    ensures ' ' !in MonthNames[m] && |MonthNames[m]| >= 3
  {
  }

  lemma MonthNamesDistinct(m1: nat, m2: nat)
    requires m1 < 12 && m2 < 12 && MonthNames[m1] == MonthNames[m2]
    ensures m1 == m2
  {
    assert MonthNames[m1][..3] == MonthNames[m2][..3];
  }

  /** `editDate` from the day of the month, the month index and the full
      year that `Date` reports. */
  function EditDate(day: nat, month: nat, year: int): (s: string)
    requires month < 12
    ensures StartsWith(s, NatToString(day) + " ")
    ensures |s| == |NatToString(day)| + 1 + |MonthNames[month]| + 2 + |IntToString(year)|
    ensures s[|NatToString(day)| + 1..|s| - |IntToString(year)| - 2] == MonthNames[month]
    ensures s[|s| - |IntToString(year)| - 2..] == " ," + IntToString(year)
  {
    var head, tail := NatToString(day) + " ", IntToString(year);
    var s := head + MonthNames[month] + " ," + tail;
    assert s == head + MonthNames[month] + (" ," + tail);
    JoinParts(head, MonthNames[month], " ," + tail);
    s
  }

  /** A label-shaped string gives back its three parts when neither of the
      first two holds a space. */
  lemma {:induction false} SplitLabel(n1: string, a1: string, y1: string, n2: string, a2: string, y2: string)
    requires ' ' !in n1 && ' ' !in n2 && ' ' !in a1 && ' ' !in a2
    requires n1 + " " + a1 + " ," + y1 == n2 + " " + a2 + " ," + y2
    ensures n1 == n2 && a1 == a2 && y1 == y2
  {
    var x := n1 + " " + a1 + " ," + y1;
    var r1, r2 := a1 + " ," + y1, a2 + " ," + y2;
    assert x == n1 + [' '] + r1 && x == n2 + [' '] + r2;
    SplitAtSeparator(n1, r1, n2, r2, ' ');
    assert r1 == a1 + [' '] + ("," + y1) && r2 == a2 + [' '] + ("," + y2);
    SplitAtSeparator(a1, "," + y1, a2, "," + y2, ' ');
    assert y1 == ("," + y1)[1..] && y2 == ("," + y2)[1..];
  }

  /** Different dates get different labels: the label gives back the day,
      the month and the year. */
  lemma EditDateInjective(d1: nat, m1: nat, y1: int, d2: nat, m2: nat, y2: int)
    requires m1 < 12 && m2 < 12
    requires EditDate(d1, m1, y1) == EditDate(d2, m2, y2)
    ensures d1 == d2 && m1 == m2 && y1 == y2
  {
    NatToStringHasNo(d1, ' ');
    NatToStringHasNo(d2, ' ');
    MonthNamesHaveNoSpace(m1);
    MonthNamesHaveNoSpace(m2);
    SplitLabel(NatToString(d1), MonthNames[m1], IntToString(y1), NatToString(d2), MonthNames[m2], IntToString(y2));
    NatToStringInjective(d1, d2);
    MonthNamesDistinct(m1, m2);
    IntToStringInjective(y1, y2);
  }
}
