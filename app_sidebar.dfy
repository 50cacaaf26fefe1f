/** The sidebar's menu and its search filter: the standalone links and the
    collapsible sections, narrowed to the items whose title contains the
    search text, ignoring case. */
module AppSidebar {
  import opened Text

  /** A menu link (its icon is not modelled). */
  datatype NavItem = NavItem(title: string, url: string)

  /** A collapsible group of links. */
  datatype NavSection = NavSection(title: string, url: string, items: seq<NavItem>)

  const StandaloneItems: seq<NavItem> := [
    NavItem("Home", "/"),
    NavItem("Dashboard", "/dashboard"),
    NavItem("Complaints", "/complaints")
  ]

  const NavMain: seq<NavSection> := [
    NavSection("Application Setup", "#", [
      NavItem("Issue Def", "/issue-def"),
      NavItem("Department Def", "/department-def"),
      NavItem("Company Def", "/company-def"),
      NavItem("Role Def", "/role-def"),
      NavItem("User Def", "/user-def")
    ])
  ]

  /** `a` is `b` with some elements left out, the rest in their order. */
  predicate SubseqOf<T(==)>(a: seq<T>, b: seq<T>)
    decreases |b|
  {
    if b == [] then a == []
    else (a != [] && a[0] == b[0] && SubseqOf(a[1..], b[1..])) || SubseqOf(a, b[1..])
  }

  /** A subsequence is no longer than the sequence it is taken from. */
  lemma {:induction false} SubseqShorter<T>(a: seq<T>, b: seq<T>)
    requires SubseqOf(a, b)
    ensures |a| <= |b|
    decreases |b|
  {
    if b != [] {
      if a != [] && a[0] == b[0] && SubseqOf(a[1..], b[1..]) {
        SubseqShorter(a[1..], b[1..]);
      } else {
        SubseqShorter(a, b[1..]);
      }
    }
  }

  /** `item.title.toLowerCase().includes(query.toLowerCase())`; the query is
      matched as typed, untrimmed. */
  predicate Matches(item: NavItem, query: string) {
    Contains(Lower(item.title), Lower(query))
  }

  /** `items.filter(matches)`: the matching items, in their order, each as
      many times as it occurs. */
  function FilterItems(items: seq<NavItem>, query: string): (kept: seq<NavItem>)
    ensures SubseqOf(kept, items)
    ensures forall x :: x in kept <==> x in items && Matches(x, query)
    ensures forall x :: multiset(kept)[x] == if Matches(x, query) then multiset(items)[x] else 0
  {
    if items == [] then []
    else
      var rest := FilterItems(items[1..], query);
      assert items == [items[0]] + items[1..];
      if Matches(items[0], query) then
        assert ([items[0]] + rest)[1..] == rest;
        [items[0]] + rest
      else rest
  }

  /** `sections.map(section => ({...section, items: filtered}))`: every
      section kept, with its title and url, its items narrowed. */
  function NarrowSections(sections: seq<NavSection>, query: string): (r: seq<NavSection>)
    ensures |r| == |sections|
    ensures forall i | 0 <= i < |r| ::
              r[i] == NavSection(sections[i].title, sections[i].url, FilterItems(sections[i].items, query))
  {
    if sections == [] then []
    else [sections[0].(items := FilterItems(sections[0].items, query))] + NarrowSections(sections[1..], query)
  }

  /** `.filter(section => section.items.length > 0)`: exactly the sections
      that still have items, in their order, each as many times as it
      occurs. */
  function KeepNonEmpty(sections: seq<NavSection>): (r: seq<NavSection>)
    ensures SubseqOf(r, sections)
    ensures forall s :: s in r <==> s in sections && |s.items| > 0
    ensures forall s :: multiset(r)[s] == if |s.items| > 0 then multiset(sections)[s] else 0
  {
    if sections == [] then []
    else
      var rest := KeepNonEmpty(sections[1..]);
      assert sections == [sections[0]] + sections[1..];
      if |sections[0].items| > 0 then
        assert ([sections[0]] + rest)[1..] == rest;
        [sections[0]] + rest
      else rest
  }

  /** `filteredNavMain`: the whole menu for a blank query, otherwise the
      narrowed sections that still have items. */
  function FilteredNavMain(query: string): (r: seq<NavSection>)
    ensures |r| <= |NavMain|
    ensures AllSpace(query) ==> r == NavMain
    ensures !AllSpace(query) ==> forall s | s in r :: |s.items| > 0 && forall x | x in s.items :: Matches(x, query)
  {
    if Trim(query) == "" then NavMain
    else
      var narrowed := NarrowSections(NavMain, query);
      SubseqShorter(KeepNonEmpty(narrowed), narrowed);
      NarrowedItemsMatch(NavMain, query);
      KeepNonEmpty(narrowed)
  }

  /** Every item left in a narrowed section matches the query. */
  lemma NarrowedItemsMatch(sections: seq<NavSection>, query: string)
    ensures forall s | s in NarrowSections(sections, query) :: forall x | x in s.items :: Matches(x, query)
  {
    var narrowed := NarrowSections(sections, query);
    forall s | s in narrowed
      ensures forall x | x in s.items :: Matches(x, query)
    {
      var i :| 0 <= i < |narrowed| && narrowed[i] == s;
    }
  }

  /** `filteredStandaloneItems`: all links for a blank query, otherwise the
      matching ones. */
  function FilteredStandaloneItems(query: string): (r: seq<NavItem>)
    ensures |r| <= |StandaloneItems|
    ensures forall x :: x in r <==> x in StandaloneItems && (AllSpace(query) || Matches(x, query))
  {
    if Trim(query) == "" then StandaloneItems
    else
      SubseqShorter(FilterItems(StandaloneItems, query), StandaloneItems);
      FilterItems(StandaloneItems, query)
  }

  /** A query of whitespace only leaves both menus as they are. */
  lemma BlankQueryShowsAll(query: string)
    requires AllSpace(query)
    ensures FilteredNavMain(query) == NavMain
    ensures FilteredStandaloneItems(query) == StandaloneItems
  {
  }

  /** For a query that is not blank, a section is listed exactly when one of
      its items matches, keeping its title and url and only its matching
      items; the listed sections keep the menu's order. */
  lemma SectionsOfQuery(query: string)
    requires !AllSpace(query)
    ensures SubseqOf(FilteredNavMain(query), NarrowSections(NavMain, query))
    ensures forall s | s in FilteredNavMain(query) ::
              && |s.items| > 0
              && (forall x | x in s.items :: Matches(x, query))
              && exists i | 0 <= i < |NavMain| :: s == NavSection(NavMain[i].title, NavMain[i].url, FilterItems(NavMain[i].items, query))
    ensures forall i | 0 <= i < |NavMain| ::
              (exists x | x in NavMain[i].items :: Matches(x, query)) ==>
                NavSection(NavMain[i].title, NavMain[i].url, FilterItems(NavMain[i].items, query)) in FilteredNavMain(query)
  {
    var narrowed := NarrowSections(NavMain, query);
    forall s | s in FilteredNavMain(query)
      ensures exists i | 0 <= i < |NavMain| :: s == NavSection(NavMain[i].title, NavMain[i].url, FilterItems(NavMain[i].items, query))
    {
      var i :| 0 <= i < |narrowed| && narrowed[i] == s;
    }
    forall i | 0 <= i < |NavMain| && exists x | x in NavMain[i].items :: Matches(x, query)
      ensures NavSection(NavMain[i].title, NavMain[i].url, FilterItems(NavMain[i].items, query)) in FilteredNavMain(query)
    {
      var x :| x in NavMain[i].items && Matches(x, query);
      assert x in narrowed[i].items;
    }
  }

  /** Filtering again with the same query changes nothing. */
  lemma {:induction false} FilterIdempotent(items: seq<NavItem>, query: string)
    ensures FilterItems(FilterItems(items, query), query) == FilterItems(items, query)
    decreases |items|
  {
    if items != [] {
      FilterIdempotent(items[1..], query);
      var rest := FilterItems(items[1..], query);
      if Matches(items[0], query) {
        assert ([items[0]] + rest)[1..] == rest;
      }
    }
  }

  /** ASCII case folding: lower-casing an upper-cased string is lower-casing
      the string. */
  lemma LowerOfUpper(s: string)
    ensures Lower(Upper(s)) == Lower(s)
  {
    assert forall i | 0 <= i < |s| :: LowerChar(UpperChar(s[i])) == LowerChar(s[i]);
  }

  /** Filtering does not depend on the case the query is typed in. */
  lemma {:induction false} FilterIgnoresCase(items: seq<NavItem>, query: string)
    ensures FilterItems(items, Upper(query)) == FilterItems(items, query)
    decreases |items|
  {
    LowerOfUpper(query);
    if items != [] {
      FilterIgnoresCase(items[1..], query);
    }
  }

  /** Lower-casing neither adds nor removes spaces. */
  lemma LowerKeepsSpaces(s: string)
    ensures ' ' in Lower(s) <==> ' ' in s
  {
    if ' ' in s {
      var i :| 0 <= i < |s| && s[i] == ' ';
      assert Lower(s)[i] == ' ';
    }
    if ' ' in Lower(s) {
      var i :| 0 <= i < |Lower(s)| && Lower(s)[i] == ' ';
      assert s[i] == ' ';
    }
  }

  /** A query holding a space never matches a title without one. */
  lemma SpaceNeverMatches(item: NavItem, query: string)
    requires ' ' !in item.title && ' ' in query
    ensures !Matches(item, query)
  {
    LowerKeepsSpaces(item.title);
    LowerKeepsSpaces(query);
    var hay := Lower(item.title);
    var needle := Lower(query);
    var p :| 0 <= p < |needle| && needle[p] == ' ';
  }

  /** Filtering keeps nothing when no item matches. */
  lemma NothingMatches(items: seq<NavItem>, query: string)
    requires forall x | x in items :: !Matches(x, query)
    ensures FilterItems(items, query) == []
  {
  }

  /** The query is matched untrimmed: a search such as `" home"`, with a
      space the emptiness check forgives, hides every standalone link, since
      none of their titles holds a space. */
  lemma PaddedQueryHidesStandalone(query: string)
    requires ' ' in query && !AllSpace(query)
    ensures FilteredStandaloneItems(query) == []
  {
    var items := StandaloneItems;
    assert forall x | x in items :: ' ' !in x.title;
    forall x | x in items
      ensures !Matches(x, query)
    {
      SpaceNeverMatches(x, query);
    }
    NothingMatches(items, query);
  }
}
