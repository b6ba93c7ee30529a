/** The blog page's controller: the elements the handlers change in place (the cards' "hidden"
    class, the buttons' "active" class, the grid's children and its "list-view" class) and
    the handlers themselves, each proved against the value-level definitions of BlogCards. */
module BlogView {
  import opened Wrappers
  import opened Text
  import opened BlogCards
  import opened Sorting
  import opened RateLimit

  /** A .blog-card element: what it shows is fixed; its "hidden" class is not. */
  class CardElement {
    const post: Post
    var hidden: bool

    constructor (post: Post, hidden: bool)
      ensures this.post == post && this.hidden == hidden
    {
      this.post := post;
      this.hidden := hidden;
    }
  }

  /** A .filter-btn or .view-btn element: its data-filter or data-view attribute (None when
      absent) and its "active" class. */
  class Button {
    const data: Option<string>
    var active: bool

    constructor (data: Option<string>, active: bool)
      ensures this.data == data && this.active == active
    {
      this.data := data;
      this.active := active;
    }
  }

  /** The cards as values: what each shows and whether it is hidden, in the order given. */
  function Cards(es: seq<CardElement>): (r: seq<Card>)
    reads es
    ensures |r| == |es|
  {
    seq(|es|, i requires 0 <= i < |es| reads es => Card(es[i].post, es[i].hidden))
  }

  /** The comparator of sortCards on card elements. */
  function ElementOrder(crit: Criterion): (CardElement, CardElement) -> int {
    (a: CardElement, b: CardElement) => Compare(crit, a.post, b.post)
  }

  // ---------------------------------------------------------------- child lists

  /** No element occurs twice (the children of a DOM node). */
  predicate Distinct<T(==)>(s: seq<T>) {
    forall i :: 0 <= i < |s| ==> multiset(s)[s[i]] == 1
  }

  lemma {:induction false} DistinctPermuted<T>(a: seq<T>, b: seq<T>)
    requires Distinct(a) && multiset(a) == multiset(b)
    ensures Distinct(b)
  {
    forall i | 0 <= i < |b| ensures multiset(b)[b[i]] == 1 {
      assert b[i] in multiset(a);
      var j :| 0 <= j < |a| && a[j] == b[i];
    }
  }

  /** s without x. */
  function Without<T(==)>(s: seq<T>, x: T): seq<T> {
    if s == [] then [] else (if s[0] == x then [] else [s[0]]) + Without(s[1..], x)
  }

  /** The elements of s that are not in xs, in their order in s. */
  function Keep<T(==)>(s: seq<T>, xs: seq<T>): seq<T> {
    if s == [] then [] else (if s[0] in xs then [] else [s[0]]) + Keep(s[1..], xs)
  }

  lemma {:induction false} WithoutAppend<T>(a: seq<T>, b: seq<T>, x: T)
    ensures Without(a + b, x) == Without(a, x) + Without(b, x)
    decreases |a|
  {
    if a != [] {
      assert (a + b)[1..] == a[1..] + b;
      WithoutAppend(a[1..], b, x);
    } else {
      assert a + b == b;
    }
  }

  lemma {:induction false} WithoutAbsent<T>(s: seq<T>, x: T)
    requires x !in s
    ensures Without(s, x) == s
    decreases |s|
  {
    if s != [] {
      WithoutAbsent(s[1..], x);
      assert s == [s[0]] + s[1..];
    }
  }

  lemma {:induction false} KeepOneMore<T>(s: seq<T>, xs: seq<T>, x: T)
    ensures Without(Keep(s, xs), x) == Keep(s, xs + [x])
    decreases |s|
  {
    if s != [] {
      var head := if s[0] in xs then [] else [s[0]];
      WithoutAppend(head, Keep(s[1..], xs), x);
      KeepOneMore(s[1..], xs, x);
      assert s[0] in xs + [x] <==> s[0] in xs || s[0] == x;
      if s[0] !in xs {
        assert Without(head, x) == (if s[0] == x then [] else [s[0]]) + Without([], x);
      }
    }
  }

  lemma {:induction false} KeepNone<T>(s: seq<T>)
    ensures Keep(s, []) == s
    decreases |s|
  {
    if s != [] {
      KeepNone(s[1..]);
      assert s == [s[0]] + s[1..];
    }
  }

  lemma {:induction false} KeepAll<T>(s: seq<T>, xs: seq<T>)
    requires forall y :: y in s ==> y in xs
    ensures Keep(s, xs) == []
    decreases |s|
  {
    if s != [] {
      assert s[0] in s;
      KeepAll(s[1..], xs);
    }
  }

  lemma {:induction false} DistinctAt<T>(s: seq<T>, i: int)
    requires Distinct(s) && 0 <= i < |s|
    ensures s[i] !in s[..i]
  {
    assert s == s[..i] + [s[i]] + s[i + 1..];
    assert multiset(s)[s[i]] == multiset(s[..i])[s[i]] + 1 + multiset(s[i + 1..])[s[i]];
  }

  /** One appendChild of the re-append loop: appending the next card of sorted to a child
      list made of the untouched cards followed by those appended so far. */
  lemma {:induction false} AppendStep<T>(cards: seq<T>, sorted: seq<T>, i: int)
    requires Distinct(sorted) && 0 <= i < |sorted|
    ensures Without(Keep(cards, sorted[..i]) + sorted[..i], sorted[i]) + [sorted[i]]
         == Keep(cards, sorted[..i + 1]) + sorted[..i + 1]
  {
    var x, done := sorted[i], sorted[..i];
    var rest := Keep(cards, done);
    DistinctAt(sorted, i);
    WithoutAppend(rest, done, x);
    WithoutAbsent(done, x);
    KeepOneMore(cards, done, x);
    assert done + [x] == sorted[..i + 1];
    assert Without(rest + done, x) == Keep(cards, done + [x]) + done;
    assert Keep(cards, done + [x]) + done + [x] == Keep(cards, done + [x]) + (done + [x]);
  }

  /** Once every card of a permutation of the child list has been appended, the child list is
      that permutation, and it keeps the invariants of a grid. */
  lemma {:induction false} ReappendDone<T>(cards: seq<T>, sorted: seq<T>, blogCards: seq<T>)
    requires multiset(sorted) == multiset(cards)
    requires Distinct(cards) && forall e :: e in cards ==> e in blogCards
    ensures Keep(cards, sorted) + sorted == sorted
    ensures Distinct(sorted) && forall e :: e in sorted ==> e in blogCards
  {
    forall y | y in cards ensures y in sorted {
      assert y in multiset(cards);
    }
    KeepAll(cards, sorted);
    DistinctPermuted(cards, sorted);
    forall e | e in sorted ensures e in blogCards {
      assert e in multiset(cards);
    }
  }

  /** The card a card element shows, with the "hidden" class recorded in hid. */
  function Snapshot(hid: map<CardElement, bool>): CardElement -> Card {
    (e: CardElement) => Card(e.post, if e in hid then hid[e] else false)
  }

  /** Sorting elements and sorting their snapshots agree, since both compare what cards show. */
  lemma SortSnapshot(crit: Criterion, hid: map<CardElement, bool>, es: seq<CardElement>)
    ensures Sort(CardOrder(crit), Map(Snapshot(hid), es)) == Map(Snapshot(hid), Sort(ElementOrder(crit), es))
  {
    var f := Snapshot(hid);
    forall a, b ensures CardOrder(crit)(f(a), f(b)) == ElementOrder(crit)(a, b) {
      assert f(a).post == a.post && f(b).post == b.post;
    }
    SortMap(ElementOrder(crit), CardOrder(crit), f, es);
  }

  /** Reading card elements as values is taking their snapshot, for a snapshot that records
      their current "hidden" classes. */
  lemma CardsAsSnapshot(es: seq<CardElement>, hid: map<CardElement, bool>)
    requires forall e :: e in es ==> e in hid && hid[e] == e.hidden
    ensures Cards(es) == Map(Snapshot(hid), es)
  {
    forall i | 0 <= i < |es| ensures Cards(es)[i] == Map(Snapshot(hid), es)[i] {
      assert es[i] in es;
    }
    assert Cards(es) == Map(Snapshot(hid), es);
  }

  /** Sorting the elements and then reading them as values is sorting the values. */
  lemma {:induction false} SortedSnapshot(crit: Criterion, es: seq<CardElement>)
    ensures Cards(Sort(ElementOrder(crit), es)) == SortedCards(crit, Cards(es))
  {
    var hid := map e | e in es :: e.hidden;
    var sorted := Sort(ElementOrder(crit), es);
    CardsAsSnapshot(es, hid);
    forall e | e in sorted ensures e in hid && hid[e] == e.hidden {
      assert e in multiset(es);
    }
    CardsAsSnapshot(sorted, hid);
    SortSnapshot(crit, hid, es);
  }

  // ---------------------------------------------------------------- the controller

  class Controller {
    /** document.querySelectorAll('.blog-card') when the page loaded. */
    const blogCards: seq<CardElement>
    const filterBtns: seq<Button>
    const viewBtns: seq<Button>
    /** Whether #blogGrid exists. */
    const hasGrid: bool
    /** The .blog-card elements inside #blogGrid, in document order. */
    var grid: seq<CardElement>
    /** Whether #blogGrid has the "list-view" class. */
    var listView: bool
    /** The debounce closure around the search handler. */
    const search: Debounce<string>

    predicate Valid()
      reads this, search
    {
      && search.Valid()
      && Distinct(grid)
      && (forall e :: e in grid ==> e in blogCards)
      && (!hasGrid ==> grid == [])
    }

    constructor (blogCards: seq<CardElement>, filterBtns: seq<Button>, viewBtns: seq<Button>,
                 hasGrid: bool, grid: seq<CardElement>, listView: bool)
      requires Distinct(grid) && (forall e :: e in grid ==> e in blogCards)
      requires !hasGrid ==> grid == []
      ensures Valid() && fresh(search)
      ensures this.blogCards == blogCards && this.filterBtns == filterBtns
      ensures this.viewBtns == viewBtns && this.hasGrid == hasGrid
      ensures this.grid == grid && this.listView == listView
      ensures search.State() == DebounceState(None, [])
    {
      this.blogCards := blogCards;
      this.filterBtns := filterBtns;
      this.viewBtns := viewBtns;
      this.hasGrid := hasGrid;
      this.grid := grid;
      this.listView := listView;
      search := new Debounce(300);
    }

    /** Set every card's "hidden" class from scratch: hidden exactly when shows rejects it. */
    method ApplyVisibility(shows: Post -> bool)
      modifies blogCards
      ensures Cards(blogCards) == Shown(old(Cards(blogCards)), shows)
    {
      for i := 0 to |blogCards|
        invariant forall c :: c in blogCards[..i] ==> c.hidden == !shows(c.post)
      {
        var c := blogCards[i];
        c.hidden := !shows(c.post);
        assert blogCards[..i + 1] == blogCards[..i] + [c];
      }
      assert blogCards[..|blogCards|] == blogCards;
    }

    /** A click on filter button k: it alone is active, and a card is shown iff the filter is
        'all' or the card's category. */
    method ClickFilter(k: nat)
      requires Valid() && k < |filterBtns|
      modifies filterBtns, blogCards
      ensures forall b :: b in filterBtns ==> b.active == (b == filterBtns[k])
      ensures Cards(blogCards) == FilterView(old(Cards(blogCards)), filterBtns[k].data)
    {
      for j := 0 to |filterBtns|
        invariant forall b :: b in filterBtns[..j] ==> !b.active
        invariant Cards(blogCards) == old(Cards(blogCards))
      {
        filterBtns[j].active := false;
        assert filterBtns[..j + 1] == filterBtns[..j] + [filterBtns[j]];
      }
      assert filterBtns[..|filterBtns|] == filterBtns;
      filterBtns[k].active := true;
      ApplyVisibility(FilterTest(filterBtns[k].data));
    }

    /** The debounced search handler, run with an already lower-cased term. */
    method ApplySearch(term: string)
      modifies blogCards
      ensures Cards(blogCards) == SearchView(old(Cards(blogCards)), term)
    {
      ApplyVisibility(SearchTest(term));
    }

    /** An input event: the lower-cased value goes to the debounced handler, replacing the
        term of any search still waiting. */
    method OnSearchInput(value: string)
      requires Valid()
      modifies search
      ensures Valid()
      ensures search.State() == DebounceStep(old(search.State()), Event.Call(Lower(value)))
    {
      search.Call(Lower(value));
    }

    /** The search timer id expires: the handler runs with the term of the last input. */
    method OnSearchTimer(id: nat)
      requires Valid() && id in search.timers
      modifies search, blogCards
      ensures Valid()
      ensures search.State() == DebounceStep(old(search.State()), Event.Expire)
      ensures Cards(blogCards) == SearchView(old(Cards(blogCards)), old(search.timers[id]))
    {
      var term := search.Fire(id);
      ApplySearch(term);
    }

    /** appendChild of a child of the grid: it moves to the end. */
    method AppendChild(e: CardElement)
      modifies this
      ensures grid == Without(old(grid), e) + [e]
      ensures listView == old(listView)
    {
      grid := Without(grid, e) + [e];
    }

    /** sorted.forEach(card => grid.appendChild(card)) for distinct elements: each moves to
        the end in turn, so the children not in sorted stay in front, in their order. */
    method Reappend(sorted: seq<CardElement>)
      requires Distinct(sorted)
      modifies this
      ensures grid == Keep(old(grid), sorted) + sorted
      ensures listView == old(listView)
    {
      var cards := grid;
      KeepNone(cards);
      assert sorted[..0] == [];
      for i := 0 to |sorted|
        invariant grid == Keep(cards, sorted[..i]) + sorted[..i]
        invariant listView == old(listView)
      {
        AppendStep(cards, sorted, i);
        AppendChild(sorted[i]);
      }
      assert sorted[..|sorted|] == sorted;
    }

    /** The grid's cards, sorted by Array.prototype.sort with the comparator of crit, are
        re-appended in order. */
    method SortGrid(crit: Criterion)
      requires Valid() && hasGrid
      modifies this
      ensures Valid() && listView == old(listView)
      ensures grid == Sort(ElementOrder(crit), old(grid))
    {
      var cards := grid;
      var sorted := Sort(ElementOrder(crit), cards);
      ReappendDone(cards, sorted, blogCards);
      Reappend(sorted);
    }

    /** sortCards(criteria): nothing without a grid; otherwise the grid sorted by the
        criterion, each card keeping its "hidden" class. */
    method SortCards(criteria: string)
      requires Valid()
      modifies this
      ensures Valid() && listView == old(listView)
      ensures grid == if hasGrid then Sort(ElementOrder(CriterionOf(criteria)), old(grid)) else old(grid)
      ensures Cards(grid) == SortedCards(CriterionOf(criteria), old(Cards(grid)))
      ensures multiset(grid) == multiset(old(grid))
      ensures forall e :: e in old(grid) ==> e.hidden == old(e.hidden)
    {
      if !hasGrid {
        assert Cards(grid) == [];
        return;
      }
      var crit := CriterionOf(criteria);
      ghost var cards := grid;
      SortedSnapshot(crit, cards);
      SortGrid(crit);
    }

    /** A click on view button k: where the grid exists it alone is active, and the grid is in
        list view iff the button's data-view is 'list'; without a grid no handler exists. */
    method ClickView(k: nat)
      requires Valid() && k < |viewBtns|
      modifies viewBtns, this
      ensures Valid() && grid == old(grid)
      ensures hasGrid ==> forall b :: b in viewBtns ==> b.active == (b == viewBtns[k])
      ensures hasGrid ==> listView == (viewBtns[k].data == Some("list"))
      ensures !hasGrid ==> listView == old(listView)
      ensures !hasGrid ==> forall b :: b in viewBtns ==> b.active == old(b.active)
    {
      if hasGrid {
        for j := 0 to |viewBtns|
          invariant forall b :: b in viewBtns[..j] ==> !b.active
          invariant grid == old(grid)
        {
          viewBtns[j].active := false;
          assert viewBtns[..j + 1] == viewBtns[..j] + [viewBtns[j]];
        }
        assert viewBtns[..|viewBtns|] == viewBtns;
        viewBtns[k].active := true;
        listView := viewBtns[k].data == Some("list");
      }
    }
  }
}
