/** The blog cards and the pure logic the controller applies to them: the visibility the filter
    and search handlers compute, the comparator sortCards hands to Array.prototype.sort, and the
    stable sort ECMA-262 requires of Array.prototype.sort (2019 edition, section 22.1.3.27). */
module BlogCards {
  import opened Wrappers
  import opened Text
  import opened ReadTime
  import opened DateKeys
  import opened Sorting

  /** What a .blog-card element shows: its data-category attribute (None when absent), and the
      text of its .blog-title, .blog-excerpt, .blog-date and .blog-read-time elements. */
  datatype Post = Post(category: Option<string>, title: string, excerpt: string,
                       dateText: string, readTimeText: string)

  /** A card element: what it shows, and whether it carries the "hidden" class. */
  datatype Card = Card(post: Post, hidden: bool)

  predicate Visible(c: Card) {
    !c.hidden
  }

  // ---------------------------------------------------------------- visibility

  /** The card c with its "hidden" class set from scratch by the predicate shows. */
  function Restyle(c: Card, shows: Post -> bool): Card {
    Card(c.post, !shows(c.post))
  }

  /** Every card restyled by shows, in place. */
  function Shown(cs: seq<Card>, shows: Post -> bool): (r: seq<Card>)
    ensures |r| == |cs|
    ensures forall i :: 0 <= i < |cs| ==> r[i].post == cs[i].post && (Visible(r[i]) <==> shows(cs[i].post))
  {
    seq(|cs|, i requires 0 <= i < |cs| => Restyle(cs[i], shows))
  }

  /** The filter handler's test: the filter is 'all' or equals the card's data-category
      (=== on two possibly-null attributes). */
  predicate FilterShows(filter: Option<string>, p: Post)
    ensures filter == Some("all") ==> FilterShows(filter, p)
    ensures filter.None? ==> (FilterShows(filter, p) <==> p.category.None?)
  {
    filter == Some("all") || p.category == filter
  }

  /** The search handler's test, for a term the input handler has already lower-cased. */
  predicate SearchShows(term: string, p: Post)
    ensures term == [] ==> SearchShows(term, p)
    ensures SearchShows(term, p) <==>
      (exists i :: OccursAt(Lower(p.title), term, i)) || (exists i :: OccursAt(Lower(p.excerpt), term, i))
  {
    ContainsAt(Lower(p.title), term);
    ContainsAt(Lower(p.excerpt), term);
    Contains(Lower(p.title), term) || Contains(Lower(p.excerpt), term)
  }

  /** The two tests as the predicates the handlers apply to every card. */
  function FilterTest(filter: Option<string>): Post -> bool {
    p => FilterShows(filter, p)
  }

  function SearchTest(term: string): Post -> bool {
    p => SearchShows(term, p)
  }

  function FilterView(cs: seq<Card>, filter: Option<string>): (r: seq<Card>)
    ensures |r| == |cs|
  {
    Shown(cs, FilterTest(filter))
  }

  function SearchView(cs: seq<Card>, term: string): (r: seq<Card>)
    ensures |r| == |cs|
  {
    Shown(cs, SearchTest(term))
  }

  // ---------------------------------------------------------------- sort keys and comparator

  /** The sort criteria sortCards recognises; any other value of the select is Unsorted. */
  datatype Criterion = Newest | Oldest | Shortest | Longest | Unsorted

  function CriterionOf(value: string): (r: Criterion)
    ensures r == Newest <==> value == "newest"
    ensures r == Oldest <==> value == "oldest"
    ensures r == Shortest <==> value == "shortest"
    ensures r == Longest <==> value == "longest"
  {
    if value == "newest" then Newest
    else if value == "oldest" then Oldest
    else if value == "shortest" then Shortest
    else if value == "longest" then Longest
    else Unsorted
  }

  /** The date key of a card: white space around its date text is ignored. */
  function DateOf(p: Post): (r: JsNumber)
    ensures Count(p.dateText, '/') != 2 ==> r == Finite(0)
  {
    CountTrim(p.dateText, '/');
    ParseDateString(Trim(p.dateText))
  }

  /** The read minutes of a card: a read-time text without a digit gives 0. */
  function MinutesOf(p: Post): (r: nat)
    ensures NoDigits(p.readTimeText) ==> r == 0
  {
    ReadMinutes(Trim(p.readTimeText))
  }

  /** SortCompare's NaN rule: a comparator result of NaN counts as +0. */
  function ZeroIfNaN(v: JsNumber): int {
    if v.NaN? then 0 else v.value
  }

  /** The comparator of sortCards on the keys it computes for two cards a and b (their date
      keys and read minutes), as Array.prototype.sort sees its result. */
  function CompareKeys(crit: Criterion, da: JsNumber, db: JsNumber, ma: nat, mb: nat): (r: int)
    ensures crit == Shortest ==> (r < 0 <==> ma < mb) && (r == 0 <==> ma == mb)
    ensures crit == Longest ==> (r < 0 <==> ma > mb) && (r == 0 <==> ma == mb)
    ensures crit == Oldest && da.Finite? && db.Finite? ==>
      (r < 0 <==> da.value < db.value) && (r == 0 <==> da.value == db.value)
    ensures crit == Newest && da.Finite? && db.Finite? ==>
      (r < 0 <==> da.value > db.value) && (r == 0 <==> da.value == db.value)
    ensures (crit == Oldest || crit == Newest) && (da.NaN? || db.NaN?) ==> r == 0
    ensures crit == Unsorted ==> r == 0
  {
    match crit
    case Newest => ZeroIfNaN(Sub(db, da))
    case Oldest => ZeroIfNaN(Sub(da, db))
    case Shortest => ma - mb
    case Longest => mb - ma
    case Unsorted => 0
  }

  /** The comparator of sortCards on two cards. It is antisymmetric: swapping the cards negates
      the result. */
  function Compare(crit: Criterion, a: Post, b: Post): (r: int)
    ensures r == -CompareKeys(crit, DateOf(b), DateOf(a), MinutesOf(b), MinutesOf(a))
  {
    CompareKeys(crit, DateOf(a), DateOf(b), MinutesOf(a), MinutesOf(b))
  }

  /** Where crit places a card with date key d and read minutes m on a line, or NaN when its
      date key is NaN. */
  function RankOf(crit: Criterion, d: JsNumber, m: nat): JsNumber {
    match crit
    case Newest => Sub(Finite(0), d)
    case Oldest => d
    case Shortest => Finite(m)
    case Longest => Finite(-(m as int))
    case Unsorted => Finite(0)
  }

  function Rank(crit: Criterion, p: Post): JsNumber {
    RankOf(crit, DateOf(p), MinutesOf(p))
  }

  function Key(crit: Criterion, p: Post): int {
    var r := Rank(crit, p);
    if r.Finite? then r.value else 0
  }

  /** Every card has a rank: the comparator is then consistent in the sense of section
      22.1.3.27, and the sorted order is fully specified. */
  predicate Ranked(crit: Criterion, cs: seq<Card>) {
    forall i :: 0 <= i < |cs| ==> Rank(crit, cs[i].post).Finite?
  }

  /** The comparator and the key as the functions Array.prototype.sort and its lemmas take:
      both read only what a card shows, never its "hidden" class. */
  function CardOrder(crit: Criterion): (Card, Card) -> int {
    (a: Card, b: Card) => Compare(crit, a.post, b.post)
  }

  function CardKey(crit: Criterion): Card -> int {
    (c: Card) => Key(crit, c.post)
  }

  /** The order sortCards leaves the cards in. */
  function SortedCards(crit: Criterion, cs: seq<Card>): (r: seq<Card>)
    ensures multiset(r) == multiset(cs)
  {
    Sort(CardOrder(crit), cs)
  }

  // ---------------------------------------------------------------- lemmas: the comparator

  lemma CardOrderIs(crit: Criterion, a: Card, b: Card)
    ensures CardOrder(crit)(a, b) == Compare(crit, a.post, b.post)
  {
  }

  lemma CardKeyIs(crit: Criterion, c: Card)
    ensures CardKey(crit)(c) == Key(crit, c.post)
  {
  }

  /** For ranked keys the comparator is the difference of the ranks. */
  lemma CompareKeysIsRankDifference(crit: Criterion, da: JsNumber, db: JsNumber, ma: nat, mb: nat)
    requires RankOf(crit, da, ma).Finite? && RankOf(crit, db, mb).Finite?
    ensures CompareKeys(crit, da, db, ma, mb) == RankOf(crit, da, ma).value - RankOf(crit, db, mb).value
  {
  }

  /** For ranked cards the comparator is the difference of their keys. */
  lemma CompareIsKeyDifference(crit: Criterion, a: Post, b: Post)
    requires Rank(crit, a).Finite? && Rank(crit, b).Finite?
    ensures Compare(crit, a, b) == Key(crit, a) - Key(crit, b)
  {
    CompareKeysIsRankDifference(crit, DateOf(a), DateOf(b), MinutesOf(a), MinutesOf(b));
  }

  /** When every card is ranked, the comparator is consistent with the key. */
  lemma RankedConsistent(crit: Criterion, cs: seq<Card>)
    requires Ranked(crit, cs)
    ensures Consistent(CardOrder(crit), CardKey(crit), cs)
  {
    forall a, b | a in cs && b in cs
      ensures CardOrder(crit)(a, b) > 0 <==> CardKey(crit)(a) > CardKey(crit)(b)
    {
      CardOrderIs(crit, a, b);
      CardKeyIs(crit, a);
      CardKeyIs(crit, b);
      CompareIsKeyDifference(crit, a.post, b.post);
    }
  }

  // ---------------------------------------------------------------- lemmas: the sort

  /** sortCards only reorders: the same cards, each with its content and "hidden" class. */
  lemma SortPermutes(crit: Criterion, cs: seq<Card>)
    ensures multiset(SortedCards(crit, cs)) == multiset(cs)
    ensures forall c :: c in SortedCards(crit, cs) <==> c in cs
  {
    var r := SortedCards(crit, cs);
    forall c ensures c in r <==> c in cs {
      assert c in r <==> c in multiset(r);
    }
  }

  /** What rank order means for each criterion, for two ranked cards a before b. */
  lemma RankOrderMeans(crit: Criterion, da: JsNumber, db: JsNumber, ma: nat, mb: nat)
    requires RankOf(crit, da, ma).Finite? && RankOf(crit, db, mb).Finite?
    requires RankOf(crit, da, ma).value <= RankOf(crit, db, mb).value
    ensures crit == Shortest ==> ma <= mb
    ensures crit == Longest ==> ma >= mb
    ensures crit == Oldest ==> da.Finite? && db.Finite? && da.value <= db.value
    ensures crit == Newest ==> da.Finite? && db.Finite? && da.value >= db.value
  {
  }

  /** a may stand before b under crit: read minutes non-decreasing for shortest (non-increasing
      for longest), date keys defined and non-decreasing for oldest (non-increasing for newest). */
  predicate InOrder(crit: Criterion, a: Post, b: Post) {
    && (crit == Shortest ==> MinutesOf(a) <= MinutesOf(b))
    && (crit == Longest ==> MinutesOf(a) >= MinutesOf(b))
    && (crit == Oldest ==> DateOf(a).Finite? && DateOf(b).Finite? && DateOf(a).value <= DateOf(b).value)
    && (crit == Newest ==> DateOf(a).Finite? && DateOf(b).Finite? && DateOf(a).value >= DateOf(b).value)
  }

  lemma KeyOrderMeans(crit: Criterion, a: Post, b: Post)
    requires Rank(crit, a).Finite? && Rank(crit, b).Finite?
    requires Key(crit, a) <= Key(crit, b)
    ensures InOrder(crit, a, b)
  {
    RankOrderMeans(crit, DateOf(a), DateOf(b), MinutesOf(a), MinutesOf(b));
  }

  /** sortCards' promise per criterion, when no date key is NaN: any two cards stand in the
      order the criterion names. */
  lemma SortedByCriterion(crit: Criterion, cs: seq<Card>)
    requires Ranked(crit, cs)
    ensures Ranked(crit, SortedCards(crit, cs))
    ensures var r := SortedCards(crit, cs);
      forall i, j :: 0 <= i < j < |r| ==> InOrder(crit, r[i].post, r[j].post)
  {
    var r := SortedCards(crit, cs);
    RankedConsistent(crit, cs);
    SortOrdered(CardOrder(crit), CardKey(crit), cs);
    SortPermutes(crit, cs);
    forall i | 0 <= i < |r| ensures Rank(crit, r[i].post).Finite? {
      assert r[i] in cs;
    }
    forall i, j | 0 <= i < j < |r| ensures InOrder(crit, r[i].post, r[j].post) {
      CardKeyIs(crit, r[i]);
      CardKeyIs(crit, r[j]);
      KeyOrderMeans(crit, r[i].post, r[j].post);
    }
  }

  /** Stability: the cards of any one key keep their relative order. */
  lemma SortedCardsStable(crit: Criterion, cs: seq<Card>, k: int)
    requires Ranked(crit, cs)
    ensures Ties(CardKey(crit), SortedCards(crit, cs), k) == Ties(CardKey(crit), cs, k)
  {
    RankedConsistent(crit, cs);
    SortStable(CardOrder(crit), CardKey(crit), cs, k);
  }

  lemma CompareUnsorted(a: Post, b: Post)
    ensures Compare(Unsorted, a, b) == 0
  {
  }

  lemma UnsortedNeverGreater()
    ensures forall a, b :: CardOrder(Unsorted)(a, b) <= 0
  {
    forall a: Card, b: Card ensures CardOrder(Unsorted)(a, b) <= 0 {
      CardOrderIs(Unsorted, a, b);
      CompareUnsorted(a.post, b.post);
    }
  }

  /** Under an unrecognised criterion the comparator is constantly 0 and the order stays. */
  lemma UnsortedKeepsOrder(cs: seq<Card>)
    ensures SortedCards(Unsorted, cs) == cs
  {
    UnsortedNeverGreater();
    SortNeverGreater(CardOrder(Unsorted), cs);
  }

  /** Cards reading 3, 10 and 1 minutes sort shortest-first as 1, 3, 10. */
  lemma ShortestExample(a: Card, b: Card, c: Card)
    requires MinutesOf(a.post) == 3 && MinutesOf(b.post) == 10 && MinutesOf(c.post) == 1
    ensures SortedCards(Shortest, [a, b, c]) == [c, a, b]
  {
    CardOrderIs(Shortest, a, b);
    CardOrderIs(Shortest, b, c);
    CardOrderIs(Shortest, a, c);
    SortLastToFront(CardOrder(Shortest), a, b, c);
  }

  /** Sorting and recomputing visibility commute: the sort moves each card with its "hidden"
      class, and the comparator never reads that class. */
  lemma SortCommutesWithShown(crit: Criterion, cs: seq<Card>, shows: Post -> bool)
    ensures SortedCards(crit, Shown(cs, shows)) == Shown(SortedCards(crit, cs), shows)
  {
    var f := (c: Card) => Restyle(c, shows);
    SortMap(CardOrder(crit), CardOrder(crit), f, cs);
    assert Shown(cs, shows) == Map(f, cs);
    assert Shown(SortedCards(crit, cs), shows) == Map(f, SortedCards(crit, cs));
  }

  // ---------------------------------------------------------------- lemmas: the two handlers

  /** After a filter click a card is visible iff the filter is 'all' or its category; what
      every card shows and the order of the cards are unchanged. */
  lemma FilterVisibility(cs: seq<Card>, filter: Option<string>)
    ensures |FilterView(cs, filter)| == |cs|
    ensures forall i :: 0 <= i < |cs| ==>
      && FilterView(cs, filter)[i].post == cs[i].post
      && (Visible(FilterView(cs, filter)[i]) <==> filter == Some("all") || cs[i].post.category == filter)
  {
  }

  /** The 'all' button shows every card. */
  lemma FilterAllShowsEverything(cs: seq<Card>)
    ensures forall c :: c in FilterView(cs, Some("all")) ==> Visible(c)
  {
  }

  /** After a search with term t a card is visible iff its lower-cased title or excerpt
      contains t, whatever the active filter. */
  lemma SearchVisibility(cs: seq<Card>, term: string)
    ensures |SearchView(cs, term)| == |cs|
    ensures forall i :: 0 <= i < |cs| ==>
      && SearchView(cs, term)[i].post == cs[i].post
      && (Visible(SearchView(cs, term)[i]) <==>
            Contains(Lower(cs[i].post.title), term) || Contains(Lower(cs[i].post.excerpt), term))
  {
  }

  /** An empty search term shows every card. */
  lemma EmptySearchShowsEverything(cs: seq<Card>)
    ensures forall c :: c in SearchView(cs, "") ==> Visible(c)
  {
    forall c | c in SearchView(cs, "") ensures Visible(c) {
      ContainsEmpty(Lower(c.post.title));
    }
  }

  /** Each handler overwrites the "hidden" class from scratch: the last one to run alone
      decides visibility (running the same one twice is the same as running it once). */
  lemma LastHandlerWins(cs: seq<Card>, first: Post -> bool, second: Post -> bool)
    ensures Shown(Shown(cs, first), second) == Shown(cs, second)
  {
  }

  /** So a search does not intersect with the active filter: under filter 'a', an empty search
      brings back a card of category 'b' that the filter had hidden. */
  lemma SearchOverridesFilter()
    ensures var cs := [Card(Post(Some("b"), "", "", "", ""), false)];
      && !Visible(FilterView(cs, Some("a"))[0])
      && Visible(SearchView(FilterView(cs, Some("a")), "")[0])
  {
    var cs := [Card(Post(Some("b"), "", "", "", ""), false)];
    assert Some("b") != Some("a") by {
      assert "b"[0] != "a"[0];
    }
    ContainsEmpty(Lower(""));
  }
}
