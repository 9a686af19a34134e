/** What the page shows from the store: the options of the category filter,
    the quotes the selected filter lets through, and the one quote drawn
    from them. */
module Catalog {
  import opened Sequences
  import opened Quotes

  /** The filter value that lets every quote through. */
  const All: string := "all"

  /** `localStorage.getItem('selectedCategory') || 'all'`: a missing or
      empty saved value falls back to "all". */
  function SelectedCategory(saved: Option<string>): (c: string)
    ensures c != ""
    ensures c == All <==> saved.None? || saved.value == "" || saved.value == All
    ensures saved.Some? && saved.value != "" ==> c == saved.value
  {
    match saved
    case Some(v) => if v == "" then All else v
    case None => All
  }

  /** `quotes.map(q => q.category)`. */
  function CategoriesOf(qs: seq<Quote>): (cs: seq<string>)
    ensures |cs| == |qs|
    ensures forall i :: 0 <= i < |qs| ==> cs[i] == qs[i].category
  {
    seq(|qs|, i requires 0 <= i < |qs| => qs[i].category)
  }

  /** `['all', ...new Set(quotes.map(q => q.category))]`: "all" first, then
      every category of the store once, in order of first appearance. */
  function CategoryOptions(qs: seq<Quote>): (opts: seq<string>)
    ensures |opts| >= 1 && opts[0] == All
    ensures forall i :: 1 <= i < |opts| ==> exists q :: q in qs && q.category == opts[i]
    ensures forall q :: q in qs ==> q.category in opts[1..]
    ensures forall i, j :: 1 <= i < j < |opts| ==> opts[i] != opts[j]
  {
    var cs := CategoriesOf(qs);
    var opts := [All] + Distinct(cs, []);
    assert opts[1..] == Distinct(cs, []);
    assert forall i :: 1 <= i < |opts| ==> opts[i] in cs;
    assert forall q :: q in qs ==> q.category in cs by {
      forall q | q in qs ensures q.category in cs {
        var i :| 0 <= i < |qs| && qs[i] == q;
        assert cs[i] == q.category;
      }
    }
    opts
  }

  /** The categories after "all" are listed in the order in which they first
      occur in the store. */
  lemma CategoryOptionsInStoreOrder(qs: seq<Quote>)
    ensures InFirstOccurrenceOrder(CategoryOptions(qs)[1..], CategoriesOf(qs))
  {
    assert CategoryOptions(qs)[1..] == Distinct(CategoriesOf(qs), []);
    DistinctKeepsFirstOccurrenceOrder(CategoriesOf(qs), []);
  }

  /** "all" is listed exactly once, unless a quote itself has the category
      "all", in which case it is listed a second time. */
  lemma AllListedOnceUnlessUsed(qs: seq<Quote>)
    ensures All in CategoryOptions(qs)[1..] <==> exists q :: q in qs && q.category == All
  {
    var opts := CategoryOptions(qs);
    if All in opts[1..] {
      var i :| 0 <= i < |opts[1..]| && opts[1..][i] == All;
      assert opts[i + 1] == All;
    }
  }

  /** `quotes.filter(q => q.category === category)`. */
  function FilterByCategory(qs: seq<Quote>, category: string): (r: seq<Quote>)
    ensures |r| <= |qs|
    ensures forall q :: q in r <==> q in qs && q.category == category
  {
    if qs == [] then []
    else
      assert qs == [qs[0]] + qs[1..];
      (if qs[0].category == category then [qs[0]] else []) + FilterByCategory(qs[1..], category)
  }

  /** The filter keeps every quote of the category as many times as the
      store holds it, and no other quote. */
  lemma {:induction false} FilterKeepsMultiplicity(qs: seq<Quote>, category: string, q: Quote)
    ensures multiset(FilterByCategory(qs, category))[q]
         == if q.category == category then multiset(qs)[q] else 0
  {
    if qs != [] {
      assert qs == [qs[0]] + qs[1..];
      FilterKeepsMultiplicity(qs[1..], category, q);
    }
  }

  /** Filtering a concatenation filters each part and keeps them in order,
      so the filter never reorders the store. */
  lemma {:induction false} FilterDistributes(a: seq<Quote>, b: seq<Quote>, category: string)
    ensures FilterByCategory(a + b, category) == FilterByCategory(a, category) + FilterByCategory(b, category)
  {
    if a != [] {
      var head := if a[0].category == category then [a[0]] else [];
      assert (a + b)[0] == a[0];
      assert (a + b)[1..] == a[1..] + b;
      assert FilterByCategory(a + b, category) == head + FilterByCategory(a[1..] + b, category);
      assert FilterByCategory(a, category) == head + FilterByCategory(a[1..], category);
      FilterDistributes(a[1..], b, category);
    } else {
      assert a + b == b;
    }
  }

  /** The quotes the selected filter lets through: the whole store for
      "all", otherwise those of the selected category. */
  function Candidates(qs: seq<Quote>, selected: string): (r: seq<Quote>)
    ensures selected == All ==> r == qs
    ensures forall q :: q in r <==> q in qs && (selected == All || q.category == selected)
    ensures |r| <= |qs|
  {
    if selected == All then qs else FilterByCategory(qs, selected)
  }

  /** `Math.floor(Math.random() * n)` for a draw in [0, 1): a valid index. */
  function RandomIndex(random: real, n: nat): (i: nat)
    requires 0.0 <= random < 1.0 && n > 0
    ensures i < n
    ensures i as real <= random * n as real < i as real + 1.0
  {
    var x := random * n as real;
    ScaledBelow(random, n as real);
    var f := x.Floor;
    assert f as real <= x < f as real + 1.0;
    assert f as real < n as real;
    assert -1.0 < f as real;
    f
  }

  /** A draw in [0, 1) scaled by a positive bound lies in [0, bound). */
  lemma ScaledBelow(r: real, n: real)
    requires 0.0 <= r < 1.0 && n > 0.0
    ensures 0.0 <= r * n < n
  {
    assert n - r * n == (1.0 - r) * n;
  }

  /** What the quote display ends up showing. */
  datatype Display = NoQuotesAvailable | Showing(quote: Quote)

  /** `showRandomQuote`: with no candidate, the "no quotes available"
      message; otherwise the candidate at the drawn index. */
  function ShowRandomQuote(qs: seq<Quote>, saved: Option<string>, random: real): (d: Display)
    requires 0.0 <= random < 1.0
    ensures d.NoQuotesAvailable? <==> Candidates(qs, SelectedCategory(saved)) == []
    ensures d.Showing? ==> d.quote in Candidates(qs, SelectedCategory(saved)) && d.quote in qs
    ensures d.Showing? && SelectedCategory(saved) != All ==> d.quote.category == SelectedCategory(saved)
  {
    var candidates := Candidates(qs, SelectedCategory(saved));
    if |candidates| == 0 then NoQuotesAvailable
    else Showing(candidates[RandomIndex(random, |candidates|)])
  }

  /** With the "all" filter, any quote of a non-empty store can be the one
      shown: each index is reached by some draw. */
  lemma EveryQuoteCanBeShown(qs: seq<Quote>, i: nat)
    requires i < |qs|
    ensures var random := i as real / |qs| as real;
      0.0 <= random < 1.0 && ShowRandomQuote(qs, None, random) == Showing(qs[i])
  {
    var n := |qs| as real;
    var random := i as real / n;
    assert random * n == i as real;
    assert random < 1.0 by {
      assert i as real < n;
    }
    assert RandomIndex(random, |qs|) == i;
  }
}
