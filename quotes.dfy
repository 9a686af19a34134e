/** The quote record, the store's built-in default contents, and lookup of a
    record by its identifier. */
module Quotes {

  datatype Option<T> = None | Some(value: T)

  /** A quote record. `id` is absent for records that arrived without one
      (an imported file is appended without any check of its elements). */
  datatype Quote = Quote(id: Option<int>, text: string, category: string)

  /** The identifiers of a list of quotes, position by position. */
  function IdsOf(qs: seq<Quote>): (ids: seq<Option<int>>)
    ensures |ids| == |qs|
    ensures forall i :: 0 <= i < |qs| ==> ids[i] == qs[i].id
  {
    seq(|qs|, i requires 0 <= i < |qs| => qs[i].id)
  }

  /** `findIndex(q => q.id === id)`: the first position holding `id`, or
      None when no record carries it. Two absent identifiers are equal, as
      `undefined === undefined` is. */
  function FindById(qs: seq<Quote>, id: Option<int>): (r: Option<nat>)
    ensures r.Some? ==> r.value < |qs| && qs[r.value].id == id
    ensures r.Some? ==> forall j :: 0 <= j < r.value ==> qs[j].id != id
    ensures r.None? <==> id !in IdsOf(qs)
  {
    if qs == [] then None
    else if qs[0].id == id then Some(0)
    else
      assert IdsOf(qs) == [qs[0].id] + IdsOf(qs[1..]);
      match FindById(qs[1..], id)
      case None => None
      case Some(i) => Some(i + 1)
  }

  /** The first position carrying `id` is the one `FindById` reports. */
  lemma FindByIdFirst(qs: seq<Quote>, id: Option<int>, i: nat)
    requires i < |qs| && qs[i].id == id
    requires forall j :: 0 <= j < i ==> qs[j].id != id
    ensures FindById(qs, id) == Some(i)
  {
    assert IdsOf(qs)[i] == id;
  }

  /** The three quotes shown when nothing has been saved yet. */
  function DefaultQuotes(): seq<Quote>
  {
    [ Quote(Some(1), "The best way to get started is to quit talking and begin doing.", "Motivation"),
      Quote(Some(2), "Life is what happens when you\U{2019}re busy making other plans.", "Life"),
      Quote(Some(3), "Do not let what you cannot do interfere with what you can do.", "Inspiration") ]
  }

  /** The store at page load: the saved list when one was saved, otherwise
      the defaults. `stored` is None when the storage key is absent or holds
      the empty string. */
  function LoadQuotes(stored: Option<seq<Quote>>): (r: seq<Quote>)
    ensures stored.Some? ==> r == stored.value
    ensures stored.None? ==> |r| == 3 && r[0].id == Some(1) && r[1].id == Some(2) && r[2].id == Some(3)
  {
    match stored
    case Some(saved) => saved
    case None => DefaultQuotes()
  }
}
