/** The page's quote store and the handlers that change it: the add-quote
    form, the JSON import and the server sync. Saving to storage, rebuilding
    the filter options and redrawing follow each change in the page; they
    do not change the store. */
module Store {
  import opened Quotes
  import opened Text
  import opened Sync

  /** The add-quote form's check: both fields are trimmed, and only when
      neither is empty is there a record to append, stamped with `now`. */
  function NewQuote(text: string, category: string, now: int): (r: Option<Quote>)
    ensures r.Some? <==> HasContent(text) && HasContent(category)
    ensures r.Some? ==> r.value.id == Some(now)
    ensures r.Some? ==> r.value.text == Trim(text) && r.value.category == Trim(category)
  {
    var t := Trim(text);
    var c := Trim(category);
    if t != [] && c != [] then Some(Quote(Some(now), t, c)) else None
  }

  /** The record the form appends has no surrounding white space left to
      trim. */
  lemma NewQuoteIsTrimmed(text: string, category: string, now: int)
    requires NewQuote(text, category, now).Some?
    ensures var q := NewQuote(text, category, now).value;
      Trim(q.text) == q.text && Trim(q.category) == q.category && q.text != [] && q.category != []
  {
    TrimIdempotent(text);
    TrimIdempotent(category);
  }

  /** The outcome of `JSON.parse` on an uploaded file. */
  datatype Parsed = Unparsable | NotAnArray | AnArray(items: seq<Quote>)

  /** Which message the import shows. */
  datatype ImportOutcome = Imported | InvalidFormat | ReadError

  /** The outcome of fetching the remote posts. */
  datatype ServerResponse = FetchFailed | Received(posts: seq<Post>)

  /** Which notification the sync shows. */
  datatype SyncOutcome = SyncFailed | Synced(conflictsResolved: nat)

  class QuoteStore {
    /** The in-memory list of quotes, in insertion order. */
    var quotes: seq<Quote>

    /** Page load: the saved list, or the three default quotes. */
    constructor (saved: Option<seq<Quote>>)
      ensures quotes == LoadQuotes(saved)
    {
      quotes := LoadQuotes(saved);
    }

    /** The "Add Quote" click handler. */
    method AddQuote(text: string, category: string, now: int) returns (added: bool)
      modifies this
      ensures added <==> HasContent(text) && HasContent(category)
      ensures added ==> quotes == old(quotes) + [Quote(Some(now), Trim(text), Trim(category))]
      ensures !added ==> quotes == old(quotes)
    {
      var newQuote := NewQuote(text, category, now);
      if newQuote.Some? {
        quotes := quotes + [newQuote.value];
        added := true;
      } else {
        added := false;
      }
    }

    /** `importFromJsonFile`, once the file has been read: an array is
      appended as it is, in order and without de-duplication; anything else
      leaves the store alone. */
    method ImportFromJson(parsed: Parsed) returns (outcome: ImportOutcome)
      modifies this
      ensures parsed.AnArray? ==> outcome == Imported && quotes == old(quotes) + parsed.items
      ensures parsed.NotAnArray? ==> outcome == InvalidFormat && quotes == old(quotes)
      ensures parsed.Unparsable? ==> outcome == ReadError && quotes == old(quotes)
    {
      match parsed
      case AnArray(items) =>
        quotes := quotes + items;
        outcome := Imported;
      case NotAnArray =>
        outcome := InvalidFormat;
      case Unparsable =>
        outcome := ReadError;
    }

    /** `fetchQuotesFromServer`, once the response has arrived: the posts
      become server quotes and are merged into the store, or, when the
      fetch failed, the store is left alone. */
    method SyncWithServer(response: ServerResponse) returns (outcome: SyncOutcome)
      modifies this
      ensures response.FetchFailed? ==> outcome == SyncFailed && quotes == old(quotes)
      ensures response.Received? ==>
        var server := ToServerQuotes(response.posts);
        && quotes == Reconciled(old(quotes), server)
        && outcome == Synced(PresentOnArrival(old(quotes), server))
        && |quotes| == |old(quotes)| + |server| - outcome.conflictsResolved
    {
      match response
      case FetchFailed =>
        outcome := SyncFailed;
      case Received(posts) =>
        var serverQuotes := ToServerQuotes(posts);
        var mergedQuotes, conflictsResolved := MergeServerQuotes(quotes, serverQuotes);
        quotes := mergedQuotes;
        outcome := Synced(conflictsResolved);
    }
  }
}
