/** The merge step of the periodic server sync: server quotes overwrite the
    local record with the same identifier ("server wins"), and quotes with an
    identifier not yet present are appended. */
module Sync {
  import opened Sequences
  import opened Quotes

  /** A post of the remote endpoint, after `response.json()`. */
  datatype Post = Post(id: Option<int>, title: string)

  /** A post becomes a quote: its title is the text, its category "Server". */
  function ServerQuote(p: Post): (q: Quote)
    ensures q.id == p.id && q.text == p.title && q.category == "Server"
  {
    Quote(p.id, p.title, "Server")
  }

  /** `serverData.map(...)`: one quote per post, in the same order. */
  function ToServerQuotes(posts: seq<Post>): (qs: seq<Quote>)
    ensures |qs| == |posts|
    ensures forall i :: 0 <= i < |posts| ==> qs[i] == ServerQuote(posts[i])
  {
    seq(|posts|, i requires 0 <= i < |posts| => ServerQuote(posts[i]))
  }

  /** The last quote of `server` that carries `id`: the one that wins when
      several server quotes share an identifier. */
  function LastWithId(server: seq<Quote>, id: Option<int>): (q: Quote)
    requires id in IdsOf(server)
    ensures q in server && q.id == id
    decreases |server|
  {
    var n := |server| - 1;
    if server[n].id == id then server[n]
    else
      assert IdsOf(server) == IdsOf(server[..n]) + [server[n].id];
      LastWithId(server[..n], id)
  }

  lemma LastWithIdSnoc(server: seq<Quote>, s: Quote, id: Option<int>)
    requires id in IdsOf(server) || id == s.id
    ensures IdsOf(server + [s]) == IdsOf(server) + [s.id]
    ensures LastWithId(server + [s], id) == if id == s.id then s else LastWithId(server, id)
  {
    assert IdsOf(server + [s]) == IdsOf(server) + [s.id];
    assert (server + [s])[..|server|] == server;
  }

  /** Adding server quote `s` changes the resolution of a local record only
      at the first local position carrying `s.id`, which becomes `s`. */
  lemma ResolvedSnoc(local: seq<Quote>, server: seq<Quote>, s: Quote, i: nat)
    requires i < |local|
    ensures Resolved(local, server + [s], i)
         == if local[i].id == s.id && FindById(local, s.id) == Some(i) then s
            else Resolved(local, server, i)
  {
    var y := local[i].id;
    if y in IdsOf(server) || y == s.id {
      LastWithIdSnoc(server, s, y);
    } else {
      assert IdsOf(server + [s]) == IdsOf(server) + [s.id];
    }
  }

  /** The identifiers that the merge appends: those of server quotes whose
      identifier is not in the local list, once each, in order of first
      appearance among the server quotes. */
  function NewIds(local: seq<Quote>, server: seq<Quote>): (ids: seq<Option<int>>)
    ensures forall k :: 0 <= k < |ids| ==> ids[k] in IdsOf(server) && ids[k] !in IdsOf(local)
  {
    Distinct(IdsOf(server), IdsOf(local))
  }

  /** What becomes of local record `i`: the first local record with a given
      identifier is replaced by the last server quote with that identifier;
      every other local record stays as it was. */
  function Resolved(local: seq<Quote>, server: seq<Quote>, i: nat): (q: Quote)
    requires i < |local|
    ensures q.id == local[i].id
  {
    var id := local[i].id;
    if id in IdsOf(server) && FindById(local, id) == Some(i) then LastWithId(server, id) else local[i]
  }

  /** Reference definition of the merged list, position by position: the
      local records, resolved, followed by one record per new identifier,
      each holding the last server quote with that identifier. */
  function Reconciled(local: seq<Quote>, server: seq<Quote>): (r: seq<Quote>)
  {
    var added := NewIds(local, server);
    seq(|local|, i requires 0 <= i < |local| => Resolved(local, server, i))
      + seq(|added|, k requires 0 <= k < |added| => LastWithId(server, added[k]))
  }

  /** The number of server quotes whose identifier was already in the list
      being merged into when the quote was processed: present locally, or
      brought in by an earlier server quote. */
  function PresentOnArrival(local: seq<Quote>, server: seq<Quote>): (n: nat)
    ensures n <= |server|
  {
    if server == [] then 0
    else
      var k := |server| - 1;
      PresentOnArrival(local, server[..k])
        + (if server[k].id in IdsOf(local) + IdsOf(server[..k]) then 1 else 0)
  }

  /** The loop of `fetchQuotesFromServer` over the mapped server quotes, on
      a copy of the local list: overwrite at the first matching index and
      count a conflict, or append. */
  method MergeServerQuotes(local: seq<Quote>, server: seq<Quote>)
    returns (merged: seq<Quote>, conflictsResolved: nat)
    ensures merged == Reconciled(local, server)
    ensures conflictsResolved == PresentOnArrival(local, server)
    ensures |merged| == |local| + |server| - conflictsResolved
  {
    merged := local;
    conflictsResolved := 0;
    ReconciledWithoutServer(local);
    assert server[..0] == [];
    for n := 0 to |server|
      invariant merged == Reconciled(local, server[..n])
      invariant conflictsResolved == PresentOnArrival(local, server[..n])
    {
      var serverQuote := server[n];
      assert server[..n + 1] == server[..n] + [serverQuote];
      assert server[..n + 1][..n] == server[..n];
      ReconcileStep(local, server[..n], serverQuote);
      var localIndex := FindById(merged, serverQuote.id);
      if localIndex.Some? {
        merged := merged[localIndex.value := serverQuote];
        conflictsResolved := conflictsResolved + 1;
      } else {
        merged := merged + [serverQuote];
      }
    }
    assert server[..|server|] == server;
    ReconcileLength(local, server);
  }

  // ---------------------------------------------------------------------
  // Structure of the reference definition
  // ---------------------------------------------------------------------

  /** The length of the merged list: the local records and one per new
      identifier. */
  lemma ReconciledSize(local: seq<Quote>, server: seq<Quote>)
    ensures |Reconciled(local, server)| == |local| + |NewIds(local, server)|
  {
  }

  /** Local position `i` of the merged list holds the resolved record. */
  lemma ReconciledLocal(local: seq<Quote>, server: seq<Quote>, i: nat)
    requires i < |local|
    ensures i < |Reconciled(local, server)|
    ensures Reconciled(local, server)[i] == Resolved(local, server, i)
  {
  }

  /** Appended position `k` of the merged list holds the last server quote
      with the `k`-th new identifier. */
  lemma ReconciledAdded(local: seq<Quote>, server: seq<Quote>, k: nat)
    requires k < |NewIds(local, server)|
    ensures |local| + k < |Reconciled(local, server)|
    ensures Reconciled(local, server)[|local| + k] == LastWithId(server, NewIds(local, server)[k])
  {
  }

  /** All positions of the merged list at once. */
  lemma ReconciledAt(local: seq<Quote>, server: seq<Quote>)
    ensures var r := Reconciled(local, server);
      && |r| == |local| + |NewIds(local, server)|
      && (forall i :: 0 <= i < |local| ==> r[i] == Resolved(local, server, i))
      && (forall k :: 0 <= k < |NewIds(local, server)| ==>
            r[|local| + k] == LastWithId(server, NewIds(local, server)[k]))
  {
  }

  /** Merging no server quotes leaves the local list as it is. */
  lemma ReconciledWithoutServer(local: seq<Quote>)
    ensures Reconciled(local, []) == local
  {
    assert IdsOf([]) == [];
    ReconciledAt(local, []);
  }

  /** The identifiers of the merged list: the local ones, position by
      position, followed by the new ones in order of first appearance. */
  lemma {:induction false} ReconciledIds(local: seq<Quote>, server: seq<Quote>)
    ensures IdsOf(Reconciled(local, server)) == IdsOf(local) + NewIds(local, server)
  {
    ReconciledAt(local, server);
  }

  /** One step of the loop, in each of its two branches, carries the
      reference definition from `server` to `server + [s]`; the branch taken
      is the overwrite exactly when `s.id` was already present. */
  lemma ReconcileStep(local: seq<Quote>, server: seq<Quote>, s: Quote)
    ensures var m := Reconciled(local, server);
      var found := FindById(m, s.id);
      && (found.Some? <==> s.id in IdsOf(local) + IdsOf(server))
      && Reconciled(local, server + [s]) == (if found.Some? then m[found.value := s] else m + [s])
  {
    if s.id in IdsOf(local) {
      StepOnLocalId(local, server, s);
    } else if s.id in IdsOf(server) {
      StepOnAppendedId(local, server, s);
    } else {
      StepOnNewId(local, server, s);
    }
  }

  /** An overwrite of a locally present identifier: the first local record
      carrying it becomes `s`, and nothing else changes. */
  lemma StepOnLocalId(local: seq<Quote>, server: seq<Quote>, s: Quote)
    requires s.id in IdsOf(local)
    ensures var m := Reconciled(local, server);
      var found := FindById(m, s.id);
      found.Some? && Reconciled(local, server + [s]) == m[found.value := s]
  {
    var x := s.id;
    var m, m' := Reconciled(local, server), Reconciled(local, server + [s]);
    var i0 := FoundLocally(local, server, x);
    StepKeepsLength(local, server, s);
    forall i | 0 <= i < |m'| ensures m'[i] == m[i0 := s][i] {
      if i < |local| {
        StepOnLocalPart(local, server, s, i);
        assert local[i].id == x && FindById(local, x) == Some(i) <==> i == i0;
      } else {
        var k := i - |local|;
        StepOnAppendedPart(local, server, s, k);
        assert NewIds(local, server)[k] != x;
      }
    }
    assert m' == m[i0 := s];
  }

  /** A locally present identifier is found in the merged list where it is
      first found in the local list. */
  lemma FoundLocally(local: seq<Quote>, server: seq<Quote>, x: Option<int>) returns (i0: nat)
    requires x in IdsOf(local)
    ensures FindById(local, x) == Some(i0)
    ensures FindById(Reconciled(local, server), x) == Some(i0)
  {
    var m := Reconciled(local, server);
    i0 := FindById(local, x).value;
    ReconciledLocal(local, server, i0);
    forall j | 0 <= j < i0 ensures m[j].id != x {
      ReconciledLocal(local, server, j);
    }
    FindByIdFirst(m, x, i0);
  }

  /** An overwrite of an identifier that an earlier server quote appended:
      that appended record becomes `s`, and nothing else changes. */
  lemma StepOnAppendedId(local: seq<Quote>, server: seq<Quote>, s: Quote)
    requires s.id !in IdsOf(local) && s.id in IdsOf(server)
    ensures var m := Reconciled(local, server);
      var found := FindById(m, s.id);
      found.Some? && Reconciled(local, server + [s]) == m[found.value := s]
  {
    var x := s.id;
    var m, m' := Reconciled(local, server), Reconciled(local, server + [s]);
    var p := AppendedPosition(local, server, x);
    StepKeepsLength(local, server, s);
    forall i | 0 <= i < |m'| ensures m'[i] == m[p := s][i] {
      if i < |local| {
        StepOnLocalPart(local, server, s, i);
        assert IdsOf(local)[i] == local[i].id;
      } else {
        var k := i - |local|;
        StepOnAppendedPart(local, server, s, k);
        assert NewIds(local, server)[k] == x <==> i == p;
      }
    }
    assert m' == m[p := s];
  }

  /** A server quote whose identifier is already present appends nothing. */
  lemma StepKeepsLength(local: seq<Quote>, server: seq<Quote>, s: Quote)
    requires s.id in IdsOf(local) || s.id in IdsOf(server)
    ensures NewIds(local, server + [s]) == NewIds(local, server)
    ensures |Reconciled(local, server + [s])| == |Reconciled(local, server)|
  {
    assert IdsOf(server + [s]) == IdsOf(server) + [s.id];
    DistinctSnoc(IdsOf(server), s.id, IdsOf(local));
    ReconciledSize(local, server);
    ReconciledSize(local, server + [s]);
  }

  /** One more server quote changes a local position of the merged list only
      where the local list first carries its identifier. */
  lemma StepOnLocalPart(local: seq<Quote>, server: seq<Quote>, s: Quote, i: nat)
    requires i < |local|
    ensures i < |Reconciled(local, server)| && i < |Reconciled(local, server + [s])|
    ensures Reconciled(local, server + [s])[i]
         == if local[i].id == s.id && FindById(local, s.id) == Some(i) then s
            else Reconciled(local, server)[i]
  {
    ReconciledLocal(local, server, i);
    ReconciledLocal(local, server + [s], i);
    ResolvedSnoc(local, server, s, i);
  }

  /** One more server quote changes an appended position of the merged list
      only where it carries the same identifier. */
  lemma StepOnAppendedPart(local: seq<Quote>, server: seq<Quote>, s: Quote, k: nat)
    requires k < |NewIds(local, server)|
    ensures |local| + k < |Reconciled(local, server)|
    ensures |local| + k < |Reconciled(local, server + [s])|
    ensures Reconciled(local, server + [s])[|local| + k]
         == if NewIds(local, server)[k] == s.id then s else Reconciled(local, server)[|local| + k]
  {
    var added := NewIds(local, server);
    assert IdsOf(server + [s]) == IdsOf(server) + [s.id];
    DistinctSnoc(IdsOf(server), s.id, IdsOf(local));
    assert NewIds(local, server + [s])[k] == added[k];
    ReconciledAdded(local, server, k);
    ReconciledAdded(local, server + [s], k);
    LastWithIdSnoc(server, s, added[k]);
  }

  /** A server identifier that is not local sits, after the merge, at the
      position after the local records given by its rank among the new
      identifiers. */
  lemma AppendedPosition(local: seq<Quote>, server: seq<Quote>, x: Option<int>) returns (p: nat)
    requires x !in IdsOf(local) && x in IdsOf(server)
    ensures x in NewIds(local, server)
    ensures p == |local| + IndexOf(NewIds(local, server), x)
    ensures FindById(Reconciled(local, server), x) == Some(p)
  {
    var m := Reconciled(local, server);
    var added := NewIds(local, server);
    var ids := IdsOf(server);
    assert ids[IndexOf(ids, x)] == x;
    assert x in added;
    var k0 := IndexOf(added, x);
    p := |local| + k0;
    ReconciledIds(local, server);
    assert IdsOf(m) == IdsOf(local) + added;
    forall j | 0 <= j < p ensures m[j].id != x {
      assert IdsOf(m)[j] == m[j].id;
      if j < |local| {
        assert IdsOf(local)[j] == m[j].id;
      } else {
        assert added[j - |local|] == m[j].id;
      }
    }
    assert IdsOf(m)[p] == x;
    FindByIdFirst(m, x, p);
  }

  lemma StepOnNewId(local: seq<Quote>, server: seq<Quote>, s: Quote)
    requires s.id !in IdsOf(local) && s.id !in IdsOf(server)
    ensures var m := Reconciled(local, server);
      FindById(m, s.id).None? && Reconciled(local, server + [s]) == m + [s]
  {
    var x := s.id;
    var m, m' := Reconciled(local, server), Reconciled(local, server + [s]);
    AbsentBeforeMerge(local, server, x);
    StepAppendsOne(local, server, s);
    forall i | 0 <= i < |m'| ensures m'[i] == (m + [s])[i] {
      if i < |local| {
        StepOnLocalPart(local, server, s, i);
        assert IdsOf(local)[i] == local[i].id;
      } else if i < |m| {
        var k := i - |local|;
        StepOnAppendedPart(local, server, s, k);
        assert NewIds(local, server)[k] in IdsOf(server);
      }
    }
    assert m' == m + [s];
  }

  /** A server quote whose identifier is new is appended, once, at the end. */
  lemma StepAppendsOne(local: seq<Quote>, server: seq<Quote>, s: Quote)
    requires s.id !in IdsOf(local) && s.id !in IdsOf(server)
    ensures NewIds(local, server + [s]) == NewIds(local, server) + [s.id]
    ensures |Reconciled(local, server + [s])| == |Reconciled(local, server)| + 1
    ensures Reconciled(local, server + [s])[|Reconciled(local, server)|] == s
  {
    var added := NewIds(local, server);
    assert IdsOf(server + [s]) == IdsOf(server) + [s.id];
    DistinctSnoc(IdsOf(server), s.id, IdsOf(local));
    ReconciledSize(local, server);
    ReconciledSize(local, server + [s]);
    ReconciledAdded(local, server + [s], |added|);
    LastWithIdSnoc(server, s, s.id);
  }

  /** An identifier carried by neither list is not in the merged list. */
  lemma AbsentBeforeMerge(local: seq<Quote>, server: seq<Quote>, x: Option<int>)
    requires x !in IdsOf(local) && x !in IdsOf(server)
    ensures FindById(Reconciled(local, server), x).None?
  {
    ReconciledIds(local, server);
    assert x !in NewIds(local, server);
  }

  // ---------------------------------------------------------------------
  // Properties of the merge
  // ---------------------------------------------------------------------

  /** A local quote whose identifier no server quote carries keeps its
      place and its contents. */
  lemma ReconcileKeepsUnmatchedLocal(local: seq<Quote>, server: seq<Quote>, i: nat)
    requires i < |local| && local[i].id !in IdsOf(server)
    ensures i < |Reconciled(local, server)|
    ensures Reconciled(local, server)[i] == local[i]
  {
    ReconciledAt(local, server);
  }

  /** Every server quote counts either as a conflict or as one new
      identifier. */
  lemma {:induction false} ConflictsPlusNewIds(local: seq<Quote>, server: seq<Quote>)
    ensures PresentOnArrival(local, server) + |NewIds(local, server)| == |server|
  {
    if server != [] {
      var k := |server| - 1;
      var s := server[k];
      assert server == server[..k] + [s];
      assert IdsOf(server) == IdsOf(server[..k]) + [s.id];
      DistinctSnoc(IdsOf(server[..k]), s.id, IdsOf(local));
      ConflictsPlusNewIds(local, server[..k]);
    }
  }

  /** The merged list is never shorter than the local list, grows by at most
      the number of server quotes, and grows by exactly the number of server
      quotes that were not conflicts. */
  lemma ReconcileLength(local: seq<Quote>, server: seq<Quote>)
    ensures |local| <= |Reconciled(local, server)| <= |local| + |server|
    ensures |Reconciled(local, server)| == |local| + |server| - PresentOnArrival(local, server)
  {
    ReconciledAt(local, server);
    ConflictsPlusNewIds(local, server);
  }

  /** Only server quotes are appended, after the local records; the
      positions of the local records keep their identifiers; the appended
      identifiers are distinct and in the order in which they first appear
      among the server quotes. */
  lemma ReconcileAppendsServerQuotes(local: seq<Quote>, server: seq<Quote>)
    ensures var r := Reconciled(local, server);
      && |local| <= |r|
      && IdsOf(r)[..|local|] == IdsOf(local)
      && (forall k :: |local| <= k < |r| ==> r[k] in server && r[k].id !in IdsOf(local))
      && (forall k, l :: |local| <= k < l < |r| ==> r[k].id != r[l].id)
      && InFirstOccurrenceOrder(IdsOf(r)[|local|..], IdsOf(server))
  {
    var r := Reconciled(local, server);
    ReconciledAt(local, server);
    ReconciledIds(local, server);
    assert IdsOf(r)[|local|..] == NewIds(local, server);
    DistinctKeepsFirstOccurrenceOrder(IdsOf(server), IdsOf(local));
    forall k, l | |local| <= k < l < |r| ensures r[k].id != r[l].id {
      assert r[k].id == NewIds(local, server)[k - |local|];
      assert r[l].id == NewIds(local, server)[l - |local|];
    }
  }

  /** Server wins: for every identifier the server sent, the first record
      carrying it in the merged list is the last server quote with it. */
  lemma ReconcileServerWins(local: seq<Quote>, server: seq<Quote>, x: Option<int>)
    requires x in IdsOf(server)
    ensures var r := Reconciled(local, server);
      var found := FindById(r, x);
      found.Some? && r[found.value] == LastWithId(server, x)
  {
    var r := Reconciled(local, server);
    ReconciledAt(local, server);
    if x in IdsOf(local) {
      var i0 := FindById(local, x).value;
      forall j | 0 <= j < i0 ensures r[j].id != x {
        assert r[j].id == local[j].id;
      }
      FindByIdFirst(r, x, i0);
      assert r[i0] == Resolved(local, server, i0);
    } else {
      var p := AppendedPosition(local, server, x);
      var k0 := IndexOf(NewIds(local, server), x);
      assert r[p] == LastWithId(server, NewIds(local, server)[k0]);
    }
  }

  /** Merging the same server quotes a second time changes nothing. */
  lemma ReconcileIdempotent(local: seq<Quote>, server: seq<Quote>)
    ensures Reconciled(Reconciled(local, server), server) == Reconciled(local, server)
  {
    var m := Reconciled(local, server);
    var m2 := Reconciled(m, server);
    NothingNewOnSecondMerge(local, server);
    ReconciledAt(local, server);
    ReconciledAt(m, server);
    forall i | 0 <= i < |m| ensures m2[i] == m[i] {
      var y := m[i].id;
      if i < |local| && y in IdsOf(server) && FindById(m, y) == Some(i) {
        forall j | 0 <= j < i ensures local[j].id != y {
          assert m[j].id == local[j].id;
        }
        FindByIdFirst(local, y, i);
      }
    }
  }

  /** After a merge, every server identifier is present, so merging the same
      quotes again appends nothing. */
  lemma NothingNewOnSecondMerge(local: seq<Quote>, server: seq<Quote>)
    ensures NewIds(Reconciled(local, server), server) == []
  {
    var m := Reconciled(local, server);
    ReconciledIds(local, server);
    var ids := IdsOf(server);
    forall i | 0 <= i < |ids| ensures ids[i] in IdsOf(m) {
      if ids[i] !in IdsOf(local) {
        assert ids[i] in NewIds(local, server);
      }
    }
    DistinctAllSeen(ids, IdsOf(m));
  }

  /** Merging the same server quotes a second time counts every one of them
      as a conflict. */
  lemma SecondMergeAllConflicts(local: seq<Quote>, server: seq<Quote>)
    ensures PresentOnArrival(Reconciled(local, server), server) == |server|
  {
    NothingNewOnSecondMerge(local, server);
    ConflictsPlusNewIds(Reconciled(local, server), server);
  }

  /** The whole sync, from the fetched posts: every record of the new store
      is either the old record at its position or the quote made from one of
      the posts, with the category "Server"; and every post's identifier is
      carried by the new store. */
  lemma SyncFromPosts(local: seq<Quote>, posts: seq<Post>)
    ensures var r := Reconciled(local, ToServerQuotes(posts));
      forall i :: 0 <= i < |r| ==>
        || (i < |local| && r[i] == local[i])
        || (r[i].category == "Server" && exists p :: p in posts && r[i] == ServerQuote(p))
    ensures forall p :: p in posts ==> p.id in IdsOf(Reconciled(local, ToServerQuotes(posts)))
  {
    var server := ToServerQuotes(posts);
    var r := Reconciled(local, server);
    ReconciledSize(local, server);
    forall i | 0 <= i < |r|
      ensures || (i < |local| && r[i] == local[i])
              || (r[i].category == "Server" && exists p :: p in posts && r[i] == ServerQuote(p))
    {
      if i < |local| {
        ReconciledLocal(local, server, i);
      } else {
        ReconciledAdded(local, server, i - |local|);
      }
      if !(i < |local| && r[i] == local[i]) {
        assert r[i] in server;
        var j :| 0 <= j < |server| && server[j] == r[i];
        assert r[i] == ServerQuote(posts[j]);
      }
    }
    ReconciledIds(local, server);
    forall p | p in posts ensures p.id in IdsOf(r) {
      var j :| 0 <= j < |posts| && posts[j] == p;
      assert IdsOf(server)[j] == p.id;
      if p.id !in IdsOf(local) {
        assert p.id in NewIds(local, server);
      }
    }
  }

  /** The worked example: a local quote 1 merged with a server post 1 is
      overwritten by it, counts one conflict, and nothing is appended. */
  lemma ReconcileExample()
    ensures var local := [Quote(Some(1), "A", "X")];
      var server := ToServerQuotes([Post(Some(1), "B")]);
      && Reconciled(local, server) == [Quote(Some(1), "B", "Server")]
      && PresentOnArrival(local, server) == 1
  {
    var local := [Quote(Some(1), "A", "X")];
    var server := ToServerQuotes([Post(Some(1), "B")]);
    assert server == [Quote(Some(1), "B", "Server")];
    assert IdsOf(local) == [Some(1)];
    assert IdsOf(server) == [Some(1)];
    assert server[..0] == [];
    assert NewIds(local, server) == [];
    assert FindById(local, Some(1)) == Some(0);
    ReconciledAt(local, server);
  }
}
