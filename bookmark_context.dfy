/** The bookmark store: an ordered list of disease ids that the user has
    saved, toggled one id at a time and queried by membership. */
module Bookmarks {
  import opened DiseaseData

  datatype Option<T> = None | Some(value: T)

  /** Every id occurs at most once. */
  ghost predicate NoDuplicates(s: seq<string>) {
    forall x :: multiset(s)[x] <= 1
  }

  /** The list `s` with every occurrence of `x` filtered out. */
  function RemoveAll(s: seq<string>, x: string): (r: seq<string>)
    ensures x !in r
    ensures forall y :: y != x ==> (y in r <==> y in s)
    ensures multiset(r) == multiset(s)[x := 0]
    ensures |r| == |s| - multiset(s)[x]
  {
    if s == [] then []
    else
      assert s == [s[0]] + s[1..];
      (if s[0] == x then [] else [s[0]]) + RemoveAll(s[1..], x)
  }

  /** Filtering distributes over concatenation, so the ids that remain keep
      their original relative order. */
  lemma {:induction false} RemoveAllAppend(a: seq<string>, b: seq<string>, x: string)
    ensures RemoveAll(a + b, x) == RemoveAll(a, x) + RemoveAll(b, x)
  {
    if a == [] {
      assert a + b == b;
    } else {
      var head := if a[0] == x then [] else [a[0]];
      assert (a + b)[1..] == a[1..] + b;
      RemoveAllAppend(a[1..], b, x);
      calc {
        RemoveAll(a + b, x);
        head + RemoveAll(a[1..] + b, x);
        head + (RemoveAll(a[1..], x) + RemoveAll(b, x));
        (head + RemoveAll(a[1..], x)) + RemoveAll(b, x);
        RemoveAll(a, x) + RemoveAll(b, x);
      }
    }
  }

  /** Filtering out an id that is not there changes nothing. */
  lemma {:induction false} RemoveAllAbsent(s: seq<string>, x: string)
    requires x !in s
    ensures RemoveAll(s, x) == s
  {
    if s != [] {
      RemoveAllAbsent(s[1..], x);
    }
  }

  /** The list that replaces `bookmarks` when the entry with `id` is toggled. */
  function Toggled(bookmarks: seq<string>, id: string): (r: seq<string>)
    ensures id in r <==> id !in bookmarks
    ensures forall other :: other != id ==> (other in r <==> other in bookmarks)
    ensures id in bookmarks ==> r == RemoveAll(bookmarks, id)
    ensures id !in bookmarks ==>
      |r| == |bookmarks| + 1 && r[..|bookmarks|] == bookmarks && r[|bookmarks|] == id
  {
    if id in bookmarks then RemoveAll(bookmarks, id) else bookmarks + [id]
  }

  /** A duplicate-free list stays duplicate-free. */
  lemma ToggleKeepsNoDuplicates(bookmarks: seq<string>, id: string)
    requires NoDuplicates(bookmarks)
    ensures NoDuplicates(Toggled(bookmarks, id))
  {
  }

  /** On a duplicate-free list a toggle grows the list by one or shrinks it by one. */
  lemma ToggleLength(bookmarks: seq<string>, id: string)
    requires NoDuplicates(bookmarks)
    ensures id !in bookmarks ==> |Toggled(bookmarks, id)| == |bookmarks| + 1
    ensures id in bookmarks ==> |Toggled(bookmarks, id)| == |bookmarks| - 1
  {
  }

  /** Toggling an absent id twice gives back exactly the original list. */
  lemma ToggleTwiceRestores(bookmarks: seq<string>, id: string)
    requires id !in bookmarks
    ensures Toggled(Toggled(bookmarks, id), id) == bookmarks
  {
    RemoveAllAppend(bookmarks, [id], id);
    RemoveAllAbsent(bookmarks, id);
    assert RemoveAll([id], id) == [];
  }

  /** Toggling a present id twice moves it to the end of the list. */
  lemma ToggleTwiceMovesToEnd(bookmarks: seq<string>, id: string)
    requires id in bookmarks
    ensures Toggled(Toggled(bookmarks, id), id) == RemoveAll(bookmarks, id) + [id]
  {
  }

  /** The list after toggling each of `ids`, in order, starting from `bookmarks`. */
  function ToggleAll(bookmarks: seq<string>, ids: seq<string>): seq<string>
    decreases ids
  {
    if ids == [] then bookmarks else ToggleAll(Toggled(bookmarks, ids[0]), ids[1..])
  }

  /** One more toggle after a run of toggles extends the run. */
  lemma {:induction false} ToggleAllSnoc(bookmarks: seq<string>, ids: seq<string>, id: string)
    ensures ToggleAll(bookmarks, ids + [id]) == Toggled(ToggleAll(bookmarks, ids), id)
    decreases ids
  {
    if ids == [] {
      assert ids + [id] == [id];
    } else {
      assert (ids + [id])[1..] == ids[1..] + [id];
      ToggleAllSnoc(Toggled(bookmarks, ids[0]), ids[1..], id);
    }
  }

  /** Adding one flips parity; adding zero keeps it. */
  lemma ParityStep(c: nat, flip: bool)
    ensures ((c + (if flip then 1 else 0)) % 2 == 1) == ((c % 2 == 1) != flip)
  {
  }

  /** After a run of toggles an id is present exactly when it was present at
      the start or was toggled an odd number of times, but not both. */
  lemma {:induction false} ToggleAllParity(bookmarks: seq<string>, ids: seq<string>, x: string)
    ensures x in ToggleAll(bookmarks, ids) <==> (x in bookmarks) != (multiset(ids)[x] % 2 == 1)
    decreases ids
  {
    if ids != [] {
      var next := Toggled(bookmarks, ids[0]);
      assert multiset(ids)[x] == multiset(ids[1..])[x] + (if ids[0] == x then 1 else 0) by {
        assert ids == [ids[0]] + ids[1..];
      }
      assert x in next <==> (x in bookmarks) != (ids[0] == x);
      ToggleAllParity(next, ids[1..], x);
      assert ToggleAll(bookmarks, ids) == ToggleAll(next, ids[1..]);
      ParityStep(multiset(ids[1..])[x], ids[0] == x);
    }
  }

  /** From the initial empty list, an id is bookmarked exactly when it was
      toggled an odd number of times. */
  lemma ToggleAllFromEmpty(ids: seq<string>, x: string)
    ensures x in ToggleAll([], ids) <==> multiset(ids)[x] % 2 == 1
  {
    ToggleAllParity([], ids, x);
  }

  /** Any run of toggles keeps a duplicate-free list duplicate-free. */
  lemma {:induction false} ToggleAllNoDuplicates(bookmarks: seq<string>, ids: seq<string>)
    requires NoDuplicates(bookmarks)
    ensures NoDuplicates(ToggleAll(bookmarks, ids))
    decreases ids
  {
    if ids != [] {
      ToggleKeepsNoDuplicates(bookmarks, ids[0]);
      ToggleAllNoDuplicates(Toggled(bookmarks, ids[0]), ids[1..]);
    }
  }

  /** The provider's state. `loaded` is the list the last successful load
      installed (empty at start) and `toggles` the ids toggled since. */
  class BookmarkProvider {
    var bookmarks: seq<string>
    ghost var loaded: seq<string>
    ghost var toggles: seq<string>

    ghost predicate Valid()
      reads this
    {
      bookmarks == ToggleAll(loaded, toggles)
    }

    constructor ()
      ensures Valid()
      ensures bookmarks == [] && loaded == [] && toggles == []
    {
      bookmarks := [];
      loaded := [];
      toggles := [];
    }

    /** Completion of the load from storage: `stored` is the parsed list, or
        `None` when nothing was stored or reading or parsing failed. */
    method Load(stored: Option<seq<string>>)
      requires Valid()
      modifies this
      ensures Valid()
      ensures stored.Some? ==>
        bookmarks == stored.value && loaded == stored.value && toggles == []
      ensures stored.None? ==>
        bookmarks == old(bookmarks) && loaded == old(loaded) && toggles == old(toggles)
    {
      if stored.Some? {
        bookmarks := stored.value;
        loaded := stored.value;
        toggles := [];
      }
    }

    method ToggleBookmark(disease: Disease)
      requires Valid()
      modifies this
      ensures Valid()
      ensures bookmarks == Toggled(old(bookmarks), disease.id)
      ensures loaded == old(loaded) && toggles == old(toggles) + [disease.id]
    {
      ToggleAllSnoc(loaded, toggles, disease.id);
      bookmarks := Toggled(bookmarks, disease.id);
      toggles := toggles + [disease.id];
    }

    predicate IsBookmarked(id: string)
      reads this
      ensures IsBookmarked(id) <==> id in bookmarks
      ensures Valid() ==>
        (IsBookmarked(id) <==> (id in loaded) != (multiset(toggles)[id] % 2 == 1))
    {
      ToggleAllParity(loaded, toggles, id);
      id in bookmarks
    }
  }
}
