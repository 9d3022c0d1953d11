/** The wishlist: an ordered list of product ids without duplicates, kept in
    memory and saved to per-browser storage after every successful change. */
module Wishlist {
  import opened Sequences

  /** The storage key the list is saved under. */
  const WishlistKey: string := "affiliate-wishlist"

  /** What storage holds under `WishlistKey`, as the loader sees it: nothing
      (a missing or empty value), a value that fails to parse, or a parsed
      JSON array of ids. */
  datatype Saved = NoEntry | Unparsable | Ids(ids: seq<string>)

  /** `loadWishlist`: the saved array, or `[]` when there is nothing usable. */
  function LoadWishlist(saved: Saved): seq<string> {
    if saved.Ids? then saved.ids else []
  }

  ghost predicate NoDuplicates(w: seq<string>) {
    forall i, j :: 0 <= i < j < |w| ==> w[i] != w[j]
  }

  /** `w.indexOf(id)`: the first position of `id`, or -1 when it is absent. */
  function IndexOf(w: seq<string>, id: string): (k: int)
    ensures -1 <= k < |w|
    ensures k == -1 <==> id !in w
    ensures 0 <= k ==> w[k] == id && id !in w[..k]
  {
    if w == [] then -1
    else if w[0] == id then 0
    else
      var k := IndexOf(w[1..], id);
      if k == -1 then -1 else (assert w[..k + 1] == [w[0]] + w[1..][..k]; k + 1)
  }

  /** The list after `addToWishlist(id)`: appended when absent. */
  function Added(w: seq<string>, id: string): seq<string> {
    if id in w then w else w + [id]
  }

  /** The list after `removeFromWishlist(id)`: the first occurrence spliced
      out when present. */
  function Removed(w: seq<string>, id: string): seq<string> {
    var k := IndexOf(w, id);
    if k == -1 then w else w[..k] + w[k + 1..]
  }

  // ---------------------------------------------------------------------
  // Lemmas

  /** Adding makes the id a member, keeps the list free of duplicates, and
      adding again changes nothing. */
  lemma AddedSpec(w: seq<string>, id: string)
    ensures id in Added(w, id)
    ensures NoDuplicates(w) ==> NoDuplicates(Added(w, id))
    ensures Added(Added(w, id), id) == Added(w, id)
    ensures forall x :: x != id ==> (x in Added(w, id) <==> x in w)
  {
  }

  /** Removing a present id takes out one occurrence and nothing else, in
      order; from a list without duplicates the id is then gone. */
  lemma RemovedSpec(w: seq<string>, id: string)
    requires id in w
    ensures multiset(Removed(w, id)) == multiset(w) - multiset{id}
    ensures |Removed(w, id)| == |w| - 1
    ensures IsSubsequence(Removed(w, id), w)
    ensures NoDuplicates(w) ==> NoDuplicates(Removed(w, id)) && id !in Removed(w, id)
  {
    var k := IndexOf(w, id);
    assert Removed(w, id) == w[..k] + w[k + 1..];
    SpliceCount(w, k);
    SpliceIsSubsequence(w, k);
    if NoDuplicates(w) {
      SpliceNoDuplicates(w, k);
    }
  }

  lemma SpliceCount(w: seq<string>, k: int)
    requires 0 <= k < |w|
    ensures multiset(w[..k] + w[k + 1..]) == multiset(w) - multiset{w[k]}
  {
    assert w == w[..k] + [w[k]] + w[k + 1..];
    assert multiset(w) == multiset(w[..k]) + multiset{w[k]} + multiset(w[k + 1..]);
  }

  lemma SpliceNoDuplicates(w: seq<string>, k: int)
    requires 0 <= k < |w| && NoDuplicates(w)
    ensures NoDuplicates(w[..k] + w[k + 1..]) && w[k] !in w[..k] + w[k + 1..]
  {
    var r := w[..k] + w[k + 1..];
    assert forall i :: 0 <= i < |r| ==> r[i] == w[if i < k then i else i + 1];
  }

  /** Splicing out one position leaves a subsequence. */
  lemma {:induction false} SpliceIsSubsequence(w: seq<string>, k: int)
    requires 0 <= k < |w|
    ensures IsSubsequence(w[..k] + w[k + 1..], w)
  {
    var r := w[..k] + w[k + 1..];
    if k == 0 {
      assert r == w[1..];
      SubsequenceRefl(w[1..]);
    } else {
      SpliceIsSubsequence(w[1..], k - 1);
      assert r[0] == w[0];
      assert r[1..] == w[1..][..k - 1] + w[1..][k..];
    }
  }

  lemma {:induction false} SubsequenceRefl(w: seq<string>)
    ensures IsSubsequence(w, w)
  {
    if w != [] {
      SubsequenceRefl(w[1..]);
    }
  }

  /** Adding an absent id and then removing it gives back the original list. */
  lemma AddRemoveRoundTrip(w: seq<string>, id: string)
    requires id !in w
    ensures Removed(Added(w, id), id) == w
  {
    var a := w + [id];
    assert IndexOf(a, id) == |w| by {
      var k := IndexOf(a, id);
      assert a[k] == id;
    }
    assert a[..|w|] == w;
  }

  /** Removing a present id and adding it back keeps the same members with
      the same multiplicities (the id moves to the end). */
  lemma RemoveAddSameMembers(w: seq<string>, id: string)
    requires NoDuplicates(w) && id in w
    ensures multiset(Added(Removed(w, id), id)) == multiset(w)
  {
    RemovedSpec(w, id);
  }

  /** What `storage` holds under `key`, as the loader sees it. */
  function SavedAt(storage: map<string, Saved>, key: string): Saved {
    if key in storage then storage[key] else NoEntry
  }

  /** The wishlist controller. `storage` is the browser's key-value store
      and `saves` counts the writes the controller makes to it; neither is
      observable by the page itself. */
  class WishlistManager {
    var wishlist: seq<string>
    ghost var storage: map<string, Saved>
    ghost var saves: nat

    /** Reloading from storage would give back the list in memory. */
    ghost predicate Persisted()
      reads this
    {
      LoadWishlist(SavedAt(storage, WishlistKey)) == wishlist
    }

    /** Reads the saved value under `WishlistKey`. */
    constructor (store: map<string, Saved>)
      ensures wishlist == LoadWishlist(SavedAt(store, WishlistKey))
      ensures storage == store && saves == 0
      ensures Persisted()
    {
      wishlist := LoadWishlist(SavedAt(store, WishlistKey));
      storage := store;
      saves := 0;
    }

    /** `saveWishlist`: writes the list as a JSON array under `WishlistKey`;
        every other key is left alone. */
    method SaveWishlist()
      modifies this`storage, this`saves
      ensures storage == old(storage)[WishlistKey := Ids(wishlist)]
      ensures saves == old(saves) + 1
    {
      storage := storage[WishlistKey := Ids(wishlist)];
      saves := saves + 1;
    }

    /** `addToWishlist`: appends and saves when the id is absent. */
    method AddToWishlist(id: string) returns (added: bool)
      modifies this
      ensures added <==> id !in old(wishlist)
      ensures wishlist == Added(old(wishlist), id)
      ensures added ==> storage == old(storage)[WishlistKey := Ids(wishlist)] && saves == old(saves) + 1
      ensures !added ==> storage == old(storage) && saves == old(saves)
      ensures NoDuplicates(old(wishlist)) ==> NoDuplicates(wishlist)
      ensures old(Persisted()) ==> Persisted()
    {
      if id !in wishlist {
        wishlist := wishlist + [id];
        SaveWishlist();
        return true;
      }
      return false;
    }

    /** `removeFromWishlist`: splices out the first occurrence and saves when
        the id is present. */
    method RemoveFromWishlist(id: string) returns (removed: bool)
      modifies this
      ensures removed <==> id in old(wishlist)
      ensures wishlist == Removed(old(wishlist), id)
      ensures removed ==> |wishlist| == |old(wishlist)| - 1
      ensures removed ==> storage == old(storage)[WishlistKey := Ids(wishlist)] && saves == old(saves) + 1
      ensures !removed ==> wishlist == old(wishlist) && storage == old(storage) && saves == old(saves)
      ensures NoDuplicates(old(wishlist)) ==> NoDuplicates(wishlist) && id !in wishlist
      ensures old(Persisted()) ==> Persisted()
    {
      var index := IndexOf(wishlist, id);
      if index > -1 {
        RemovedSpec(wishlist, id);
        wishlist := wishlist[..index] + wishlist[index + 1..];
        SaveWishlist();
        return true;
      }
      return false;
    }

    /** `isInWishlist`. */
    method IsInWishlist(id: string) returns (present: bool)
      ensures present <==> id in wishlist
    {
      present := id in wishlist;
    }

    /** `getWishlist`: a copy of the list (sequences are values, so the
        caller cannot alter the manager's state through it). */
    method GetWishlist() returns (copy: seq<string>)
      ensures copy == wishlist
    {
      copy := wishlist;
    }

    /** `clearWishlist`: empties the list and saves. */
    method ClearWishlist()
      modifies this
      ensures wishlist == [] && storage == old(storage)[WishlistKey := Ids([])]
      ensures saves == old(saves) + 1
      ensures Persisted()
    {
      wishlist := [];
      SaveWishlist();
    }
  }
}
