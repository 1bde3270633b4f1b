/**
 * The favourites list: integer Pokémon ids kept under the `favourites` key of
 * the browser's local storage (index.js:31-49).
 */
module Favourites {
  import opened Wrappers

  /** No id occurs twice in `s`. */
  predicate Distinct(s: seq<int>)
  {
    forall i, j :: 0 <= i < j < |s| ==> s[i] != s[j]
  }

  /** `Array.prototype.indexOf`: the position of the first occurrence of `x`, or -1. */
  function IndexOf(s: seq<int>, x: int): (r: int)
    ensures -1 <= r < |s|
    ensures r == -1 <==> x !in s
    ensures 0 <= r ==> s[r] == x && x !in s[..r]
  {
    if |s| == 0 then -1
    else if s[0] == x then 0
    else
      var i := IndexOf(s[1..], x);
      if i == -1 then -1
      else
        assert s[..i + 1] == [s[0]] + s[1..][..i];
        i + 1
  }

  /** `splice(k, 1)`: the list without its entry at position `k`, the rest in order. */
  function RemoveAt(s: seq<int>, k: int): (r: seq<int>)
    requires 0 <= k < |s|
    ensures |r| == |s| - 1
    ensures forall j :: 0 <= j < k ==> r[j] == s[j]
    ensures forall j :: k <= j < |r| ==> r[j] == s[j + 1]
    ensures multiset(r) + multiset{s[k]} == multiset(s)
  {
    assert s == s[..k] + [s[k]] + s[k + 1..];
    s[..k] + s[k + 1..]
  }

  /** The list that toggling `id` writes back: first occurrence removed, or `id` appended. */
  function Toggled(s: seq<int>, id: int): (r: seq<int>)
    ensures multiset(r) == if id in s then multiset(s) - multiset{id} else multiset(s) + multiset{id}
  {
    var index := IndexOf(s, id);
    if index > -1 then RemoveAt(s, index) else s + [id]
  }

  /** An absent id is appended at the end; every earlier entry is unchanged. */
  lemma ToggleAbsentAppends(s: seq<int>, id: int)
    requires id !in s
    ensures Toggled(s, id) == s + [id]
    ensures |Toggled(s, id)| == |s| + 1
    ensures Toggled(s, id)[..|s|] == s && Toggled(s, id)[|s|] == id
  {
  }

  /** A present id loses exactly its first occurrence; the other entries keep their order. */
  lemma TogglePresentRemovesFirst(s: seq<int>, id: int, k: int)
    requires 0 <= k < |s| && s[k] == id && id !in s[..k]
    ensures Toggled(s, id) == s[..k] + s[k + 1..]
  {
  }

  /** Toggling `id` never changes whether any other id is in the list. */
  lemma ToggleKeepsOthers(s: seq<int>, id: int, x: int)
    requires x != id
    ensures x in Toggled(s, id) <==> x in s
  {
    var k := IndexOf(s, id);
    if k > -1 {
      var r := RemoveAt(s, k);
      assert Toggled(s, id) == r;
      assert multiset(r)[x] == multiset(s)[x];
    } else {
      assert Toggled(s, id) == s + [id];
    }
  }

  /** On a list without duplicates, toggling flips the membership of `id`. */
  lemma ToggleFlipsMembership(s: seq<int>, id: int)
    requires Distinct(s)
    ensures id in Toggled(s, id) <==> id !in s
  {
  }

  /** Toggling keeps a list without duplicates free of duplicates. */
  lemma ToggleKeepsDistinct(s: seq<int>, id: int)
    requires Distinct(s)
    ensures Distinct(Toggled(s, id))
  {
    var k := IndexOf(s, id);
    if k > -1 {
      var r := RemoveAt(s, k);
      forall i, j | 0 <= i < j < |r|
        ensures r[i] != r[j]
      {
        var si := if i < k then i else i + 1;
        var sj := if j < k then j else j + 1;
        assert r[i] == s[si] && r[j] == s[sj] && si < sj;
      }
    }
  }

  /** Toggling an absent id twice gives back exactly the original list. */
  lemma ToggleTwiceAbsent(s: seq<int>, id: int)
    requires id !in s
    ensures Toggled(Toggled(s, id), id) == s
  {
  }

  /**
   * Toggling a present id twice, on a list without duplicates, moves it to the
   * end: the same ids with the same multiplicities.
   */
  lemma ToggleTwicePresent(s: seq<int>, id: int)
    requires Distinct(s) && id in s
    ensures Toggled(Toggled(s, id), id) == RemoveAt(s, IndexOf(s, id)) + [id]
    ensures multiset(Toggled(Toggled(s, id), id)) == multiset(s)
  {
  }

  /** The `favourites` storage slot and the three operations the page performs on it. */
  class FavouritesStore {
    /** `localStorage['favourites']`, parsed; `None` when the key was never written. */
    var slot: Option<seq<int>>

    constructor (stored: Option<seq<int>>)
      ensures slot == stored
    {
      slot := stored;
    }

    /** `loadFavourites`: a missing slot reads as the empty list. */
    function LoadFavourites(): (r: seq<int>)
      reads this
      ensures slot == None ==> r == []
      ensures slot != None ==> r == slot.value
    {
      match slot
      case None => []
      case Some(s) => s
    }

    /** `isPokemonFavourite`: agrees with the test `toggleFavourite` branches on. */
    function IsPokemonFavourite(id: int): (b: bool)
      reads this
      ensures b <==> IndexOf(LoadFavourites(), id) > -1
      ensures slot == None ==> !b
    {
      id in LoadFavourites()
    }

    /** `toggleFavourite`: remove the first occurrence of `id`, or append it, and write back. */
    method ToggleFavourite(id: int)
      modifies this
      ensures slot == Some(Toggled(old(LoadFavourites()), id))
      ensures old(slot) == None ==> slot == Some([id])
      ensures forall x :: x != id ==> (IsPokemonFavourite(x) <==> old(IsPokemonFavourite(x)))
      ensures Distinct(old(LoadFavourites())) ==>
                Distinct(LoadFavourites()) && (IsPokemonFavourite(id) <==> !old(IsPokemonFavourite(id)))
    {
      ghost var before := LoadFavourites();
      var favourites := LoadFavourites();
      var index := IndexOf(favourites, id);
      if index > -1 {
        favourites := RemoveAt(favourites, index);
      } else {
        favourites := favourites + [id];
      }
      slot := Some(favourites);
      assert before == [] ==> favourites == [id];
      forall x | x != id
        ensures x in favourites <==> x in before
      {
        ToggleKeepsOthers(before, id, x);
      }
      if Distinct(before) {
        ToggleKeepsDistinct(before, id);
        ToggleFlipsMembership(before, id);
      }
    }
  }
}
