/**
 * The carousel of popular Pokémon: the index of the shown item, moved by the
 * "next" and "previous" buttons (index.js:181-195), and the `active` flag of
 * each item, set by `initDOM` (index.js:132-179) and `render` (index.js:91-98).
 */
module Carousel {
  import PokemonInfo

  /** JavaScript's `%` on integers: truncates toward zero, so the result takes the dividend's sign. */
  function JsRemainder(a: int, b: int): (r: int)
    requires b > 0
    ensures a >= 0 ==> r == a % b && 0 <= r < b
    ensures a < 0 ==> -b < r <= 0
    ensures r % b == a % b
  {
    if a >= 0 then a % b
    else
      var q, m := (-a) / b, (-a) % b;
      assert -a == q * b + m && 0 <= m < b;
      if m == 0 then
        ModUnique(a, b, -q, 0);
        0
      else
        assert a == (-q - 1) * b + (b - m);
        ModUnique(a, b, -q - 1, b - m);
        ModUnique(-m, b, -1, b - m);
        -m
  }

  /** The "next" handler's index arithmetic: `(i + 1) % n`. */
  function NextIndex(i: int, n: int): (r: int)
    requires n > 0
    ensures 0 <= i ==> 0 <= r < n
    ensures 0 <= i < n - 1 ==> r == i + 1
    ensures i == n - 1 ==> r == 0
  {
    JsRemainder(i + 1, n)
  }

  /** The "previous" handler's index arithmetic: `(i - 1 + n) % n`. */
  function PrevIndex(i: int, n: int): (r: int)
    requires n > 0
    ensures 0 <= i ==> 0 <= r < n
    ensures 0 < i < n ==> r == i - 1
    ensures i == 0 ==> r == n - 1
  {
    JsRemainder(i - 1 + n, n)
  }

  /** "Previous" undoes "next" and "next" undoes "previous" on every in-bounds index. */
  lemma NextPrevInverse(i: int, n: int)
    requires 0 <= i < n
    ensures PrevIndex(NextIndex(i, n), n) == i
    ensures NextIndex(PrevIndex(i, n), n) == i
  {
  }

  /** The index after `k` clicks of "next". */
  function NextTimes(i: int, k: nat, n: int): (r: int)
    requires n > 0
    ensures 0 <= i ==> 0 <= r < n || (k == 0 && r == i)
  {
    if k == 0 then i else NextIndex(NextTimes(i, k - 1, n), n)
  }

  /** `k` clicks of "next" rotate an in-bounds index by `k` places, so `n` clicks come back. */
  lemma {:induction false} NextTimesRotates(i: int, k: nat, n: int)
    requires 0 <= i < n
    ensures NextTimes(i, k, n) == (i + k) % n
    ensures k == n ==> NextTimes(i, k, n) == i
  {
    if k > 0 {
      NextTimesRotates(i, k - 1, n);
      var j := NextTimes(i, k - 1, n);
      assert j == (i + k - 1) % n;
      assert NextTimes(i, k, n) == NextIndex(j, n) == (j + 1) % n;
      ModSucc(i + k - 1, n);
    }
    if k == n {
      ModUnique(i + n, n, 1, i);
    }
  }

  /** Taking the remainder before adding one does not change the remainder after. */
  lemma ModSucc(a: int, n: int)
    requires 0 <= a && n > 0
    ensures (a % n + 1) % n == (a + 1) % n
  {
    var q, r := a / n, a % n;
    assert a == q * n + r && 0 <= r < n;
    if r + 1 == n {
      assert a + 1 == (q + 1) * n + 0;
      ModUnique(a + 1, n, q + 1, 0);
      ModUnique(r + 1, n, 1, 0);
    } else {
      ModUnique(a + 1, n, q, r + 1);
      ModUnique(r + 1, n, 0, r + 1);
    }
  }

  /** A remainder is determined by any quotient-remainder decomposition. */
  lemma ModUnique(a: int, n: int, q: int, r: int)
    requires n > 0 && 0 <= r < n && a == q * n + r
    ensures a % n == r
  {
    var q', r' := a / n, a % n;
    assert a == q' * n + r' && 0 <= r' < n;
    var d := q - q';
    assert d * n == q * n - q' * n;
    assert d * n == r' - r;
    if d > 0 {
      MulAtLeast(d, n);
    } else if d < 0 {
      MulAtLeast(-d, n);
    }
  }

  /** A positive multiple of `n` is at least `n`. */
  lemma MulAtLeast(d: int, n: int)
    requires d >= 1 && n > 0
    ensures d * n >= n
  {
    assert d * n == (d - 1) * n + n;
    assert (d - 1) * n >= 0;
  }

  /** The `active` flags of `n` items when the item at `k` is the active one. */
  function ActiveFlags(k: int, n: nat): (flags: seq<bool>)
    ensures |flags| == n
    ensures forall j :: 0 <= j < n ==> (flags[j] <==> j == k)
  {
    seq(n, j => j == k)
  }

  /** The number of set flags. */
  function CountActive(flags: seq<bool>): (count: nat)
    ensures count <= |flags|
  {
    if flags == [] then 0 else (if flags[0] then 1 else 0) + CountActive(flags[1..])
  }

  /** Exactly one item is active when the index is in bounds, and none otherwise. */
  lemma {:induction false} ExactlyOneActive(k: int, n: nat)
    decreases n
    ensures CountActive(ActiveFlags(k, n)) == if 0 <= k < n then 1 else 0
    ensures 0 <= k < n ==> ActiveFlags(k, n)[k]
  {
    if n > 0 {
      assert ActiveFlags(k, n)[1..] == ActiveFlags(k - 1, n - 1);
      ExactlyOneActive(k - 1, n - 1);
    }
  }

  /** `render`: marks the item at `activeImageIndex` active and clears every other one. */
  method Render(items: array<bool>, activeImageIndex: int)
    modifies items
    ensures items[..] == ActiveFlags(activeImageIndex, items.Length)
  {
    for index := 0 to items.Length
      invariant forall j :: 0 <= j < index ==> items[j] == (j == activeImageIndex)
    {
      items[index] := activeImageIndex == index;
    }
  }

  /** `initDOM`: one fresh item per popular Pokémon, only the one at `imageIndex` marked active. */
  method InitDom(popularPokemons: seq<PokemonInfo.PokemonRecord>, imageIndex: int) returns (items: array<bool>)
    ensures fresh(items)
    ensures items[..] == ActiveFlags(imageIndex, |popularPokemons|)
  {
    items := new bool[|popularPokemons|];
    for index := 0 to |popularPokemons|
      invariant forall j :: 0 <= j < index ==> items[j] == (j == imageIndex)
    {
      // A fresh element carries no class; it gets `active` only at the shown index.
      items[index] := imageIndex == index;
    }
  }

  /** The index the page starts the carousel at. */
  const InitialImageIndex: int := 1

  /** The carousel state object `{popularPokemons, imageIndex}` and its rendered items. */
  class CarouselState {
    const popularPokemons: seq<PokemonInfo.PokemonRecord>
    var imageIndex: int
    /** The `active` flag of each `.carousel-item` element, in list order. */
    var items: array<bool>

    ghost predicate Valid()
      reads this, items
    {
      && |popularPokemons| > 0
      && 0 <= imageIndex
      && items.Length == |popularPokemons|
      && items[..] == ActiveFlags(imageIndex, items.Length)
    }

    /** Builds the state with the starting index and the carousel items. */
    constructor (popularPokemons: seq<PokemonInfo.PokemonRecord>)
      requires |popularPokemons| > 0
      ensures Valid() && fresh(items)
      ensures this.popularPokemons == popularPokemons && imageIndex == InitialImageIndex
      ensures |popularPokemons| > 1 ==> CountActive(items[..]) == 1 && items[InitialImageIndex]
    {
      this.popularPokemons := popularPokemons;
      imageIndex := InitialImageIndex;
      var built := InitDom(popularPokemons, InitialImageIndex);
      items := built;
      new;
      ExactlyOneActive(InitialImageIndex, |popularPokemons|);
    }

    /** The "next" button: advance the index cyclically and re-render. */
    method Next()
      requires Valid()
      modifies this`imageIndex, items
      ensures Valid()
      ensures imageIndex == NextIndex(old(imageIndex), |popularPokemons|)
      ensures 0 <= imageIndex < |popularPokemons|
      ensures CountActive(items[..]) == 1 && items[imageIndex]
    {
      imageIndex := NextIndex(imageIndex, |popularPokemons|);
      Render(items, imageIndex);
      ExactlyOneActive(imageIndex, items.Length);
    }

    /** The "previous" button: move the index back cyclically and re-render. */
    method Prev()
      requires Valid()
      modifies this`imageIndex, items
      ensures Valid()
      ensures imageIndex == PrevIndex(old(imageIndex), |popularPokemons|)
      ensures 0 <= imageIndex < |popularPokemons|
      ensures CountActive(items[..]) == 1 && items[imageIndex]
    {
      imageIndex := PrevIndex(imageIndex, |popularPokemons|);
      Render(items, imageIndex);
      ExactlyOneActive(imageIndex, items.Length);
    }
  }
}
