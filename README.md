# Pokémon catalogue page: verified model of its sequential logic

The page (`index.js`) fetches Pokémon records from a public catalogue service,
normalises each into a view record, shows them as a card grid and a rotating
carousel, and keeps a list of favourite ids in the browser's local storage.
Almost all of it is network and DOM glue. This project models the three pieces
of sequential logic in it and proves what they promise:

- **Favourites** (`favourites.dfy`, module `Favourites`): the `favourites`
  storage slot is the field `slot: Option<seq<int>>` of class `FavouritesStore`
  (`None` is a key that was never written). `LoadFavourites` reads a missing
  slot as `[]`; `IsPokemonFavourite` is the membership query;
  `ToggleFavourite` removes the first occurrence of an id (`indexOf` +
  `splice`) or appends it, and writes the list back. The value-level function
  `Toggled` is what a toggle writes; lemmas characterise it: an absent id is
  appended, a present id loses only its first occurrence, other ids keep their
  membership and order, lists without duplicates stay without duplicates and
  the toggled id's membership flips, and toggling twice restores an absent id's
  list exactly and a present id's list up to moving that id to the end.
  Toggling twice restores the ids only when the toggled id occurs once (for
  instance on a list without duplicates): with `[7, 7]`, two toggles of 7
  remove both copies, while `[7, 1, 1]` becomes `[1, 1, 7]`. Lists written only by toggles
  starting from a missing slot never have duplicates (`ToggleFavourite`'s last
  postcondition).
- **Carousel** (`carousel.dfy`, module `Carousel`): the state object
  `{popularPokemons, imageIndex}` is class `CarouselState`, with an
  `array<bool>` holding each carousel item's `active` flag. "Next" sets the
  index to `(i + 1) % n`, "previous" to `(i - 1 + n) % n`, with JavaScript's
  truncating `%` written out as `JsRemainder`; both then call `Render`, which
  loops over the items setting the flag only at the index. The page starts at
  index 1 (`InitialImageIndex`), which is in bounds only when the list holds at
  least two items; after any click the index is in `[0, n)`, and exactly one
  item is active.
- **Record normalisation** (`pokemon_info.dfy`, module `PokemonInfo`):
  `ExtractPokemonInfo` maps a raw record to the view record: id and name
  copied, weight and height divided by ten (over `real`, so exactly), the first
  listed ability or `"No Ability"`, and the official artwork URL (absent when
  the payload holds null).

`wrappers.dfy` holds the `Option` datatype.

## Model

| member | source | states |
|---|---|---|
| `Favourites.IndexOf` | index.js:37 | the result is -1 exactly when the id is absent; otherwise it is an in-bounds position holding the id with no earlier occurrence (first occurrence) |
| `Favourites.RemoveAt` | index.js:39 | `splice(index, 1)` shortens the list by one, keeps every entry before the position and shifts every entry after it down by one, and removes exactly one copy of the removed value (multiset) |
| `Favourites.Toggled` | index.js:37-42 | the list a toggle writes back holds one copy fewer of the id when it was present, and one copy more when it was absent; every other id's count is unchanged (multiset) |
| `Favourites.ToggleAbsentAppends` | index.js:37-41 | toggling an absent id appends it at the end and leaves every earlier entry unchanged |
| `Favourites.TogglePresentRemovesFirst` | index.js:37-39 | toggling a present id whose first occurrence is at `k` yields the list with only position `k` removed, the rest in original order |
| `Favourites.ToggleKeepsOthers` | index.js:35-49 | for every other id, membership after a toggle equals membership before |
| `Favourites.ToggleFlipsMembership` | index.js:35-49 | on a list without duplicates the toggled id is present afterwards exactly when it was absent before |
| `Favourites.ToggleKeepsDistinct` | index.js:35-44 | a list without duplicates has none after a toggle |
| `Favourites.ToggleTwiceAbsent` | index.js:37-43 | toggling an absent id twice restores exactly the original list |
| `Favourites.ToggleTwicePresent` | index.js:37-43 | toggling a present id twice on a list without duplicates yields the list with that id moved to the end, the same multiset of ids |
| `Favourites.FavouritesStore.LoadFavourites` | index.js:31-33 | a missing slot loads as the empty list; a present one loads as stored |
| `Favourites.FavouritesStore.IsPokemonFavourite` | index.js:46-49 | the query holds exactly when the toggle's `indexOf` test finds the id, and never on a missing slot |
| `Favourites.FavouritesStore.ToggleFavourite` | index.js:35-44 | the slot afterwards holds the toggled list (so a first toggle on a missing slot stores `[id]`); other ids keep their membership; on a list without duplicates the result has none and the id's membership flips |
| `PokemonInfo.ExtractPokemonInfo` | index.js:11-29 | id and name are copied; ten times the weight and height give the raw values; the ability is the first listed ability's name, or "No Ability" when the list is empty; the image URL is the official artwork's `front_default` |
| `PokemonInfo.AbilityNeverEmpty` | index.js:16-18 | when every listed ability has a name, the shown ability is non-empty and is either "No Ability" or one of the listed names |
| `PokemonInfo.ConversionMonotone` | index.js:14-15 | non-negative raw measures convert to non-negative ones, and the conversion preserves and reflects order |
| `PokemonInfo.ExtractionInjectiveOnKeptFields` | index.js:11-29 | two records with abilities normalise to the same view record exactly when id, name, weight, height, first ability and artwork URL agree |
| `PokemonInfo.ConversionExample` | index.js:14-18 | raw weight 69 and height 17 give 6.9 and 1.7; an empty ability list gives "No Ability" |
| `Carousel.JsRemainder` | index.js:187-192 | JavaScript's `%` by a positive divisor is congruent to the dividend, lies in `[0, b)` on non-negative dividends (where it equals the Euclidean remainder) and in `(-b, 0]` on negative ones, which fixes its value |
| `Carousel.NextIndex` | index.js:187 | from any non-negative index the result is in `[0, n)`; it is `i + 1` below the last index and wraps to 0 from the last |
| `Carousel.PrevIndex` | index.js:192 | from any non-negative index the result is in `[0, n)`; it is `i - 1` above 0 and wraps to `n - 1` from 0 |
| `Carousel.NextPrevInverse` | index.js:186-194 | on in-bounds indices "previous" undoes "next" and "next" undoes "previous" |
| `Carousel.NextTimesRotates` | index.js:186-189 | `k` clicks of "next" move an in-bounds index to `(i + k) mod n`; `n` clicks return to the start |
| `Carousel.ActiveFlags` | index.js:94-97 | one flag per item, set exactly at the position equal to the active index |
| `Carousel.ExactlyOneActive` | index.js:91-98 | the flags `render(k)` produces have exactly one set flag, at `k`, when `0 <= k < n`, and none otherwise |
| `Carousel.Render` | index.js:91-98 | afterwards each item's flag is set exactly when its position equals the given index |
| `Carousel.InitDom` | index.js:137-143 | builds one fresh item per popular Pokémon, only the one at the starting index marked active |
| `Carousel.CarouselState.constructor` | index.js:249-256 | the state starts at index 1 (`InitialImageIndex`, index.js:251) with items built for it; with at least two items exactly item 1 is active |
| `Carousel.CarouselState.Next` | index.js:186-189 | the index becomes `NextIndex` of the old one, lies in `[0, n)`, and exactly that item is active |
| `Carousel.CarouselState.Prev` | index.js:191-194 | the index becomes `PrevIndex` of the old one, lies in `[0, n)`, and exactly that item is active |

## Left out

- `fetchPokemonData` (index.js:3-9): a network request and JSON parse; the model starts from the parsed raw record.
- The `Promise.all` batch loads in `pokemonCatalogue` (index.js:242-247): asynchronous concurrency with no sequential logic beyond the loop building ids 1..40.
- `localStorage` and `JSON.parse`/`JSON.stringify` (index.js:32, 36, 43, 47): the storage slot is the field `slot`; serialisation, and stored values that are not integer arrays, are not modelled.
- The modal, the card grid, the search bar and all event-listener wiring (index.js:51-89, 100-130, 145-179, 197-230): DOM construction with no state the model needs; only each carousel item's `active` flag is kept.
- The search result check `foundData && foundData.name` (index.js:217): a truthiness heuristic over an unspecified upstream reply.
- `PokemonInfo.ExtractPokemonInfo`: assumes a well-formed payload. `RawPokemon` always has every field, so the TypeError the page raises when `abilities`, an entry's `ability` or `sprites.other['official-artwork']` is missing, and the `undefined`/`NaN` fields it produces when `id`, `name`, `weight` or `height` is missing, are not modelled.
- `PokemonInfo.ExtractPokemonInfo`: divides over `real`, not IEEE doubles, so `69 / 10` is exactly 6.9 rather than the nearest double.
- `Carousel.CarouselState.constructor`: requires a non-empty carousel list; with an empty one the page's `%` by zero gives NaN.
- Ids are unbounded integers; JavaScript's number range and `indexOf`'s treatment of NaN are not modelled.
