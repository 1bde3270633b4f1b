/**
 * Normalisation of one raw catalogue record into the view record the page
 * renders (`extractPokemonInfo`, index.js:11-29).
 */
module PokemonInfo {
  import opened Wrappers

  /** `{name}`: a named reference in the catalogue's payload. */
  datatype NamedResource = NamedResource(name: string)

  /** One entry of `abilities`: `{ability: {name}}`. */
  datatype AbilityEntry = AbilityEntry(ability: NamedResource)

  /** `sprites.other['official-artwork']`; `frontDefault` is null when the artwork is missing. */
  datatype Artwork = Artwork(frontDefault: Option<string>)
  datatype OtherSprites = OtherSprites(officialArtwork: Artwork)
  datatype Sprites = Sprites(other: OtherSprites)

  /** The raw record: weight in decigrams, height in decimetres, abilities in listed order. */
  datatype RawPokemon = RawPokemon(
    id: int,
    name: string,
    weight: int,
    height: int,
    abilities: seq<AbilityEntry>,
    sprites: Sprites)

  /** The view record: weight in kilograms, height in metres. */
  datatype PokemonRecord = PokemonRecord(
    id: int,
    name: string,
    weight: real,
    height: real,
    ability: string,
    imageUrl: Option<string>)

  /** The ability shown for a Pokémon whose ability list is empty. */
  const NoAbility: string := "No Ability"

  /** `extractPokemonInfo`: the division by ten is exact here (reals, not doubles). */
  function ExtractPokemonInfo(data: RawPokemon): (r: PokemonRecord)
    ensures r.id == data.id && r.name == data.name
    ensures r.weight * 10.0 == data.weight as real && r.height * 10.0 == data.height as real
    ensures |data.abilities| > 0 ==> r.ability == data.abilities[0].ability.name
    ensures |data.abilities| == 0 ==> r.ability == NoAbility
    ensures r.imageUrl == data.sprites.other.officialArtwork.frontDefault
  {
    PokemonRecord(
      data.id,
      data.name,
      data.weight as real / 10.0,
      data.height as real / 10.0,
      if |data.abilities| > 0 then data.abilities[0].ability.name else NoAbility,
      data.sprites.other.officialArtwork.frontDefault)
  }

  /** The shown ability is never empty when every listed ability has a name. */
  lemma AbilityNeverEmpty(data: RawPokemon)
    requires forall e :: e in data.abilities ==> e.ability.name != ""
    ensures ExtractPokemonInfo(data).ability != ""
    ensures ExtractPokemonInfo(data).ability in {NoAbility} + set e | e in data.abilities :: e.ability.name
  {
  }

  /** Non-negative raw measures give non-negative converted measures, ordered as the raw ones. */
  lemma ConversionMonotone(a: RawPokemon, b: RawPokemon)
    ensures a.weight >= 0 ==> ExtractPokemonInfo(a).weight >= 0.0
    ensures a.height >= 0 ==> ExtractPokemonInfo(a).height >= 0.0
    ensures a.weight <= b.weight <==> ExtractPokemonInfo(a).weight <= ExtractPokemonInfo(b).weight
    ensures a.height <= b.height <==> ExtractPokemonInfo(a).height <= ExtractPokemonInfo(b).height
  {
  }

  /** Two raw records convert to the same view record exactly when every field the view keeps agrees. */
  lemma ExtractionInjectiveOnKeptFields(a: RawPokemon, b: RawPokemon)
    requires |a.abilities| > 0 && |b.abilities| > 0
    ensures ExtractPokemonInfo(a) == ExtractPokemonInfo(b) <==>
              a.id == b.id && a.name == b.name && a.weight == b.weight && a.height == b.height
              && a.abilities[0].ability.name == b.abilities[0].ability.name
              && a.sprites.other.officialArtwork.frontDefault == b.sprites.other.officialArtwork.frontDefault
  {
  }

  /** A raw weight of 69 and height of 17 become 6.9 kg and 1.7 m; an empty ability list shows "No Ability". */
  lemma ConversionExample()
    ensures var r := ExtractPokemonInfo(RawPokemon(1, "bulbasaur", 69, 17, [],
                                                   Sprites(OtherSprites(Artwork(None)))));
            r.weight == 6.9 && r.height == 1.7 && r.ability == "No Ability"
  {
  }
}
