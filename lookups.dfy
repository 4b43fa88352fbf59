/**
 * getRecipeDescription and getRecipeImage (recipe.js:80-101): an object literal indexed by
 * the soup name, with `||` supplying a fallback. `||` falls back when the entry is missing or
 * is the empty string; no entry is empty, so only a missing name gets the fallback.
 */
module Lookups {
  import Catalog

  const DefaultDescription: string := "Delicious traditional Chinese soup recipe."

  const Descriptions: map<string, string> := map[
    "ABC Soup" := "Classic comfort soup with corn, carrots, tomatoes, and potatoes in a naturally sweet broth.",
    "Watercress Soup" := "Refreshing and nutritious soup with tender watercress and flavorful pork ribs.",
    "Lotus Root with Peanut Soup" := "Hearty and nourishing soup with lotus root and peanuts in a rich, fragrant broth.",
    "Old Cucumber Soup" := "Light and clear soup with softened old cucumber, perfect for hot weather.",
    "Herbal Chicken Soup" := "Traditional Chinese herbal soup with chicken, promoting wellness and vitality."
  ]

  const DefaultImage: string := "Pictures/AbcSoup.jpg"

  const Images: map<string, string> := map[
    "ABC Soup" := "Pictures/AbcSoup.jpg",
    "Watercress Soup" := "Pictures/watercress.jpg",
    "Lotus Root with Peanut Soup" := "Pictures/lotus.jpg",
    "Old Cucumber Soup" := "Pictures/oldcucumbersoup.jpg",
    "Herbal Chicken Soup" := "Pictures/chinesechickenherbalsoup.jpg"
  ]

  /** table[name] || fallback: the entry when there is one and it is not empty. */
  function LookupOr(table: map<string, string>, name: string, fallback: string): string {
    if name in table && table[name] != "" then table[name] else fallback
  }

  function Description(soupName: string): string {
    LookupOr(Descriptions, soupName, DefaultDescription)
  }

  function Image(soupName: string): string {
    LookupOr(Images, soupName, DefaultImage)
  }

  /** With no empty entry, `||` falls back exactly on the names the table lacks. */
  lemma LookupOrOfNonEmpty(table: map<string, string>, name: string, fallback: string)
    requires forall k :: k in table ==> table[k] != ""
    ensures name in table ==> LookupOr(table, name, fallback) == table[name]
    ensures name !in table ==> LookupOr(table, name, fallback) == fallback
  {
  }

  /** Both tables have an entry for exactly the soups on the allow-list. */
  lemma TablesCoverSupportedSoups()
    ensures forall name :: name in Descriptions <==> name in Catalog.SupportedSoups
    ensures forall name :: name in Images <==> name in Catalog.SupportedSoups
  {
  }

  lemma NoEmptyEntries()
    ensures forall k :: k in Descriptions ==> Descriptions[k] != ""
    ensures forall k :: k in Images ==> Images[k] != ""
  {
  }

  /**
   * A supported soup gets its own entry; any other name gets the fallback text and the
   * fallback picture.
   */
  lemma LookupsByName(soupName: string)
    ensures soupName in Catalog.SupportedSoups ==>
      Description(soupName) == Descriptions[soupName] && Image(soupName) == Images[soupName]
    ensures soupName !in Catalog.SupportedSoups ==>
      Description(soupName) == DefaultDescription && Image(soupName) == DefaultImage
  {
    TablesCoverSupportedSoups();
    NoEmptyEntries();
    LookupOrOfNonEmpty(Descriptions, soupName, DefaultDescription);
    LookupOrOfNonEmpty(Images, soupName, DefaultImage);
  }

  /** The fallback picture is ABC Soup's, so every name shows one of the five pictures. */
  lemma ImageIsAPicture(soupName: string)
    ensures Image(soupName) in Images.Values
    ensures soupName !in Catalog.SupportedSoups ==> Image(soupName) == Image("ABC Soup")
  {
    LookupsByName(soupName);
    LookupsByName("ABC Soup");
    assert Images["ABC Soup"] == DefaultImage;
  }
}
