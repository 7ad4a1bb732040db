/** The hero record shared by the store and the list view. */
module HeroModel {

  datatype Option<+T> = None | Some(value: T)

  /** One catalogue entry. `id` is assigned by the store; `image` is either a
      URL or an embedded data-encoded image, or absent. */
  datatype Hero = Hero(
    id: int,
    name: string,
    alterEgo: string,
    power: string,
    universe: string,
    image: Option<string>)
}
