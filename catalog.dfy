/**
  The static winery catalog: the records loaded from the data file once,
  and never changed afterwards.
 */
module Catalog {

  /** A value that may be absent (the source's `null`). */
  datatype Option<+T> = None | Some(value: T)

  /** A (latitude, longitude) pair in decimal degrees. */
  datatype Coord = Coord(lat: real, lng: real)

  /** One winery of the catalog. */
  datatype Site = Site(
    id: int,
    name: string,
    position: Coord,
    openingHours: string,
    city: string,
    description: string,
    website: Option<string>)

  /** The opening-hours values that occur in a catalog. */
  ghost function HoursIn(catalog: seq<Site>): set<string>
  {
    set s | s in catalog :: s.openingHours
  }

  /** The city values that occur in a catalog. */
  ghost function CitiesIn(catalog: seq<Site>): set<string>
  {
    set s | s in catalog :: s.city
  }
}
