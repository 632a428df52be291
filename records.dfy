/** The JSON records the application keeps about heritage sites and registered travellers. */
module Records {
  import opened Base

  /** A value read with `record.get(key)`: the key is missing, holds JSON null, or holds a string. */
  datatype Field = Absent | Null | Text(value: string)

  /** `record.get(key, default)`: `None` when the key holds null, whose `.lower()` would raise. */
  function Get(f: Field, default: string): Option<string> {
    match f
    case Absent => Some(default)
    case Null => None
    case Text(v) => Some(v)
  }

  datatype Coordinates = Coordinates(lat: real, lng: real)

  /** One entry of `sites_info.json`. */
  datatype Site = Site(
    id: Field,
    name: Field,
    category: Field,
    district: Field,
    imageUrl: Field,
    gallery: seq<string>,
    videoUrl: string,
    historyText: string,
    culture: string,
    coordinates: Coordinates)

  /** One entry of `users_info.json`. */
  datatype User = User(name: Field, email: string, phone: string, timestamp: string)

  /** A JSON list file on disk: missing, holding text `json.load` rejects, or holding its records. */
  datatype Store<T> = NoFile | Unparsable | Records(items: seq<T>)
  {
    /** The records a loader that falls back to `[]` on a missing or corrupt file sees. */
    function ItemsOrEmpty(): seq<T> {
      if Records? then items else []
    }
  }
}
