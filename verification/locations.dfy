/**
  Locations, location descriptors and navigation actions, shaped after the
  library's `ILocation` and `NavigationAction` interfaces.
 */
module Locations {
  import opened Values

  /** The three kinds of change the raw provider reports. */
  datatype Action = Push | Pop | Replace

  /** A history entry: its position fields, its state and its optional key. */
  datatype Location = Location(
    hash: string,
    pathname: string,
    search: string,
    state: Value,
    key: Option<string>)

  /** A partial location, as passed to `push`/`replace`; an absent state is Undefined. */
  datatype Descriptor = Descriptor(
    hash: Option<string>,
    key: Option<string>,
    pathname: Option<string>,
    search: Option<string>,
    state: Value)

  /** The descriptor holding every field of a location (`{...location}`). */
  function ToDescriptor(l: Location): Descriptor {
    Descriptor(Some(l.hash), l.key, Some(l.pathname), Some(l.search), l.state)
  }

  /** True when two locations agree on hash, key, pathname and search. */
  predicate SamePosition(a: Location, b: Location) {
    a.hash == b.hash && a.key == b.key && a.pathname == b.pathname && a.search == b.search
  }
}
