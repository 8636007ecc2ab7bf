/** The plain data records of the store-query program. Latitude, longitude and the
    floating-point zip code are left out: the only thing the selection logic needs from a
    store's position is its distance from the query point, which is an abstract ordered key
    here. */
module Records {

  /** A store as read from the data files (its identity and address). */
  datatype Store = Store(id: string, address: string, city: string, state: string)

  /** A query: how many of the closest stores are asked for. */
  datatype Query = Query(numStores: int)

  /** A store paired with its distance from one query point. */
  datatype StoreDistance = StoreDistance(store: Store, distance: int)

  /** The one exception the selection can raise: `Random.nextInt` with a bound that is not
      positive throws `IllegalArgumentException`. */
  datatype Failure = IllegalArgument

  datatype Result<T> = Ok(value: T) | Err(error: Failure)
}
