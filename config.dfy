/** The stock-management configuration constants, identical in all three versions of the service. */
module Config {

  /** Capacity of the bounded stock queue. */
  const STOCK_SIZE: nat := 100

  /** Occupancy strictly below which replenishment switches on. */
  const REPLENISH_THRESHOLD: nat := 20

  /** Number of parameters generated at startup when the stock is empty. */
  const INITIAL_STOCK: nat := 10

  /** Largest number of parameters generated by one replenishment tick. */
  const REPLENISH_CHUNK_SIZE: nat := 5
}
