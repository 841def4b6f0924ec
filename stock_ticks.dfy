/** The tick record: one timestamped price/volume observation for a symbol. */
module StockTicks {

  /**
   * StockTick: symbol, epoch-millisecond timestamp, price and volume.
   * Prices are modelled as exact reals instead of IEEE-754 doubles, and the Java
   * `long` fields as unbounded integers.
   */
  datatype Tick = Tick(symbol: string, ts: int, price: real, volume: int)
}
