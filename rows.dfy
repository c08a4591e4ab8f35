/** The tables and rows the dashboard's pipeline passes from stage to stage. */
module Rows {
  import opened Wrappers

  /** Seconds in one UTC calendar day. */
  const SecondsPerDay: int := 86400

  /** Largest gap, in seconds, between a fill and the baseline quote it is joined to. */
  const Tolerance: int := 1800

  /** A price; the pipeline only carries prices and tests them for NULL. */
  type Price = int

  /** A venue label other than the four the dashboard knows by name. */
  type OtherLabel = s: string | s != "Binance" && s != "Cowswap" && s != "Hashflow" && s != "UniswapX"
    witness "other"

  /** The `platform` column; Binance is the baseline venue. */
  datatype Platform = Binance | Cowswap | Hashflow | UniswapX | Other(name: OtherLabel)

  /** A row of the comparison table (`platform`, `wbtc_price`, `fill_time`); every column is nullable. */
  datatype ComparisonRow = ComparisonRow(platform: Option<Platform>, wbtcPrice: Option<Price>, fillTime: Option<int>)

  /** A row of the Binance table (`price`, `time`); every column is nullable. */
  datatype BinanceRow = BinanceRow(price: Option<Price>, time: Option<int>)

  /** A comparison row inside the date window (its fill time is therefore not NULL). */
  datatype Fill = Fill(platform: Option<Platform>, wbtcPrice: Option<Price>, fillTime: int)

  /** A Binance row inside the date window (its time is therefore not NULL). */
  datatype Quote = Quote(price: Option<Price>, time: int)

  /** A row of the aligned query's output. */
  datatype AlignedRow = AlignedRow(
    platform: Option<Platform>,
    fillTime: int,
    wbtcPrice: Option<Price>,
    wbtcPriceFromBinance: Option<Price>,
    binanceTime: int)

  /** A row of the long-form plotting table before NULL rows are dropped. */
  datatype TidyRow = TidyRow(time: int, price: Option<Price>, platform: Option<Platform>)

  /** A row of the long-form plotting table after NULL rows are dropped. */
  datatype PlotRow = PlotRow(time: int, price: Price, platform: Platform)

  /** A row of the wide table: one time and one price per platform present at that time. */
  datatype WideRow = WideRow(time: int, prices: map<Platform, Price>)

  function FillTime(f: Fill): int { f.fillTime }

  function PlotTime(p: PlotRow): int { p.time }

  function AlignedTime(row: AlignedRow): int { row.fillTime }

  function WideTime(w: WideRow): int { w.time }

  /** The (time, platform) pair that identifies a cell of the pivot, before NULL rows are dropped. */
  function TidyEntry(t: TidyRow): (int, Option<Platform>) { (t.time, t.platform) }

  /** The (time, platform) pair that identifies a cell of the pivot. */
  function PlotEntry(p: PlotRow): (int, Platform) { (p.time, p.platform) }

  /** `TIMESTAMP('YYYY-MM-DD')`: midnight UTC of a date given as days since the epoch. */
  function Timestamp(date: int): int { date * SecondsPerDay }

  /** The UTC calendar date (days since the epoch) of a timestamp; floor division. */
  function DateOf(t: int): int { t / SecondsPerDay }

  /** `t BETWEEN TIMESTAMP(startDate) AND TIMESTAMP(endDate)`, inclusive at both ends. */
  predicate Between(t: int, startDate: int, endDate: int) {
    Timestamp(startDate) <= t <= Timestamp(endDate)
  }

  /** `ABS(TIMESTAMP_DIFF(a, b, SECOND))`. */
  function Dist(a: int, b: int): nat { if a < b then b - a else a - b }
}
