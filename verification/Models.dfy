/** The records that the workers pass around (internal/models/market.go). */
module Models {
  import opened Wrappers

  /**
   A float64, named by where it comes from: strconv.ParseFloat applied to a
   text, or a number in a JSON answer. ParseFloat itself stays uninterpreted.
   */
  datatype Number = FromText(text: string) | FromJson(value: real)

  datatype Level = Level(price: string, size: string)

  /** One order book of a POST /books answer. */
  datatype Book = Book(timestamp: string, hash: string, bids: seq<Level>, asks: seq<Level>, lastTradePrice: string)

  /** The books of an answer, by token. */
  type Books = map<string, Book>

  /** What one POST /books request returns: an error, or the books. */
  type Answer = Option<Books>

  datatype ActiveToken = ActiveToken(tokenId: string, side: string, symbol: string, interval: string)

  /** A row for the book_snapshots table. */
  datatype Snapshot = Snapshot(
    tokenId: string, side: string, symbol: string, interval: string,
    lastTrade: Option<Number>, bookHash: Option<string>, timestampApi: Option<int>,
    rawBids: seq<Level>, rawAsks: seq<Level>)
}
