/**
 Fetching order books in batches and merging them into markets
 (internal/scanner/scanner.go, fetchAndMergeCLOBData and mergeBookData).
 */
module BookMerge {
  import opened Wrappers
  import opened Models
  import opened Batching
  import opened MarketTable

  function TextOf(columns: Columns, c: Column): Option<string> {
    if c in columns && columns[c].Text? then Some(columns[c].text) else None
  }

  /** The book of the market's yes or no token, if it has the token and the answer has the book. */
  function Find(columns: Columns, token: Column, books: Books): Option<Book> {
    if TextOf(columns, token).Some? && TextOf(columns, token).value in books
    then Some(books[TextOf(columns, token).value]) else None
  }

  /** What the yes book says replaces what is there, field by field. */
  function WithBookData(columns: Columns, book: Book): Columns {
    var c1 := if book.bids != [] then columns[BestBid := Float(FromText(book.bids[0].price))] else columns;
    var c2 := if book.asks != [] then c1[BestAsk := Float(FromText(book.asks[0].price))] else c1;
    var c3 := if book.lastTradePrice != "" then c2[LastTradePrice := Float(FromText(book.lastTradePrice))] else c2;
    if book.hash != "" then c3[LastBookHash := Text(book.hash)] else c3
  }

  predicate NoHash(columns: Columns) {
    TextOf(columns, LastBookHash).None? || TextOf(columns, LastBookHash).value == ""
  }

  /** One pass of the merge loop for one market. */
  function MergeBooks(columns: Columns, books: Books): Columns {
    var yes, no := Find(columns, TokenIdYes, books), Find(columns, TokenIdNo, books);
    var c1 := if yes.Some? then WithBookData(columns, yes.value) else columns;
    if no.Some? && NoHash(c1) then c1[LastBookHash := Text(no.value.hash)] else c1
  }

  function MergeAll(columns: Columns, received: seq<Books>): Columns {
    if received == [] then columns
    else MergeBooks(MergeAll(columns, received[..|received| - 1]), received[|received| - 1])
  }

  // ---- What merging means, without an order of batches ----

  /** No two answers disagree on the book of a token. */
  predicate Agree(received: seq<Books>) {
    forall i, j | 0 <= i < |received| && 0 <= j < |received| ::
      forall token | token in received[i] && token in received[j] :: received[i][token] == received[j][token]
  }

  function Union(received: seq<Books>): Books {
    if received == [] then map[]
    else Union(received[..|received| - 1]) + received[|received| - 1]
  }

  /**
   The column of a market to which all received books belong: quotes come from
   the yes book alone, and so does the hash unless the yes book has none and
   the market had none either; then it is the no book's.
   */
  function SettledBy(columns: Columns, yes: Option<Book>, no: Option<Book>, c: Column): Option<Value> {
    if c == BestBid && yes.Some? && yes.value.bids != [] then Some(Float(FromText(yes.value.bids[0].price)))
    else if c == BestAsk && yes.Some? && yes.value.asks != [] then Some(Float(FromText(yes.value.asks[0].price)))
    else if c == LastTradePrice && yes.Some? && yes.value.lastTradePrice != ""
    then Some(Float(FromText(yes.value.lastTradePrice)))
    else if c == LastBookHash && yes.Some? && yes.value.hash != "" then Some(Text(yes.value.hash))
    else if c == LastBookHash && NoHash(columns) && no.Some? then Some(Text(no.value.hash))
    else Get(columns, c)
  }

  function Settled(columns: Columns, books: Books, c: Column): Option<Value> {
    SettledBy(columns, Find(columns, TokenIdYes, books), Find(columns, TokenIdNo, books), c)
  }

  lemma {:induction false} UnionHolds(received: seq<Books>, token: string, i: nat)
    requires Agree(received) && i < |received| && token in received[i]
    ensures token in Union(received) && Union(received)[token] == received[i][token]
  {
    var n := |received| - 1;
    if i < n && token !in received[n] {
      UnionHolds(received[..n], token, i);
    }
  }

  lemma {:induction false} UnionComesFrom(received: seq<Books>, token: string) returns (i: nat)
    requires Agree(received) && token in Union(received)
    ensures i < |received| && token in received[i] && Union(received)[token] == received[i][token]
  {
    var n := |received| - 1;
    if token in received[n] {
      i := n;
    } else {
      i := UnionComesFrom(received[..n], token);
    }
  }

  lemma BookDataCell(columns: Columns, book: Book, c: Column)
    ensures Get(WithBookData(columns, book), c) ==
            if c == LastBookHash && book.hash == "" then Get(columns, c) else SettledBy(columns, Some(book), None, c)
  {
  }

  lemma MergeOnceSettles(columns: Columns, books: Books, c: Column)
    ensures Get(MergeBooks(columns, books), c) == Settled(columns, books, c)
  {
    var yes := Find(columns, TokenIdYes, books);
    if yes.Some? {
      BookDataCell(columns, yes.value, c);
      BookDataCell(columns, yes.value, LastBookHash);
    }
  }

  function Either(newer: Option<Book>, older: Option<Book>): Option<Book> {
    if newer.Some? then newer else older
  }

  /** Settling twice with agreeing books is settling once with both. */
  lemma SettleTwice(columns: Columns, once: Columns, yes1: Option<Book>, no1: Option<Book>,
                    yes2: Option<Book>, no2: Option<Book>, c: Column)
    requires yes1.Some? && yes2.Some? ==> yes1 == yes2
    requires no1.Some? && no2.Some? ==> no1 == no2
    requires Get(once, c) == SettledBy(columns, yes1, no1, c)
    requires Get(once, LastBookHash) == SettledBy(columns, yes1, no1, LastBookHash)
    ensures SettledBy(once, yes2, no2, c) == SettledBy(columns, Either(yes2, yes1), Either(no2, no1), c)
  {
  }

  lemma FindUnion(columns: Columns, token: Column, first: Books, more: Books)
    ensures Find(columns, token, first + more) == Either(Find(columns, token, more), Find(columns, token, first))
  {
  }

  lemma FindSame(columns: Columns, once: Columns, token: Column, books: Books)
    requires Get(once, token) == Get(columns, token)
    ensures Find(once, token, books) == Find(columns, token, books)
  {
  }

  lemma SettleAgain(columns: Columns, once: Columns, first: Books, more: Books, c: Column)
    requires forall token | token in first && token in more :: first[token] == more[token]
    requires forall d :: Get(once, d) == Settled(columns, first, d)
    ensures Settled(once, more, c) == Settled(columns, first + more, c)
  {
    assert Get(once, TokenIdYes) == Settled(columns, first, TokenIdYes);
    assert Get(once, TokenIdNo) == Settled(columns, first, TokenIdNo);
    FindSame(columns, once, TokenIdYes, more);
    FindSame(columns, once, TokenIdNo, more);
    FindUnion(columns, TokenIdYes, first, more);
    FindUnion(columns, TokenIdNo, first, more);
    SettleTwice(columns, once, Find(columns, TokenIdYes, first), Find(columns, TokenIdNo, first),
                Find(columns, TokenIdYes, more), Find(columns, TokenIdNo, more), c);
  }

  /**
   However the books come in, in batches of any size, with any of them missing
   and any answered twice, the outcome depends only on the market as it was
   and on the books received.
   */
  lemma {:induction false} MergeIsOrderFree(columns: Columns, received: seq<Books>, c: Column)
    requires Agree(received)
    ensures Get(MergeAll(columns, received), c) == Settled(columns, Union(received), c)
  {
    if received != [] {
      var n := |received| - 1;
      var once, last := MergeAll(columns, received[..n]), received[n];
      forall d
        ensures Get(once, d) == Settled(columns, Union(received[..n]), d)
      {
        MergeIsOrderFree(columns, received[..n], d);
      }
      forall token | token in Union(received[..n]) && token in last
        ensures Union(received[..n])[token] == last[token]
      {
        var i := UnionComesFrom(received[..n], token);
        assert received[..n][i] == received[i];
      }
      MergeOnceSettles(once, last, c);
      SettleAgain(columns, once, Union(received[..n]), last, c);
    }
  }

  /** What the yes book of an answer sets a column to. */
  function Quote(columns: Columns, books: Books, c: Column): Option<Value> {
    SettledBy(map[], Find(columns, TokenIdYes, books), None, c)
  }

  function LastQuote(columns: Columns, received: seq<Books>, c: Column): (quote: Option<Value>)
    ensures c == LastBookHash && quote.Some? ==> quote.value.Text? && quote.value.text != ""
  {
    if received == [] then None
    else
      var n := |received| - 1;
      if Quote(columns, received[n], c).Some? then Quote(columns, received[n], c)
      else LastQuote(columns, received[..n], c)
  }

  /** The first hash of the no book that is not empty; the empty one if all are. */
  function FirstNoHash(columns: Columns, received: seq<Books>): Option<string> {
    if received == [] then None
    else
      var n := |received| - 1;
      EarlierHash(FirstNoHash(columns, received[..n]), Find(columns, TokenIdNo, received[n]))
  }

  function EarlierHash(earlier: Option<string>, no: Option<Book>): Option<string> {
    if no.Some? && (earlier.None? || earlier.value == "") then Some(no.value.hash) else earlier
  }

  /** The last quote if there is one; a market without a hash takes that of the no book. */
  function Held(columns: Columns, quote: Option<Value>, no: Option<string>, c: Column): Option<Value> {
    if quote.Some? then quote
    else if c == LastBookHash && NoHash(columns) && no.Some? then Some(Text(no.value))
    else Get(columns, c)
  }

  lemma HeldOneMore(columns: Columns, once: Columns, quote: Option<Value>, hash: Option<Value>, earlier: Option<string>,
                    yes: Option<Book>, no: Option<Book>, c: Column)
    requires hash.Some? ==> hash.value.Text? && hash.value.text != ""
    requires c == LastBookHash ==> quote == hash
    requires Get(once, c) == Held(columns, quote, earlier, c)
    requires Get(once, LastBookHash) == Held(columns, hash, earlier, LastBookHash)
    ensures SettledBy(once, yes, no, c) ==
            Held(columns, if SettledBy(map[], yes, None, c).Some? then SettledBy(map[], yes, None, c) else quote,
                 EarlierHash(earlier, no), c)
  {
  }

  /**
   Answers may also disagree. A column holds the last value that a yes book gave
   it, however that lies between the batches; failing that, a market without a
   hash takes the first one of the no book.
   */
  lemma {:induction false} MergeIsLastQuote(columns: Columns, received: seq<Books>, c: Column)
    ensures Get(MergeAll(columns, received), c) ==
            Held(columns, LastQuote(columns, received, c), FirstNoHash(columns, received), c)
  {
    if received != [] {
      var n := |received| - 1;
      var once, last := MergeAll(columns, received[..n]), received[n];
      MergeIsLastQuote(columns, received[..n], c);
      MergeIsLastQuote(columns, received[..n], LastBookHash);
      MergeKeepsOthers(columns, received[..n], TokenIdYes);
      MergeKeepsOthers(columns, received[..n], TokenIdNo);
      FindSame(columns, once, TokenIdYes, last);
      FindSame(columns, once, TokenIdNo, last);
      MergeOnceSettles(once, last, c);
      HeldOneMore(columns, once, LastQuote(columns, received[..n], c), LastQuote(columns, received[..n], LastBookHash),
                  FirstNoHash(columns, received[..n]),
                  Find(columns, TokenIdYes, last), Find(columns, TokenIdNo, last), c);
    }
  }

  /** Merging fills nulls and replaces values; it never nulls a column. */
  lemma {:induction false} MergeNeverNulls(columns: Columns, received: seq<Books>)
    ensures columns.Keys <= MergeAll(columns, received).Keys
  {
    if received != [] {
      MergeNeverNulls(columns, received[..|received| - 1]);
    }
  }

  /** The columns that order books speak of. */
  predicate IsBookColumn(c: Column) {
    c == BestBid || c == BestAsk || c == LastTradePrice || c == LastBookHash
  }

  lemma {:induction false} MergeKeepsOthers(columns: Columns, received: seq<Books>, c: Column)
    requires !IsBookColumn(c)
    ensures Get(MergeAll(columns, received), c) == Get(columns, c)
  {
    if received != [] {
      MergeKeepsOthers(columns, received[..|received| - 1], c);
    }
  }

  // ---- In terms of the market's tokens and their books ----

  /** One answer that has the yes book: what the book says of prices and hash is what the market then says. */
  lemma YesBookIsMerged(columns: Columns, books: Books, y: string)
    requires Get(columns, TokenIdYes) == Some(Text(y)) && y in books
    ensures var m, b := MergeBooks(columns, books), books[y];
            && Get(m, BestBid) == (if b.bids != [] then Some(Float(FromText(b.bids[0].price)))
                                   else Get(columns, BestBid))
            && Get(m, BestAsk) == (if b.asks != [] then Some(Float(FromText(b.asks[0].price)))
                                   else Get(columns, BestAsk))
            && Get(m, LastTradePrice) == (if b.lastTradePrice != "" then Some(Float(FromText(b.lastTradePrice)))
                                          else Get(columns, LastTradePrice))
            && (b.hash != "" ==> Get(m, LastBookHash) == Some(Text(b.hash)))
  {
    MergeOnceSettles(columns, books, BestBid);
    MergeOnceSettles(columns, books, BestAsk);
    MergeOnceSettles(columns, books, LastTradePrice);
    MergeOnceSettles(columns, books, LastBookHash);
  }

  lemma NothingFound(columns: Columns, token: Column, books: Books)
    requires forall x | Get(columns, token) == Some(Text(x)) :: x !in books
    ensures Find(columns, token, books) == None
  {
    if token in columns && columns[token].Text? {
      assert Get(columns, token) == Some(Text(columns[token].text));
    }
  }

  /** An answer that has neither of the market's books leaves it alone. */
  lemma NoBookNoChange(columns: Columns, books: Books)
    requires forall y | Get(columns, TokenIdYes) == Some(Text(y)) :: y !in books
    requires forall n | Get(columns, TokenIdNo) == Some(Text(n)) :: n !in books
    ensures MergeBooks(columns, books) == columns
  {
    NothingFound(columns, TokenIdYes, books);
    NothingFound(columns, TokenIdNo, books);
  }

  /** An answer that has the no book alone: its hash fills in for a missing one, and nothing else changes. */
  lemma NoBookFillsHash(columns: Columns, books: Books, n: string)
    requires forall y | Get(columns, TokenIdYes) == Some(Text(y)) :: y !in books
    requires Get(columns, TokenIdNo) == Some(Text(n)) && n in books
    ensures var missing := forall h | Get(columns, LastBookHash) == Some(Text(h)) :: h == "";
            MergeBooks(columns, books) == if missing then columns[LastBookHash := Text(books[n].hash)] else columns
  {
    NothingFound(columns, TokenIdYes, books);
    assert NoHash(columns) <==> forall h | Get(columns, LastBookHash) == Some(Text(h)) :: h == "";
  }

  /** The i-th answer is the last one whose yes book sets the column. */
  lemma {:induction false} LastQuoteIs(columns: Columns, received: seq<Books>, c: Column, i: nat)
    requires i < |received| && Quote(columns, received[i], c).Some?
    requires forall j | i < j < |received| :: Quote(columns, received[j], c).None?
    ensures LastQuote(columns, received, c) == Quote(columns, received[i], c)
  {
    if i < |received| - 1 {
      LastQuoteIs(columns, received[..|received| - 1], c, i);
    }
  }

  lemma {:induction false} NoQuote(columns: Columns, received: seq<Books>, c: Column)
    requires forall j | 0 <= j < |received| :: Quote(columns, received[j], c).None?
    ensures LastQuote(columns, received, c) == None
  {
    if received != [] {
      NoQuote(columns, received[..|received| - 1], c);
    }
  }

  /** Over all answers the best bid is that of the last yes book that had any. */
  lemma MergedBid(columns: Columns, received: seq<Books>, y: string, i: nat)
    requires Get(columns, TokenIdYes) == Some(Text(y))
    requires i < |received| && y in received[i] && received[i][y].bids != []
    requires forall j | i < j < |received| && y in received[j] :: received[j][y].bids == []
    ensures Get(MergeAll(columns, received), BestBid) == Some(Float(FromText(received[i][y].bids[0].price)))
  {
    LastQuoteIs(columns, received, BestBid, i);
    MergeIsLastQuote(columns, received, BestBid);
  }

  lemma MergedAsk(columns: Columns, received: seq<Books>, y: string, i: nat)
    requires Get(columns, TokenIdYes) == Some(Text(y))
    requires i < |received| && y in received[i] && received[i][y].asks != []
    requires forall j | i < j < |received| && y in received[j] :: received[j][y].asks == []
    ensures Get(MergeAll(columns, received), BestAsk) == Some(Float(FromText(received[i][y].asks[0].price)))
  {
    LastQuoteIs(columns, received, BestAsk, i);
    MergeIsLastQuote(columns, received, BestAsk);
  }

  lemma MergedLastTrade(columns: Columns, received: seq<Books>, y: string, i: nat)
    requires Get(columns, TokenIdYes) == Some(Text(y))
    requires i < |received| && y in received[i] && received[i][y].lastTradePrice != ""
    requires forall j | i < j < |received| && y in received[j] :: received[j][y].lastTradePrice == ""
    ensures Get(MergeAll(columns, received), LastTradePrice) == Some(Float(FromText(received[i][y].lastTradePrice)))
  {
    LastQuoteIs(columns, received, LastTradePrice, i);
    MergeIsLastQuote(columns, received, LastTradePrice);
  }

  /** Over all answers the hash is that of the last yes book that had one. */
  lemma MergedHash(columns: Columns, received: seq<Books>, y: string, i: nat)
    requires Get(columns, TokenIdYes) == Some(Text(y))
    requires i < |received| && y in received[i] && received[i][y].hash != ""
    requires forall j | i < j < |received| && y in received[j] :: received[j][y].hash == ""
    ensures Get(MergeAll(columns, received), LastBookHash) == Some(Text(received[i][y].hash))
  {
    LastQuoteIs(columns, received, LastBookHash, i);
    MergeIsLastQuote(columns, received, LastBookHash);
  }

  /** The first no book, from i on, that had a hash. */
  lemma {:induction false} FirstNoHashIs(columns: Columns, received: seq<Books>, n: string, i: nat)
    requires Get(columns, TokenIdNo) == Some(Text(n))
    requires i < |received| && n in received[i] && received[i][n].hash != ""
    requires forall j | 0 <= j < i && n in received[j] :: received[j][n].hash == ""
    ensures FirstNoHash(columns, received) == Some(received[i][n].hash)
  {
    var last := |received| - 1;
    if i < last {
      FirstNoHashIs(columns, received[..last], n, i);
    } else {
      NoHashYet(columns, received[..last], n);
    }
  }

  lemma {:induction false} NoHashYet(columns: Columns, received: seq<Books>, n: string)
    requires Get(columns, TokenIdNo) == Some(Text(n))
    requires forall j | 0 <= j < |received| && n in received[j] :: received[j][n].hash == ""
    ensures FirstNoHash(columns, received).Some? ==> FirstNoHash(columns, received).value == ""
  {
    if received != [] {
      NoHashYet(columns, received[..|received| - 1], n);
    }
  }

  /** A market without a hash, of which no yes book has one, gets that of the first no book that has. */
  lemma MergedNoHash(columns: Columns, received: seq<Books>, n: string, i: nat)
    requires forall h | Get(columns, LastBookHash) == Some(Text(h)) :: h == ""
    requires forall y, j | Get(columns, TokenIdYes) == Some(Text(y)) && 0 <= j < |received| && y in received[j] ::
               received[j][y].hash == ""
    requires Get(columns, TokenIdNo) == Some(Text(n))
    requires i < |received| && n in received[i] && received[i][n].hash != ""
    requires forall j | 0 <= j < i && n in received[j] :: received[j][n].hash == ""
    ensures Get(MergeAll(columns, received), LastBookHash) == Some(Text(received[i][n].hash))
  {
    forall j | 0 <= j < |received|
      ensures Quote(columns, received[j], LastBookHash).None?
    {
      if TokenIdYes in columns && columns[TokenIdYes].Text? {
        assert Get(columns, TokenIdYes) == Some(Text(columns[TokenIdYes].text));
      }
    }
    NoQuote(columns, received, LastBookHash);
    FirstNoHashIs(columns, received, n, i);
    MergeIsLastQuote(columns, received, LastBookHash);
    assert TextOf(columns, LastBookHash).Some? ==> Get(columns, LastBookHash) == Some(Text(columns[LastBookHash].text));
  }

  // ---- Batch size ----

  function Restrict(world: Books, tokens: seq<string>): Books {
    map token | token in tokens && token in world :: world[token]
  }

  /** What the batches of a token list return when no request fails. */
  function BatchAnswers(world: Books, batches: seq<seq<string>>): (received: seq<Books>)
    ensures |received| == |batches|
  {
    seq(|batches|, i requires 0 <= i < |batches| => Restrict(world, batches[i]))
  }

  lemma {:induction false} BatchesCover(world: Books, batches: seq<seq<string>>)
    ensures Union(BatchAnswers(world, batches)) == Restrict(world, Concat(batches))
  {
    if batches != [] {
      var n := |batches| - 1;
      BatchesCover(world, batches[..n]);
      ConcatAppend(batches[..n], batches[n]);
      assert batches == batches[..n] + [batches[n]];
      assert BatchAnswers(world, batches)[..n] == BatchAnswers(world, batches[..n]);
    }
  }

  /** Merging batch by batch is merging the answer to one big request, for every batch size. */
  lemma ChunkedIsOneShot(columns: Columns, world: Books, tokens: seq<string>, size: nat)
    requires size > 0
    ensures MergeAll(columns, BatchAnswers(world, Chunk(tokens, size))) == MergeBooks(columns, Restrict(world, tokens))
  {
    var received := BatchAnswers(world, Chunk(tokens, size));
    BatchesCover(world, Chunk(tokens, size));
    ChunkPartitions(tokens, size);
    forall c
      ensures Get(MergeAll(columns, received), c) == Get(MergeBooks(columns, Restrict(world, tokens)), c)
    {
      MergeIsOrderFree(columns, received, c);
      MergeOnceSettles(columns, Restrict(world, tokens), c);
    }
    SameColumns(MergeAll(columns, received), MergeBooks(columns, Restrict(world, tokens)));
  }

  // ---- The loop over mutable markets ----

  /** A market under construction; its pointer fields are the columns. */
  class NewMarket {
    const slug: string
    const symbol: string
    const interval: string
    var columns: Columns

    constructor (m: Market)
      ensures View() == m
    {
      slug, symbol, interval := m.slug, m.symbol, m.interval;
      columns := m.columns;
    }

    function View(): Market
      reads this
    {
      Market(slug, symbol, interval, columns)
    }

    method MergeBookData(book: Book)
      modifies this
      ensures columns == WithBookData(old(columns), book)
    {
      if |book.bids| > 0 {
        columns := columns[BestBid := Float(FromText(book.bids[0].price))];
      }
      if |book.asks| > 0 {
        columns := columns[BestAsk := Float(FromText(book.asks[0].price))];
      }
      if book.lastTradePrice != "" {
        columns := columns[LastTradePrice := Float(FromText(book.lastTradePrice))];
      }
      if book.hash != "" {
        columns := columns[LastBookHash := Text(book.hash)];
      }
    }

    method Merge(books: Books)
      modifies this
      ensures columns == MergeBooks(old(columns), books)
    {
      var yes, no := Find(columns, TokenIdYes, books), Find(columns, TokenIdNo, books);
      if yes.Some? {
        MergeBookData(yes.value);
      }
      if no.Some? {
        if NoHash(columns) {
          columns := columns[LastBookHash := Text(no.value.hash)];
        }
      }
    }
  }

  /** The books received in the first k batches. */
  function Received(answers: nat -> Answer, k: nat): seq<Books> {
    if k == 0 then []
    else Received(answers, k - 1) + if answers(k - 1).Some? then [answers(k - 1).value] else []
  }

  function Merged(market: Market, received: seq<Books>): Market {
    market.(columns := MergeAll(market.columns, received))
  }

  function MergedAll(markets: seq<Market>, received: seq<Books>): (merged: seq<Market>)
    ensures |merged| == |markets|
  {
    seq(|markets|, i requires 0 <= i < |markets| => Merged(markets[i], received))
  }

  /** The merged markets supersede the plain ones, so the upsert before the merge is absorbed by the one after. */
  lemma MergedSupersedes(markets: seq<Market>, received: seq<Books>)
    ensures Supersedes(MergedAll(markets, received), markets)
  {
    forall i | 0 <= i < |markets|
      ensures markets[i].columns.Keys <= MergedAll(markets, received)[i].columns.Keys
    {
      MergeNeverNulls(markets[i].columns, received);
    }
  }

  /** Each entry of the list is an object of its own, as each was allocated for it. */
  ghost predicate Distinct(markets: seq<NewMarket>) {
    forall i, j | 0 <= i < j < |markets| :: markets[i] != markets[j]
  }

  function Views(markets: seq<NewMarket>): (views: seq<Market>)
    reads markets
    ensures |views| == |markets|
    ensures forall i | 0 <= i < |markets| :: views[i] == markets[i].View()
  {
    if markets == [] then [] else Views(markets[..|markets| - 1]) + [markets[|markets| - 1].View()]
  }

  lemma MergeAllSnoc(columns: Columns, received: seq<Books>, books: Books)
    ensures MergeAll(columns, received + [books]) == MergeBooks(MergeAll(columns, received), books)
  {
    assert (received + [books])[..|received|] == received;
  }

  lemma MergeAllOne(columns: Columns, books: Books)
    ensures MergeAll(columns, [books]) == MergeBooks(columns, books)
  {
    MergeAllSnoc(columns, [], books);
    assert [] + [books] == [books];
  }

  lemma MergedOneMore(markets: seq<Market>, received: seq<Books>, books: Books)
    ensures MergedAll(markets, received + [books]) == MergedAll(MergedAll(markets, received), [books])
  {
    forall i | 0 <= i < |markets|
      ensures MergedAll(markets, received + [books])[i] == MergedAll(MergedAll(markets, received), [books])[i]
    {
      MergeAllSnoc(markets[i].columns, received, books);
      MergeAllOne(MergeAll(markets[i].columns, received), books);
    }
  }

  lemma NothingMerged(markets: seq<Market>)
    ensures MergedAll(markets, []) == markets
  {
  }

  lemma MergedOne(markets: seq<Market>, books: Books)
    ensures forall i | 0 <= i < |markets| ::
              MergedAll(markets, [books])[i] == markets[i].(columns := MergeBooks(markets[i].columns, books))
  {
    forall i | 0 <= i < |markets|
      ensures MergedAll(markets, [books])[i] == markets[i].(columns := MergeBooks(markets[i].columns, books))
    {
      MergeAllOne(markets[i].columns, books);
    }
  }

  method MergeIntoMarkets(markets: seq<NewMarket>, books: Books)
    requires Distinct(markets)
    modifies markets
    ensures Views(markets) == MergedAll(old(Views(markets)), [books])
  {
    var j := 0;
    while j < |markets|
      invariant 0 <= j <= |markets|
      invariant forall i | 0 <= i < j :: markets[i].columns == MergeBooks(old(markets[i].columns), books)
      invariant forall i | j <= i < |markets| :: markets[i].columns == old(markets[i].columns)
    {
      markets[j].Merge(books);
      j := j + 1;
    }
    MergedOne(old(Views(markets)), books);
  }

  /** The markets hold what they held at start with the first k batches merged in. */
  ghost predicate Stands(markets: seq<NewMarket>, start: seq<Market>, answers: nat -> Answer, k: nat)
    reads markets
  {
    Views(markets) == MergedAll(start, Received(answers, k))
  }

  /** The loop has come to its end, or to a batch before which the context ended. */
  ghost predicate Over(batches: nat, count: nat, cancelled: nat -> bool) {
    batches <= count && (batches == count || cancelled(batches)) && Uncancelled(cancelled, batches)
  }

  /** One batch: a failed request is passed over. */
  method MergeAnswer(markets: seq<NewMarket>, ghost start: seq<Market>, answers: nat -> Answer, k: nat)
    requires Distinct(markets)
    requires Stands(markets, start, answers, k)
    modifies markets
    ensures Stands(markets, start, answers, k + 1)
  {
    if answers(k).Some? {
      MergeIntoMarkets(markets, answers(k).value);
      MergedOneMore(start, Received(answers, k), answers(k).value);
    } else {
      assert Received(answers, k + 1) == Received(answers, k);
    }
  }

  /**
   The batch loop; answers(k) is what the k-th batch request returns and
   cancelled(k) whether the context has ended before it.
   */
  method FetchAndMergeBatches(
    markets: seq<NewMarket>, tokenIds: seq<string>, batchSize: nat, answers: nat -> Answer, cancelled: nat -> bool)
    returns (batches: nat)
    requires batchSize > 0
    requires Distinct(markets)
    modifies markets
    ensures Over(batches, |Chunk(tokenIds, batchSize)|, cancelled)
    ensures Stands(markets, old(Views(markets)), answers, batches)
  {
    ghost var start := Views(markets);
    FirstBatch(tokenIds, batchSize);
    NothingMerged(start);
    batches := 0;
    var i := 0;
    while i < |tokenIds| && !cancelled(batches)
      invariant 0 <= i && AtBatch(tokenIds, batchSize, i, batches)
      invariant Uncancelled(cancelled, batches)
      invariant Stands(markets, start, answers, batches)
      decreases |tokenIds| - i
    {
      var end := if i + batchSize > |tokenIds| then |tokenIds| else i + batchSize;
      NextBatch(tokenIds, batchSize, i, batches, end);
      MergeAnswer(markets, start, answers, batches);
      StillUncancelled(cancelled, batches);
      batches := batches + 1;
      i := i + batchSize;
    }
    NoMoreBatches(tokenIds, batchSize, i, batches);
  }

  /** The whole pass; when it is cut short by cancellation, nothing is upserted. */
  method FetchAndMergeCLOBData(
    markets: seq<NewMarket>, tokenIds: seq<string>, batchSize: nat, answers: nat -> Answer, cancelled: nat -> bool,
    store: MarketStore, stamp: int, fails: bool)
    returns (batches: nat)
    requires batchSize > 0
    requires Distinct(markets)
    modifies markets, store
    ensures Over(batches, |Chunk(tokenIds, batchSize)|, cancelled)
    ensures Stands(markets, old(Views(markets)), answers, batches)
    ensures store.markets == if batches < |Chunk(tokenIds, batchSize)| || fails then old(store.markets)
                             else UpsertAll(old(store.markets), Stamped(Views(markets), stamp))
  {
    batches := FetchAndMergeBatches(markets, tokenIds, batchSize, answers, cancelled);
    if batches < |Chunk(tokenIds, batchSize)| {
      return;
    }
    store.UpsertMarketsBatch(Views(markets), stamp, fails);
  }
}
