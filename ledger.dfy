/**
 * The account ledger of the backend: transaction descriptions, the history
 * buffer, and accounts whose balance is persisted row by row in a
 * `Storage.Database` of `(balance after, transaction)` pairs.
 */
module Ledger {
  import opened Wrappers
  import Storage

  // ---------------------------------------------------------------------
  // Integers and sequences
  // ---------------------------------------------------------------------

  /** Rust's `i64`. */
  newtype i64 = x: int | -0x8000_0000_0000_0000 <= x < 0x8000_0000_0000_0000

  predicate IsI64(x: int) {
    -0x8000_0000_0000_0000 <= x < 0x8000_0000_0000_0000
  }

  /** A sequence back to front. */
  function Reversed<T>(s: seq<T>): (r: seq<T>)
    ensures |r| == |s|
  {
    if s == [] then [] else [s[|s| - 1]] + Reversed(s[..|s| - 1])
  }

  lemma {:induction false} ReversedAt<T>(s: seq<T>, k: nat)
    requires k < |s|
    ensures Reversed(s)[k] == s[|s| - 1 - k]
  {
    if k > 0 {
      ReversedAt(s[..|s| - 1], k - 1);
    }
  }

  lemma ReversedReversed<T>(s: seq<T>)
    ensures Reversed(Reversed(s)) == s
  {
    forall k | 0 <= k < |s|
      ensures Reversed(Reversed(s))[k] == s[k]
    {
      ReversedAt(Reversed(s), k);
      ReversedAt(s, |s| - 1 - k);
    }
  }

  lemma ReversedSnoc<T>(s: seq<T>, x: T)
    ensures Reversed(s + [x]) == [x] + Reversed(s)
  {
  }

  // ---------------------------------------------------------------------
  // Descriptions and transactions
  // ---------------------------------------------------------------------

  /** Number of bytes of the UTF-8 encoding of one character. */
  function Utf8Width(c: char): (r: nat)
    ensures 1 <= r <= 4
  {
    if c as int < 0x80 then 1
    else if c as int < 0x800 then 2
    else if c as int < 0x1_0000 then 3
    else 4
  }

  /** `String::len`: the UTF-8 byte length, between one and four bytes per character. */
  function Utf8Len(s: string): (n: nat)
    ensures |s| <= n <= 4 * |s|
  {
    if s == [] then 0 else Utf8Len(s[..|s| - 1]) + Utf8Width(s[|s| - 1])
  }

  /** A string of ASCII characters takes one byte per character. */
  lemma {:induction false} AsciiLen(s: string)
    requires forall i :: 0 <= i < |s| ==> s[i] as int < 0x80
    ensures Utf8Len(s) == |s|
  {
    if s != [] {
      AsciiLen(s[..|s| - 1]);
    }
  }

  /** Any character outside ASCII makes the byte length exceed the character count. */
  lemma {:induction false} NonAsciiLen(s: string, i: nat)
    requires i < |s| && s[i] as int >= 0x80
    ensures Utf8Len(s) > |s|
  {
    var n := |s| - 1;
    if i < n {
      NonAsciiLen(s[..n], i);
    }
  }

  /** Text of 1 to 10 UTF-8 bytes, the only text a `Description` can hold. */
  type DescriptionText = s: string | 1 <= Utf8Len(s) <= 10 witness "-"

  /**
   * `Description`: a validated transaction description. Deserialization
   * builds one only through `try_from`, so its text always passed the check.
   */
  datatype Description = Description(text: DescriptionText)

  /** The single error of `Description::try_from` ("Descrição inválida"). */
  datatype DescriptionError = InvalidDescription

  /** `Description::try_from`: accepts 1 to 10 bytes of UTF-8 and keeps the text. */
  function DescriptionFrom(value: string): (r: Result<Description, DescriptionError>)
    ensures r.Ok? <==> 1 <= Utf8Len(value) <= 10
    ensures r.Ok? ==> r.value.text == value && 1 <= |value| <= 10
  {
    if |value| == 0 || Utf8Len(value) > 10 then Err(InvalidDescription)
    else Ok(Description(value))
  }

  /** For ASCII text the limit is 1 to 10 characters. */
  lemma AsciiDescription(value: string)
    requires forall i :: 0 <= i < |value| ==> value[i] as int < 0x80
    ensures DescriptionFrom(value).Ok? <==> 1 <= |value| <= 10
  {
    AsciiLen(value);
  }

  /** Ten characters are too many once one of them is not ASCII. */
  lemma TenCharactersNotAscii(value: string, i: nat)
    requires |value| == 10 && i < 10 && value[i] as int >= 0x80
    ensures DescriptionFrom(value) == Err(InvalidDescription)
  {
    NonAsciiLen(value, i);
  }

  datatype TransactionType = Credit | Debit

  /** Stands for the `OffsetDateTime` a transaction was created at. */
  datatype Timestamp = Timestamp(unixNanos: int)

  datatype Transaction = Transaction(
    value: i64,
    kind: TransactionType,
    description: Description,
    createdAt: Timestamp)

  /** One stored row: the balance after the transaction, and the transaction. */
  type Row = (i64, Transaction)

  // ---------------------------------------------------------------------
  // The history buffer
  // ---------------------------------------------------------------------

  /**
   * `RingBuffer<T>`: a `VecDeque` that receives new items at its front.
   * `capacity` is the deque's allocated capacity, which its length never
   * exceeds.
   */
  class RingBuffer<T> {
    var items: seq<T>
    var capacity: nat

    ghost predicate Valid()
      reads this
    {
      |items| <= capacity
    }

    /** `RingBuffer::with_capacity`. */
    constructor WithCapacity(capacity: nat)
      ensures Valid() && items == [] && this.capacity == capacity
    {
      items := [];
      this.capacity := capacity;
    }

    /** `RingBuffer::default`: capacity 10. */
    constructor Default()
      ensures Valid() && items == [] && capacity == 10
    {
      items := [];
      capacity := 10;
    }

    /**
     * `RingBuffer::push`. The eviction branch tests `len > capacity`,
     * which never holds, so every push keeps all items.
     */
    method Push(item: T)
      requires Valid()
      modifies this
      ensures Valid()
      ensures items == [item] + old(items)
      ensures capacity >= old(capacity)
    {
      if |items| > capacity {
        // pop_back followed by push_front: the deque is never over capacity
        assert false;
      } else {
        items := [item] + items;
        if |items| > capacity {
          // the deque reallocates to hold the new item
          capacity := |items|;
        }
      }
    }

    /** `RingBuffer::from_iter`: pushes every item in turn, so they end up reversed. */
    static method FromIter(xs: seq<T>) returns (rb: RingBuffer<T>)
      ensures fresh(rb) && rb.Valid()
      ensures rb.items == Reversed(xs)
    {
      rb := new RingBuffer.WithCapacity(10);
      var i := 0;
      while i < |xs|
        invariant 0 <= i <= |xs|
        invariant fresh(rb) && rb.Valid()
        invariant rb.items == Reversed(xs[..i])
      {
        assert xs[..i + 1][..i] == xs[..i];
        rb.Push(xs[i]);
        i := i + 1;
      }
      assert xs[..i] == xs;
    }
  }

  /** Reverses an array in place, as `Vec::reverse` does. */
  method ReverseInPlace<T>(a: array<T>)
    modifies a
    ensures a[..] == Reversed(old(a[..]))
  {
    var lo, hi := 0, a.Length;
    while lo + 1 < hi
      invariant 0 <= lo <= hi <= a.Length && lo + hi == a.Length
      invariant forall k :: 0 <= k < lo ==> a[k] == old(a[a.Length - 1 - k])
      invariant forall k :: hi <= k < a.Length ==> a[k] == old(a[a.Length - 1 - k])
      invariant forall k :: lo <= k < hi ==> a[k] == old(a[k])
    {
      a[lo], a[hi - 1] := a[hi - 1], a[lo];
      lo, hi := lo + 1, hi - 1;
    }
    forall k | 0 <= k < a.Length
      ensures a[k] == Reversed(old(a[..]))[k]
    {
      ReversedAt(old(a[..]), k);
    }
  }

  // ---------------------------------------------------------------------
  // Accounts
  // ---------------------------------------------------------------------

  /** The transactions of a run of rows, in the same order. */
  function Transactions(rows: seq<Row>): (r: seq<Transaction>)
    ensures |r| == |rows| && forall i :: 0 <= i < |rows| ==> r[i] == rows[i].1
  {
    seq(|rows|, i requires 0 <= i < |rows| => rows[i].1)
  }

  lemma TransactionsReversed(rows: seq<Row>)
    ensures Transactions(Reversed(rows)) == Reversed(Transactions(rows))
  {
    forall k | 0 <= k < |rows|
      ensures Transactions(Reversed(rows))[k] == Reversed(Transactions(rows))[k]
    {
      ReversedAt(rows, k);
      ReversedAt(Transactions(rows), k);
    }
  }

  /** The balance after the last stored row; 0 for an empty log. */
  function LastBalance(rows: seq<Row>): (r: i64) {
    if rows == [] then 0 else rows[|rows| - 1].0
  }

  /** The errors of `Account::transact`. */
  datatype TransactError =
    | LimitExceeded  // "The amount debited will exceed the client's limit"
    | PersistFailed  // "Error to persist into database"

  /** The additions and subtractions `transact` performs stay within `i64`. */
  predicate InRange(balance: i64, limit: i64, t: Transaction) {
    match t.kind
    case Credit => IsI64(balance as int + t.value as int)
    case Debit =>
      IsI64(balance as int + limit as int) &&
      (balance as int + limit as int >= t.value as int ==> IsI64(balance as int - t.value as int))
  }

  /**
   * The new balance `transact` computes: a credit adds its value, a debit
   * subtracts it only while it stays within the limit (`balance + limit >= value`).
   */
  function NewBalance(balance: i64, limit: i64, t: Transaction): (r: Result<i64, TransactError>)
    requires InRange(balance, limit, t)
    ensures r.Err? <==> t.kind == Debit && balance as int + limit as int < t.value as int
    ensures r.Err? ==> r.error == LimitExceeded
    ensures r.Ok? && t.kind == Debit ==>
              r.value as int == balance as int - t.value as int && r.value as int + limit as int >= 0
  {
    match t.kind
    case Credit => Ok(balance + t.value)
    case Debit =>
      if balance as int + limit as int >= t.value as int then Ok(balance - t.value)
      else Err(LimitExceeded)
  }

  /** A credit is accepted whatever the limit, and adds its value. */
  lemma CreditAlwaysAccepted(balance: i64, limit: i64, t: Transaction)
    requires t.kind == Credit && InRange(balance, limit, t)
    ensures NewBalance(balance, limit, t).Ok?
    ensures NewBalance(balance, limit, t).value as int == balance as int + t.value as int
  {
  }

  /** `balance + limit >= 0` survives every accepted debit and every non-negative credit. */
  lemma WithinLimitPreserved(balance: i64, limit: i64, t: Transaction)
    requires InRange(balance, limit, t) && balance as int + limit as int >= 0
    requires t.kind == Credit ==> t.value >= 0
    ensures NewBalance(balance, limit, t).Ok? ==>
              NewBalance(balance, limit, t).value as int + limit as int >= 0
  {
  }

  /** Credit values are not checked for sign: a negative credit can pass the limit. */
  lemma NegativeCreditPassesLimit(d: Description, at: Timestamp)
    ensures NewBalance(0, 0, Transaction(-1, Credit, d, at)) == Ok(-1)
  {
  }

  /** Appending a row puts its transaction at the front of the history. */
  lemma HistoryAfterAppend(log: seq<Row>, replayed: nat, row: Row)
    requires replayed <= |log|
    ensures [row.1] + Reversed(Transactions(log[replayed..])) + Transactions(log[..replayed]) ==
            Reversed(Transactions((log + [row])[replayed..])) + Transactions((log + [row])[..replayed])
  {
    assert (log + [row])[..replayed] == log[..replayed];
    assert (log + [row])[replayed..] == log[replayed..] + [row];
    assert Transactions(log[replayed..] + [row]) == Transactions(log[replayed..]) + [row.1];
    ReversedSnoc(Transactions(log[replayed..]), row.1);
  }

  /**
   * `Account`: the ledger of one client. `replayed` is the number of rows
   * the account found when it was opened; later rows are its own.
   */
  class Account {
    var balance: i64
    var limit: i64
    var transactions: RingBuffer<Transaction>
    var database: Storage.Database<Row>
    ghost var replayed: nat

    /**
     * The balance is that of the last stored row, and the history holds the
     * rows found at opening oldest first, behind the rows written since,
     * newest first.
     */
    ghost predicate Valid()
      reads this, transactions, database
    {
      transactions.Valid() &&
      balance == LastBalance(database.log) &&
      replayed <= |database.log| &&
      transactions.items ==
        Reversed(Transactions(database.log[replayed..])) + Transactions(database.log[..replayed])
    }

    constructor (balance: i64, limit: i64, transactions: RingBuffer<Transaction>,
                 database: Storage.Database<Row>, ghost replayed: nat)
      ensures this.balance == balance && this.limit == limit
      ensures this.transactions == transactions && this.database == database
      ensures this.replayed == replayed
    {
      this.balance := balance;
      this.limit := limit;
      this.transactions := transactions;
      this.database := database;
      this.replayed := replayed;
    }

    /**
     * `Account::with_database`. `replay` is the outcome of opening the file:
     * the rows its replay yields, or the error that opening hit.
     */
    static method WithDatabase(replay: Result<seq<Row>, Storage.DatabaseError>, limit: i64)
      returns (r: Result<Account, Storage.DatabaseError>)
      ensures replay.Err? ==> r == Err(replay.error)
      ensures replay.Ok? ==>
                r.Ok? && fresh(r.value) && fresh(r.value.transactions) && fresh(r.value.database) &&
                r.value.Valid() &&
                r.value.limit == limit &&
                r.value.database.log == replay.value &&
                r.value.balance == LastBalance(replay.value) &&
                r.value.transactions.items == Transactions(replay.value)
    {
      if replay.Err? {
        return Err(replay.error);
      }
      var database := new Storage.Database.FromPath(replay.value);
      var rows := database.Rows();
      var balance: i64 := if |rows| == 0 then 0 else rows[|rows| - 1].0;
      var buffer := new Row[|rows|](i requires 0 <= i < |rows| => rows[i]);
      assert buffer[..] == rows;
      ReverseInPlace(buffer);
      var history := RingBuffer.FromIter(Transactions(buffer[..]));
      TransactionsReversed(rows);
      ReversedReversed(Transactions(rows));
      assert rows[|rows|..] == [] && rows[..|rows|] == rows;
      var account := new Account(balance, limit, history, database, |rows|);
      return Ok(account);
    }

    /**
     * `Account::transact`. `failure` is the storage fault the database insert
     * hits, if any. Nothing changes unless the row is persisted.
     */
    method Transact(t: Transaction, failure: Option<Storage.DatabaseError>)
      returns (r: Result<(), TransactError>)
      requires Valid() && InRange(balance, limit, t)
      modifies this, transactions, database
      ensures Valid()
      ensures limit == old(limit) && transactions == old(transactions) && database == old(database)
      ensures NewBalance(old(balance), limit, t).Err? ==> r == Err(LimitExceeded)
      ensures NewBalance(old(balance), limit, t).Ok? && failure.Some? ==> r == Err(PersistFailed)
      ensures r.Err? ==> unchanged(this, transactions, database)
      ensures r.Err? ==>
                balance == old(balance) &&
                database.log == old(database.log) &&
                transactions.items == old(transactions.items)
      ensures NewBalance(old(balance), limit, t).Ok? && failure.None? ==> r == Ok(())
      ensures r.Ok? ==>
                var newBalance := NewBalance(old(balance), limit, t).value;
                balance == newBalance &&
                database.log == old(database.log) + [(newBalance, t)] &&
                transactions.items == [t] + old(transactions.items)
      ensures r.Ok? && t.kind == Debit ==> balance as int + limit as int >= 0
    {
      var next := NewBalance(balance, limit, t);
      if next.Err? {
        return Err(next.error);
      }
      var stored := database.Insert((next.value, t), failure);
      if stored.Err? {
        return Err(PersistFailed);
      }
      HistoryAfterAppend(old(database.log), replayed, (next.value, t));
      balance := next.value;
      transactions.Push(t);
      return Ok(());
    }
  }

  /**
   * A fresh account with limit 1000: debit 500 is accepted (balance -500),
   * debit 600 is refused (it would reach -1100), credit 2000 is accepted.
   */
  method LimitScenario() returns (first: Result<(), TransactError>, second: Result<(), TransactError>,
                                  third: Result<(), TransactError>, balance: i64)
    ensures first == Ok(()) && second == Err(LimitExceeded) && third == Ok(())
    ensures balance == 1500
  {
    var replay := Account.WithDatabase(Ok([]), 1000);
    var account := replay.value;
    AsciiDescription("scenario");
    var d := DescriptionFrom("scenario").value;
    first := account.Transact(Transaction(500, Debit, d, Timestamp(0)), None);
    second := account.Transact(Transaction(600, Debit, d, Timestamp(1)), None);
    third := account.Transact(Transaction(2000, Credit, d, Timestamp(2)), None);
    balance := account.balance;
  }
}
