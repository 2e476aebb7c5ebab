# Row-slot page store and account ledger

This project models the two sequential pieces of a small banking backend
written in Rust.

- **The row-slot `Page`** of the `database` crate (`database/src/lib.rs`).
  A page is a growable byte buffer. Each insert appends one slot of
  `ROW_SIZE = 256` bytes: the payload length as an 8-byte big-endian `u64`,
  the payload, then zero padding. Iterating the page walks the buffer
  slot by slot with a cursor. From each complete slot it yields the `h`
  bytes after the header, where `h` is the header's value.
- **The account ledger** of the server (`src/main.rs`). It covers
  description validation, the `RingBuffer` history, the credit/debit rule
  of `Account::transact`, and `Account::with_database`, which rebuilds
  balance and history from the stored rows.

Modules:

- `Wrappers` (`wrappers.dfy`): `Option` and `Result`.
- `BigEndian` (`big_endian.dfy`): the `byte` type and `u64::to_be_bytes` /
  `u64::from_be_bytes`, with both round trips.
- `Storage` (`storage.dfy`):
  - `Page`, a class over `data: seq<byte>`, with a ghost list of the inserted payloads;
  - `RowCursor`, the iterator `Page::rows` returns;
  - the specification functions `Slot`, `SlotPayload`, `RowsFrom` and `Layout`;
  - `Database<Row>`, the database as the ledger sees it: an append-only log
    whose inserts may fail.
- `Ledger` (`ledger.dfy`): `Description`, `Transaction`, `RingBuffer`,
  `NewBalance` and `Account`.

Outcomes that depend on the outside world are parameters:

- the result of serializing a row (`Page.Insert`);
- the rows a database file replays, or the error opening it hits (`Account.WithDatabase`);
- the storage fault a database insert hits (`Database.Insert`, `Account.Transact`).

### Behaviour of the Rust code worth knowing

- **Zero headers.** `rows` has no zero-header test. A slot whose header is
  zero yields an empty item and iteration goes on; only the end of the
  buffer stops it (`Storage.ZeroHeaderContinues`).
- **Oversized rows.** An oversized row panics on the padding subtraction
  `ROW_SIZE - (len + 8)`; `insert` has no error for it. `Page.Insert`
  therefore requires that the payload fits.
- **History never evicts.** `RingBuffer::push` evicts only when
  `len > capacity`, and a `VecDeque` is never over capacity. Every push keeps
  all items, so the history grows without bound (`Ledger.RingBuffer.Push`).
- **History order after a restart.** `with_database` reverses the stored
  rows and then pushes each to the front, which reverses them again. After
  opening, the history holds every stored transaction oldest first. Later
  transactions go in front of them, newest first. `Ledger.Account.Valid`
  states that exact shape.
- **Description length.** `Description::try_from` counts UTF-8 bytes, not
  characters (`Ledger.Utf8Len`). Ten characters are too many once one of them
  is not ASCII (`Ledger.TenCharactersNotAscii`).
- **Credit sign.** `transact` never checks the sign of a credit's value. A
  negative credit can push `balance + limit` below zero
  (`Ledger.NegativeCreditPassesLimit`). Only accepted debits always keep
  `balance + limit >= 0`.

## Model

| member | source | states |
|---|---|---|
| `BigEndian.EncodeU64` | database/src/lib.rs:31-32 | the header of a length below 2^64 is exactly 8 bytes |
| `BigEndian.DecodeU64` | database/src/lib.rs:58-64 | decoding 8 header bytes gives a value below 2^64 |
| `BigEndian.FromBeBytes` | database/src/lib.rs:58-63 | a k-byte big-endian string decodes to a value below 256^k |
| `BigEndian.FromToBeBytes` | database/src/lib.rs:31-32 | decoding the k-byte encoding of any n < 256^k gives back n |
| `BigEndian.ToFromBeBytes` | database/src/lib.rs:58-63 | re-encoding a decoded byte string gives back the same bytes |
| `BigEndian.U64RoundTrip` | database/src/lib.rs:31-32 | `from_be_bytes(to_be_bytes(n)) == n` for every n < 2^64 |
| `BigEndian.U64BytesRoundTrip` | database/src/lib.rs:58-64 | `to_be_bytes(from_be_bytes(b)) == b` for every 8 bytes b |
| `Storage.SlotLayout` | database/src/lib.rs:31-42 | one slot is exactly 256 bytes: the big-endian length, then the payload, then zeros to the end |
| `Storage.SlotRoundTrip` | database/src/lib.rs:57-68 | the header of a slot leaves room for its payload, and reading the slot gives back the payload |
| `Storage.Layout` | database/src/lib.rs:34-42 | after n inserts the buffer holds exactly n * 256 bytes |
| `Storage.LayoutSlotAt` | database/src/lib.rs:34-42 | slot i of the buffer is the slot of the i-th inserted payload |
| `Storage.RowsFromIndexed` | database/src/lib.rs:50-69 | from cursor c the iterator yields one item per remaining complete slot, item j taken from slot c + j |
| `Storage.RowsCount` | database/src/lib.rs:51-55 | a full iteration yields exactly `|data| / 256` items, item i taken from slot i |
| `Storage.ZeroHeaderContinues` | database/src/lib.rs:53-68 | a slot with a zero header yields an empty item and iteration continues with the next slot |
| `Storage.PartialSlotIgnored` | database/src/lib.rs:53-55 | bytes after the last complete slot change nothing that the iterator yields |
| `Storage.RowsRoundTrip` | database/src/lib.rs:27-70 | iterating a page filled with payloads p1..pn yields exactly p1..pn in order |
| `Storage.Page.constructor` | database/src/lib.rs:21-25 | a new page has an empty buffer and no rows |
| `Storage.Page.Insert` | database/src/lib.rs:27-45 | a failed serialization returns `Serialize` and changes nothing; otherwise the buffer grows by exactly 256 bytes, old bytes unchanged, then header, payload and zeros |
| `Storage.Page.Rows` | database/src/lib.rs:47-50 | a fresh cursor at slot 0 whose remaining items are exactly the inserted payloads |
| `Storage.RowCursor.constructor` | database/src/lib.rs:48 | the cursor starts at slot 0 over the borrowed buffer |
| `Storage.RowCursor.Next` | database/src/lib.rs:50-69 | returns `None` without moving iff no complete slot is left; otherwise the payload of the slot at the cursor, and the cursor moves by one |
| `Storage.InsertTwoThenIterate` | database/src/lib.rs:77-94 | two rows inserted into a new page come back in order, and a third step ends the iteration |
| `Storage.Database.FromPath` | src/main.rs:125 | the opened database holds the rows its file replays |
| `Storage.Database.Insert` | src/main.rs:159-161 | a successful insert appends the row at the end; a failed one returns the fault and leaves the log unchanged |
| `Storage.Database.Rows` | src/main.rs:127 | the replay yields the whole log in storage order |
| `Ledger.Utf8Len` | src/main.rs:115 | the byte length of a string is between its character count and four times it |
| `Ledger.AsciiLen` | src/main.rs:115 | an ASCII string has one byte per character |
| `Ledger.NonAsciiLen` | src/main.rs:115 | a string with a non-ASCII character has more bytes than characters |
| `Ledger.DescriptionFrom` | src/main.rs:114-120 | succeeds iff the text is 1 to 10 bytes long, and then wraps the text unchanged |
| `Ledger.AsciiDescription` | src/main.rs:114-120 | for ASCII text, succeeds iff the text has 1 to 10 characters |
| `Ledger.TenCharactersNotAscii` | src/main.rs:114-120 | ten characters including a non-ASCII one are rejected |
| `Ledger.RingBuffer.WithCapacity` | src/main.rs:86-88 | an empty buffer with the requested capacity |
| `Ledger.RingBuffer.Default` | src/main.rs:67-71 | an empty buffer with capacity 10 |
| `Ledger.RingBuffer.Push` | src/main.rs:90-97 | the item goes to the front and nothing is evicted; the length never exceeds the capacity |
| `Ledger.RingBuffer.FromIter` | src/main.rs:73-83 | the buffer holds the items reversed, the last pushed first |
| `Ledger.ReversedReversed` | src/main.rs:134-142 | reversing twice gives back the original order |
| `Ledger.ReverseInPlace` | src/main.rs:134 | the array afterwards is the reverse of the array before |
| `Ledger.TransactionsReversed` | src/main.rs:134-142 | taking the transactions of reversed rows is reversing the transactions of the rows |
| `Ledger.NewBalance` | src/main.rs:148-157 | rejected with `LimitExceeded` iff a debit exceeds `balance + limit`; an accepted debit subtracts and leaves `balance + limit >= 0` |
| `Ledger.CreditAlwaysAccepted` | src/main.rs:148-149 | a credit is accepted whatever the limit and adds its value |
| `Ledger.WithinLimitPreserved` | src/main.rs:148-157 | from `balance + limit >= 0`, every accepted debit and non-negative credit keeps it |
| `Ledger.NegativeCreditPassesLimit` | src/main.rs:149 | a credit of -1 with limit 0 is accepted and brings the balance to -1 |
| `Ledger.HistoryAfterAppend` | src/main.rs:159-163 | persisting a row and pushing its transaction keeps the history in the shape the account invariant states |
| `Ledger.Account.constructor` | src/main.rs:136-144 | the account takes the given balance, limit, history and database |
| `Ledger.Account.WithDatabase` | src/main.rs:124-145 | an open error is returned as is; otherwise the balance is that of the last stored row (0 if none), and the history holds every stored transaction, oldest first |
| `Ledger.Account.Transact` | src/main.rs:147-166 | a debit over the limit returns `LimitExceeded`, a storage fault returns `PersistFailed`, and both leave the account, its history buffer and its database entirely unchanged; otherwise the log gains `(new balance, transaction)` at its end, the balance becomes the new balance, and the transaction goes to the front of the history |
| `Ledger.LimitScenario` | src/main.rs:147-166 | limit 1000: debit 500 is accepted, debit 600 is refused, credit 2000 is accepted, and the final balance is 1500 |

## Left out

- The HTTP layer of `src/main.rs` is not modelled: `main`, the axum router, `health`, `create_transaction`, `view_account`, JSON field names and status codes. It is I/O and framework glue.
- The file-backed `Database<Row, N>` is not part of this model. Its source is not among the files modelled. It appears only as an append-only log with a fallible insert. Its outcomes are parameters. The model assumes that a failed insert appends nothing; `Ledger.Account.Transact` leaving the log unchanged on a storage fault rests on that assumption.
- `bitcode` serialization is a foreign library. Payloads are given byte sequences, and a failed serialization is an absent payload.
- `created_at` is an opaque `Timestamp`. Its RFC 3339 format and its default of the current time are not modelled.
- The `RwLock` around each account and the shared `Arc` state are concurrency, outside this sequential model.
- The load balancers (`load_balancer/src/main.rs`, `load_balancer_tcp/src/main.rs`) and the load-test tool (`src/load_test/src/main.rs`) are networking around no modellable logic.
- `PAGE_SIZE` is only a reserve hint for the page buffer. Nothing checks it, so the model has no page-full limit.
- `Vec::write` into the page buffer cannot fail, so `Page.Insert` has no `Io` error path.
- Storage.Page.Insert: requires the payload to fit its slot. The source panics on the underflowing padding length instead of returning an error.
- Storage.RowCursor.Next: requires every complete slot's header to leave room for its payload. The source panics on the out-of-range slice otherwise. Buffers built by inserts always meet this.
- Ledger.NewBalance: requires its additions and subtractions to stay within `i64`. `i64` wrap-around and overflow panics are not modelled.
- Ledger.Account.Transact: requires the same `i64` range, for the same reason.
- Ledger.RingBuffer.Push: the `VecDeque` growth policy is not modelled. The capacity grows just enough to hold the new item. The eviction branch stays unreachable either way.
