/**
 * The row-slot page of the `database` crate and the append-only database
 * that the ledger stores its rows in.
 *
 * A page is a growable byte buffer of fixed-size slots. One insert appends
 * one slot: the payload length as an 8-byte big-endian header, the payload,
 * and zero padding up to ROW_SIZE bytes. Iterating the page walks the
 * buffer slot by slot with a cursor and yields, from each complete slot,
 * the `header` bytes that follow the header.
 */
module Storage {
  import opened Wrappers
  import opened BigEndian

  /** Only a reserve hint for the page buffer; no insert checks it. */
  const PAGE_SIZE: nat := 1024 * 4
  /** The size of every slot. */
  const ROW_SIZE: nat := 256
  /** The size of the big-endian length header at the start of a slot. */
  const HEADER_SIZE: nat := 8

  /** The errors of the `database` crate. */
  datatype DatabaseError = Io | Serialize

  // ---------------------------------------------------------------------
  // Slot layout
  // ---------------------------------------------------------------------

  /** A payload fits a slot; a larger one makes the padding length underflow. */
  predicate Fits(payload: seq<byte>) {
    |payload| + HEADER_SIZE <= ROW_SIZE
  }

  predicate AllFit(payloads: seq<seq<byte>>) {
    forall i :: 0 <= i < |payloads| ==> Fits(payloads[i])
  }

  function Zeros(n: nat): (r: seq<byte>)
    ensures |r| == n && forall i :: 0 <= i < n ==> r[i] == 0
  {
    seq(n, _ => 0)
  }

  /** The bytes one insert of `payload` appends. */
  function Slot(payload: seq<byte>): (r: seq<byte>)
    requires Fits(payload)
    ensures |r| == ROW_SIZE
  {
    EncodeU64(|payload|) + payload + Zeros(ROW_SIZE - (|payload| + HEADER_SIZE))
  }

  /** A slot is exactly ROW_SIZE bytes: header, then payload, then zeros. */
  lemma SlotLayout(payload: seq<byte>)
    requires Fits(payload)
    ensures |Slot(payload)| == ROW_SIZE
    ensures DecodeU64(Slot(payload)[..HEADER_SIZE]) == |payload|
    ensures Slot(payload)[HEADER_SIZE..HEADER_SIZE + |payload|] == payload
    ensures forall i :: HEADER_SIZE + |payload| <= i < ROW_SIZE ==> Slot(payload)[i] == 0
  {
    var s := Slot(payload);
    assert s[..HEADER_SIZE] == EncodeU64(|payload|);
    U64RoundTrip(|payload|);
  }

  /** The header of a complete slot leaves room for its payload within the slot. */
  predicate HeaderFits(slot: seq<byte>)
    requires |slot| == ROW_SIZE
  {
    DecodeU64(slot[..HEADER_SIZE]) <= ROW_SIZE - HEADER_SIZE
  }

  /** What iteration yields for one slot: the `header` bytes after the header. */
  function SlotPayload(slot: seq<byte>): (r: seq<byte>)
    requires |slot| == ROW_SIZE && HeaderFits(slot)
    ensures |r| <= ROW_SIZE - HEADER_SIZE
  {
    slot[HEADER_SIZE..HEADER_SIZE + DecodeU64(slot[..HEADER_SIZE])]
  }

  lemma SlotRoundTrip(payload: seq<byte>)
    requires Fits(payload)
    ensures |Slot(payload)| == ROW_SIZE && HeaderFits(Slot(payload))
    ensures SlotPayload(Slot(payload)) == payload
  {
    SlotLayout(payload);
  }

  /** Slot number i of a buffer. */
  function SlotAt(data: seq<byte>, i: nat): (r: seq<byte>)
    requires (i + 1) * ROW_SIZE <= |data|
    ensures |r| == ROW_SIZE
  {
    data[i * ROW_SIZE..(i + 1) * ROW_SIZE]
  }

  /** Every complete slot of the buffer can be read without slicing past it. */
  predicate HeadersFit(data: seq<byte>) {
    forall i :: 0 <= i < |data| / ROW_SIZE ==> HeaderFits(SlotAt(data, i))
  }

  /**
   * The items the row iterator yields from slot `cursor` on: it stops once
   * the next slot would run past the end of the buffer, and at no other point.
   */
  function RowsFrom(data: seq<byte>, cursor: nat): (r: seq<seq<byte>>)
    requires HeadersFit(data)
    decreases |data| - cursor * ROW_SIZE
  {
    if cursor * ROW_SIZE + ROW_SIZE > |data| then []
    else [SlotPayload(SlotAt(data, cursor))] + RowsFrom(data, cursor + 1)
  }

  /** From slot `cursor`, one item per remaining complete slot, in slot order. */
  lemma {:induction false} RowsFromIndexed(data: seq<byte>, cursor: nat)
    requires HeadersFit(data) && cursor <= |data| / ROW_SIZE
    ensures |RowsFrom(data, cursor)| == |data| / ROW_SIZE - cursor
    ensures forall j :: 0 <= j < |RowsFrom(data, cursor)| ==>
              (cursor + j + 1) * ROW_SIZE <= |data| &&
              RowsFrom(data, cursor)[j] == SlotPayload(SlotAt(data, cursor + j))
    decreases |data| / ROW_SIZE - cursor
  {
    if cursor < |data| / ROW_SIZE {
      RowsFromIndexed(data, cursor + 1);
    }
  }

  /** A full iteration yields exactly |data| / ROW_SIZE items, item i from slot i. */
  lemma RowsCount(data: seq<byte>)
    requires HeadersFit(data)
    ensures |RowsFrom(data, 0)| == |data| / ROW_SIZE
    ensures forall i :: 0 <= i < |data| / ROW_SIZE ==>
              (i + 1) * ROW_SIZE <= |data| && RowsFrom(data, 0)[i] == SlotPayload(SlotAt(data, i))
  {
    RowsFromIndexed(data, 0);
  }

  /** A slot whose header is zero yields an empty item, and iteration goes on. */
  lemma ZeroHeaderContinues(data: seq<byte>, i: nat)
    requires HeadersFit(data) && (i + 1) * ROW_SIZE <= |data|
    requires DecodeU64(SlotAt(data, i)[..HEADER_SIZE]) == 0
    ensures RowsFrom(data, i) == [[]] + RowsFrom(data, i + 1)
  {
  }

  /** Bytes after the last complete slot are never read. */
  lemma {:induction false} PartialSlotIgnored(data: seq<byte>, tail: seq<byte>, cursor: nat)
    requires |data| % ROW_SIZE == 0 && |tail| < ROW_SIZE && HeadersFit(data)
    ensures HeadersFit(data + tail)
    ensures RowsFrom(data + tail, cursor) == RowsFrom(data, cursor)
    decreases |data| - cursor * ROW_SIZE
  {
    forall i | 0 <= i < |data + tail| / ROW_SIZE
      ensures HeaderFits(SlotAt(data + tail, i))
    {
      assert (i + 1) * ROW_SIZE <= |data|;
      assert SlotAt(data + tail, i) == SlotAt(data, i);
    }
    if cursor * ROW_SIZE + ROW_SIZE <= |data| {
      assert SlotAt(data + tail, cursor) == SlotAt(data, cursor);
      PartialSlotIgnored(data, tail, cursor + 1);
    }
  }

  /** The buffer after inserting `payloads` one by one into an empty page. */
  function Layout(payloads: seq<seq<byte>>): (r: seq<byte>)
    requires AllFit(payloads)
    ensures |r| == |payloads| * ROW_SIZE
  {
    if payloads == [] then []
    else
      SlotLayout(payloads[|payloads| - 1]);
      Layout(payloads[..|payloads| - 1]) + Slot(payloads[|payloads| - 1])
  }

  lemma {:induction false} LayoutSlotAt(payloads: seq<seq<byte>>, i: nat)
    requires AllFit(payloads) && i < |payloads|
    ensures (i + 1) * ROW_SIZE <= |Layout(payloads)|
    ensures SlotAt(Layout(payloads), i) == Slot(payloads[i])
  {
    var n := |payloads| - 1;
    var init := payloads[..n];
    SlotLayout(payloads[n]);
    assert Layout(payloads) == Layout(init) + Slot(payloads[n]);
    if i < n {
      LayoutSlotAt(init, i);
      assert init[i] == payloads[i];
    }
  }

  /** Round trip: iterating the layout of `payloads` yields exactly `payloads`. */
  lemma RowsRoundTrip(payloads: seq<seq<byte>>)
    requires AllFit(payloads)
    ensures HeadersFit(Layout(payloads))
    ensures RowsFrom(Layout(payloads), 0) == payloads
  {
    var data := Layout(payloads);
    forall i | 0 <= i < |data| / ROW_SIZE
      ensures HeaderFits(SlotAt(data, i))
    {
      LayoutSlotAt(payloads, i);
      SlotRoundTrip(payloads[i]);
    }
    RowsCount(data);
    forall j | 0 <= j < |payloads|
      ensures RowsFrom(data, 0)[j] == payloads[j]
    {
      LayoutSlotAt(payloads, j);
      SlotRoundTrip(payloads[j]);
    }
  }

  // ---------------------------------------------------------------------
  // The page
  // ---------------------------------------------------------------------

  /** `Page`: the slot buffer, extended in place by `Insert`. */
  class Page {
    var data: seq<byte>
    /** The payloads inserted so far, in order. */
    ghost var rows: seq<seq<byte>>

    ghost predicate Valid()
      reads this
    {
      AllFit(rows) && data == Layout(rows)
    }

    /** `Page::new`: an empty buffer (its PAGE_SIZE reserve is not observable). */
    constructor ()
      ensures Valid() && rows == [] && data == []
    {
      data := [];
      rows := [];
    }

    /**
     * `Page::insert`. `serialized` is the outcome of serializing the row:
     * `None` when serialization failed. Writing into the buffer cannot fail.
     */
    method Insert(serialized: Option<seq<byte>>) returns (r: Result<(), DatabaseError>)
      requires Valid()
      requires serialized.Some? ==> Fits(serialized.value)
      modifies this
      ensures Valid()
      ensures serialized.None? ==> r == Err(Serialize) && data == old(data) && rows == old(rows)
      ensures serialized.Some? ==>
                r == Ok(()) && rows == old(rows) + [serialized.value] &&
                data == old(data) + Slot(serialized.value)
      ensures serialized.Some? ==>
                var p, o := serialized.value, |old(data)|;
                |data| == o + ROW_SIZE && data[..o] == old(data) &&
                DecodeU64(data[o..o + HEADER_SIZE]) == |p| &&
                data[o + HEADER_SIZE..o + HEADER_SIZE + |p|] == p &&
                forall i :: o + HEADER_SIZE + |p| <= i < |data| ==> data[i] == 0
    {
      if serialized.None? {
        return Err(Serialize);
      }
      var payload := serialized.value;
      var header := EncodeU64(|payload|);
      data := data + header;
      data := data + payload;
      data := data + Zeros(ROW_SIZE - (|payload| + |header|));
      ghost var o := |old(data)|;
      assert data == old(data) + Slot(payload);
      SlotLayout(payload);
      assert data[o..o + HEADER_SIZE] == Slot(payload)[..HEADER_SIZE];
      assert data[o + HEADER_SIZE..o + HEADER_SIZE + |payload|] == payload;
      rows := rows + [payload];
      assert rows[..|rows| - 1] == old(rows);
      return Ok(());
    }

    /** `Page::rows`: a fresh cursor at slot 0 over the current buffer. */
    method Rows() returns (it: RowCursor)
      requires Valid()
      ensures fresh(it) && it.Valid()
      ensures it.data == data && it.cursor == 0
      ensures it.Remaining() == rows
    {
      RowsRoundTrip(rows);
      it := new RowCursor(data);
    }
  }

  /**
   * The iterator `Page::rows` returns: the page's buffer, which stays
   * borrowed (so unchanged) while the iterator lives, and a slot cursor.
   */
  class RowCursor {
    const data: seq<byte>
    var cursor: nat

    ghost predicate Valid()
      reads this
    {
      HeadersFit(data)
    }

    /** The items the remaining calls of Next yield. */
    ghost function Remaining(): seq<seq<byte>>
      reads this
      requires Valid()
    {
      RowsFrom(data, cursor)
    }

    constructor (data: seq<byte>)
      requires HeadersFit(data)
      ensures Valid() && this.data == data && cursor == 0
    {
      this.data := data;
      cursor := 0;
    }

    /** One step of the iterator: the item of the slot at the cursor, if complete. */
    method Next() returns (item: Option<seq<byte>>)
      requires Valid()
      modifies this
      ensures Valid()
      ensures item.None? <==> old(Remaining()) == []
      ensures item.None? ==> cursor == old(cursor)
      ensures item.Some? ==>
                cursor == old(cursor) + 1 &&
                (old(cursor) + 1) * ROW_SIZE <= |data| &&
                item.value == SlotPayload(SlotAt(data, old(cursor))) &&
                old(Remaining()) == [item.value] + Remaining()
    {
      var offset := cursor * ROW_SIZE;
      if offset + ROW_SIZE > |data| {
        return None;
      }
      var row := data[offset..offset + ROW_SIZE];
      assert row == SlotAt(data, cursor);
      var header := DecodeU64(row[0..HEADER_SIZE]);
      assert row[0..HEADER_SIZE] == row[..HEADER_SIZE];
      cursor := cursor + 1;
      return Some(row[HEADER_SIZE..HEADER_SIZE + header]);
    }
  }

  /**
   * The page's unit test: two rows inserted into a fresh page come back, in
   * order, from the first two steps of its iterator; a third step ends it.
   */
  method InsertTwoThenIterate(first: seq<byte>, second: seq<byte>)
    returns (a: Option<seq<byte>>, b: Option<seq<byte>>, c: Option<seq<byte>>)
    requires Fits(first) && Fits(second)
    ensures a == Some(first) && b == Some(second) && c == None
  {
    var page := new Page();
    var _ := page.Insert(Some(first));
    var _ := page.Insert(Some(second));
    var rows := page.Rows();
    a := rows.Next();
    b := rows.Next();
    c := rows.Next();
  }

  // ---------------------------------------------------------------------
  // The database
  // ---------------------------------------------------------------------

  /**
   * `Database<Row, N>`, seen from the ledger: an append-only log of rows
   * whose inserts may fail. Its file handling is not part of this model.
   */
  class Database<Row> {
    var log: seq<Row>

    /** Opens the database over a file whose replay gives `stored`. */
    constructor FromPath(stored: seq<Row>)
      ensures log == stored
    {
      log := stored;
    }

    /** Appends `row`; `failure` is the storage fault the write hit, if any. */
    method Insert(row: Row, failure: Option<DatabaseError>) returns (r: Result<(), DatabaseError>)
      modifies this
      ensures failure.None? ==> r == Ok(()) && log == old(log) + [row]
      ensures failure.Some? ==> r == Err(failure.value) && unchanged(this)
    {
      if failure.Some? {
        return Err(failure.value);
      }
      log := log + [row];
      return Ok(());
    }

    /** Replays every stored row, oldest first. */
    method Rows() returns (rows: seq<Row>)
      ensures rows == log
    {
      rows := log;
    }
  }
}
