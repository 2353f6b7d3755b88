/** The sky-map writers and reader as they run: bytes pushed onto a growing
    vector, and a cursor moved over the input. */
module FitsIo {
  import opened Wrappers
  import opened Decimal
  import opened ByteStrings
  import opened Nuniq
  import opened Fits
  import opened FitsRoundTrip

  // ------------------------------------------------------------- writers

  method PushCards(out: Bytes, cards: seq<Card>) returns (r: Bytes)
    ensures r == out + CardsBytes(cards)
  {
    hide CardBytes;
    r := out;
    for i := 0 to |cards|
      invariant r == out + CardsBytes(cards[..i])
    {
      assert cards[..i + 1][..i] == cards[..i];
      r := r + CardBytes(cards[i]);
    }
    assert cards[..|cards|] == cards;
  }

  // One fill byte at a time until the length is a multiple of 2880.
  method PushPadding(out: Bytes, fill: Byte) returns (r: Bytes)
    ensures r == Padded(out, fill)
  {
    r := out;
    ghost var pushed := 0;
    while |r| % BLOCK != 0
      invariant pushed <= Padding(|out|) && r == out + Repeat(fill, pushed)
      decreases Padding(|out|) - pushed
    {
      assert pushed != Padding(|out|);
      r := r + [fill];
      pushed := pushed + 1;
    }
    PaddingIsLeast(|out|, pushed);
  }

  lemma PaddingIsLeast(length: nat, k: nat)
    requires k <= Padding(length) && (length + k) % BLOCK == 0
    ensures k == Padding(length)
  {
  }

  // The remainder computed once, then the fill appended in one go.
  method PadToBlock(out: Bytes, fill: Byte) returns (r: Bytes)
    ensures r == Padded(out, fill)
  {
    var rem := |out| % BLOCK;
    if rem != 0 {
      r := out + Repeat(fill, BLOCK - rem);
    } else {
      r := out;
      assert Repeat(fill, 0) == [];
    }
  }

  // Padding only looks at what is past the last whole block.
  lemma PaddedAfterBlocks(out: Bytes, body: Bytes, fill: Byte)
    requires |out| % BLOCK == 0
    ensures Padded(out + body, fill) == out + Padded(body, fill)
  {
    assert |out + body| % BLOCK == |body| % BLOCK;
    assert Padding(|out + body|) == Padding(|body|);
  }

  lemma HeaderPushed(out: Bytes, cards: seq<Card>)
    requires |out| % BLOCK == 0
    ensures Padded(out + CardsBytes(cards) + EndCard(), SPACE) == out + HeaderBytes(cards)
  {
    hide CardsBytes, EndCard, Padded;
    assert out + CardsBytes(cards) + EndCard() == out + (CardsBytes(cards) + EndCard());
    PaddedAfterBlocks(out, CardsBytes(cards) + EndCard(), SPACE);
  }

  /** `write_multiordermap_fits`: MOCORDER is the deepest cell's depth. */
  method WriteMultiordermapFits(cells: seq<PackedCell>) returns (out: Bytes)
    requires |cells| < U64_LIMIT
    ensures out == FileBytes(cells, Order(cells))
  {
    hide CardsBytes, RowBytes, Padded, TableCards, PrimaryCards, Decode, Depth, HeaderBytes;
    var maxDepth := 0;
    for i := 0 to |cells|
      invariant maxDepth == MaxDepth(cells[..i])
    {
      assert cells[..i + 1][..i] == cells[..i];
      var d := Depth(cells[i].uniq);
      if maxDepth < d { maxDepth := d; }
    }
    assert cells[..|cells|] == cells;
    MaxDepthFits(cells);
    out := [];
    HeaderPushed(out, PrimaryCards());
    out := PushCards(out, PrimaryCards());
    out := out + EndCard();
    out := PushPadding(out, SPACE);
    HeaderPushed(out, TableCards(16, |cells|, maxDepth));
    out := PushCards(out, TableCards(16, |cells|, maxDepth));
    out := out + EndCard();
    out := PushPadding(out, SPACE);
    assert out == Headers(16, |cells|, maxDepth);
    ghost var headers := out;
    for i := 0 to |cells|
      invariant out == headers + RowsBytes(cells[..i])
    {
      assert cells[..i + 1][..i] == cells[..i];
      out := out + RowBytes(cells[i]);
    }
    out := PushPadding(out, 0);
  }

  /** `write_ivoa_multiordermap_fits`: same density in every row, MOCORDER given
      by the caller. */
  method WriteIvoaMultiordermapFits(nuniqs: seq<U64>, density: U64, maxDepth: U64) returns (out: Bytes)
    requires |nuniqs| < U64_LIMIT
    ensures out == FileBytes(UniformCells(nuniqs, density), maxDepth)
  {
    hide CardsBytes, RowBytes, Padded, TableCards, PrimaryCards, HeaderBytes;
    ghost var cells := UniformCells(nuniqs, density);
    out := [];
    HeaderPushed(out, PrimaryCards());
    out := PushCards(out, PrimaryCards());
    out := out + EndCard();
    out := PadToBlock(out, SPACE);
    HeaderPushed(out, TableCards(16, |nuniqs|, maxDepth));
    out := PushCards(out, TableCards(16, |nuniqs|, maxDepth));
    out := out + EndCard();
    out := PadToBlock(out, SPACE);
    assert out == Headers(16, |nuniqs|, maxDepth);
    ghost var headers := out;
    for i := 0 to |nuniqs|
      invariant out == headers + RowsBytes(cells[..i])
    {
      assert cells[..i + 1][..i] == cells[..i];
      out := out + RowBytes(Cell(nuniqs[i], density));
    }
    assert cells[..|nuniqs|] == cells;
    out := PadToBlock(out, 0);
  }

  /** The two writers produce the same file for a non-empty uniform list at one
      depth exactly when the caller passes that depth as MOCORDER. */
  lemma WritersAgreeIff(nuniqs: seq<U64>, density: U64, depth: nat, maxDepth: U64)
    requires nuniqs != [] && |nuniqs| < U64_LIMIT
    requires forall i :: 0 <= i < |nuniqs| ==> nuniqs[i] >= 4 && Depth(nuniqs[i]) == depth
    ensures
      var cells := UniformCells(nuniqs, density);
      FileBytes(cells, maxDepth) == FileBytes(cells, Order(cells)) <==> maxDepth == depth
  {
    hide FileBytes, Depth;
    var cells := UniformCells(nuniqs, density);
    MaxDepthOfOneDepth(cells, depth);
    SameFileIffSameOrder(cells, maxDepth, Order(cells));
  }

  // -------------------------------------------------------------- reader

  class Cursor {
    const bytes: Bytes
    var pos: nat

    constructor (bytes: Bytes)
      ensures this.bytes == bytes && pos == 0
    {
      this.bytes, this.pos := bytes, 0;
    }

    // `read_exact`: all n bytes, or an error.
    method ReadExact(n: nat) returns (r: Result<Bytes, FitsError>)
      requires pos <= |bytes|
      modifies this
      ensures pos <= |bytes|
      ensures if old(pos) + n <= |bytes| then r == Ok(bytes[old(pos)..old(pos) + n]) && pos == old(pos) + n
          else r == Err(UnexpectedEof)
    {
      if pos + n > |bytes| { return Err(UnexpectedEof); }
      r := Ok(bytes[pos..pos + n]);
      pos := pos + n;
    }

    // One row: its first 16 bytes as a cell, the rest read into a sink.
    method ReadRow(width: nat) returns (r: Result<Cell, FitsError>)
      requires pos <= |bytes| && width >= 16
      modifies this
      ensures pos <= |bytes|
      ensures
        if old(pos) + width <= |bytes| then r == Ok(CellAt(bytes, old(pos))) && pos == old(pos) + width
        else r == Err(UnexpectedEof)
    {
      hide CellAt, RowCell;
      ghost var at := pos;
      var row := ReadExact(16);
      if row.Err? { return Err(row.error); }
      RowCellIsCellAt(bytes, at);
      r := Ok(RowCell(row.value));
      if width > 16 {
        var sink := ReadExact(width - 16);
        if sink.Err? { return Err(sink.error); }
      }
    }

    method ReadTable(width: nat, rows: nat) returns (r: Result<seq<Cell>, FitsError>)
      requires pos <= |bytes| && width >= 16
      modifies this
      ensures pos <= |bytes| && r == ReadRows(bytes, old(pos), width, rows)
    {
      hide ReadRows, CellAt;
      var cells: seq<Cell> := [];
      ghost var start := pos;
      NoRows(bytes, start, width);
      for i := 0 to rows
        invariant pos == start + i * width && pos <= |bytes|
        invariant ReadRows(bytes, start, width, i) == Ok(cells)
      {
        OneMoreRow(bytes, start, width, i);
        RowEnds(start, width, i);
        var cell := ReadRow(width);
        if cell.Err? {
          RowsStop(bytes, start, width, i + 1, rows);
          return Err(cell.error);
        }
        cells := cells + [cell.value];
      }
      r := Ok(cells);
    }

    method ReadHduHeader() returns (r: Result<Bytes, FitsError>)
      requires pos <= |bytes|
      modifies this
      ensures pos <= |bytes|
      ensures match ReadHeader(bytes, old(pos))
              case Ok(h) => r == Ok(h.0) && pos == h.1
              case Err(e) => r == Err(e)
    {
      hide HasEnd;
      var header: Bytes := [];
      ghost var start := pos;
      assert forall b: Bytes {:trigger header + b} :: header + b == b;
      while true
        invariant start <= pos <= |bytes|
        invariant Continues(ReadHeader(bytes, start), header, ReadHeader(bytes, pos))
        decreases |bytes| - pos
      {
        var block := ReadExact(BLOCK);
        if block.Err? { return Err(block.error); }
        assert forall b: Bytes {:trigger block.value + b} :: header + block.value + b == header + (block.value + b);
        header := header + block.value;
        var ended := ScanForEnd(block.value);
        if ended { return Ok(header); }
      }
    }
  }

  // What remains to be read, with what has been read put before it.
  ghost predicate Continues(all: Result<(Bytes, nat), FitsError>, read: Bytes, rest: Result<(Bytes, nat), FitsError>) {
    match rest
    case Ok(h) => all == Ok((read + h.0, h.1))
    case Err(e) => all == Err(e)
  }

  method ScanForEnd(block: Bytes) returns (ended: bool)
    requires |block| == BLOCK
    ensures ended == HasEnd(block)
  {
    for i := 0 to 36
      invariant forall j :: 0 <= j < i ==> !IsEnd(block[CARD * j..CARD * j + CARD])
    {
      if IsEnd(block[CARD * i..CARD * i + CARD]) { return true; }
    }
    ended := false;
  }

  /** `read_multiordermap_cells`: skip the primary header, check the table
      header, then take 16 bytes of each row and skip the rest. */
  method ReadMultiordermapCells(bytes: Bytes) returns (r: Result<seq<Cell>, FitsError>)
    ensures r == ReadCells(bytes)
  {
    hide ReadHeader, ReadShape, ReadRows;
    var cursor := new Cursor(bytes);
    var primary := cursor.ReadHduHeader();
    if primary.Err? { return Err(primary.error); }
    var table := cursor.ReadHduHeader();
    if table.Err? { return Err(table.error); }
    var shape := ReadShape(table.value);
    if shape.Err? { return Err(shape.error); }
    r := cursor.ReadTable(shape.value.width, shape.value.rows);
  }

  lemma RowEnds(start: nat, width: nat, i: nat)
    ensures start + (i + 1) * width == start + i * width + width
  {
  }

  lemma NoRows(bytes: Bytes, start: nat, width: nat)
    requires width >= 16
    ensures ReadRows(bytes, start, width, 0) == Ok([]) && start + 0 * width == start
  {
  }

  lemma OneMoreRow(bytes: Bytes, start: nat, width: nat, i: nat)
    requires width >= 16 && ReadRows(bytes, start, width, i).Ok?
    ensures
      ReadRows(bytes, start, width, i + 1) ==
        if start + i * width + width > |bytes| then Err(UnexpectedEof)
        else Ok(ReadRows(bytes, start, width, i).value + [CellAt(bytes, start + i * width)])
  {
    hide CellAt;
  }

  function RowCell(row: Bytes): Cell
    requires |row| == 16
  {
    EightBytesHoldU64();
    Cell(FromBigEndian(row[..8]), FromBigEndian(row[8..]))
  }

  lemma RowCellIsCellAt(bytes: Bytes, at: nat)
    requires at + 16 <= |bytes|
    ensures RowCell(bytes[at..at + 16]) == CellAt(bytes, at)
  {
    hide FromBigEndian;
    var row := bytes[at..at + 16];
    assert row[..8] == bytes[at..at + 8] && row[8..] == bytes[at + 8..at + 16];
  }

  // A failed row decides the whole read.
  lemma {:induction false} RowsStop(bytes: Bytes, pos: nat, width: nat, i: nat, n: nat)
    requires width >= 16 && i <= n && ReadRows(bytes, pos, width, i).Err?
    ensures ReadRows(bytes, pos, width, n) == Err(UnexpectedEof)
    decreases n - i
  {
    RowsFailOnlyAtEof(bytes, pos, width, i);
    if i == n {
    } else {
      RowsStop(bytes, pos, width, i + 1, n);
    }
  }
}
