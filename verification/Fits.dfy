/** Multi-order sky maps as FITS files: 80-byte cards in 2880-byte blocks, then
    big-endian rows (sections 3.1, 4.1, 4.2.3 and 7.3 of the FITS Standard 4.0).

    The functions fix the bytes exactly; the methods are the hand-written
    printers and parser, proved to compute them. */
module Fits {
  import opened Wrappers
  import opened Decimal
  import opened ByteStrings
  import opened Nuniq
  import opened Texts

  // One row: the packed cell, and the density as its 8-byte bit pattern.
  datatype Cell = Cell(uniq: U64, density: U64)

  datatype FitsError = UnexpectedEof | KeywordMissing(keyword: string) | BadInteger(keyword: string)
      | WrongValue(keyword: string) | RowTooShort(width: nat)

  const CARD := 80
  const BLOCK := 2880
  const SPACE: Byte := 32

  // --------------------------------------------------------------- cards

  // A header card: a keyword and the 70 columns after "= ".
  datatype CardImage = CardImage(key: string, field: string)

  ghost predicate Printable(c: CardImage) {
    && IsAscii(c.key) && |c.key| <= 8 && ' ' !in c.key
    && IsAscii(c.field) && |c.field| == 70
  }

  type Card = c: CardImage | Printable(c) ghost witness CardImage("", Repeat(' ', 70))

  predicate IsKeyword(key: string) {
    IsAscii(key) && |key| <= 8 && ' ' !in key
  }

  function PadRight(s: string, width: nat): (r: string)
    ensures |r| == if |s| < width then width else |s|
    ensures IsAscii(s) ==> IsAscii(r)
  {
    if |s| < width then s + Repeat(' ', width - |s|) else s
  }

  // `{v:<70}`.
  function StrCard(key: string, value: string): (c: Card)
    requires IsKeyword(key) && IsAscii(value) && |value| <= 70
    ensures c.key == key
  {
    CardImage(key, PadRight(value, 70))
  }

  // `{v:>20}` and 50 spaces.
  function IntCard(key: string, value: U64): (c: Card)
    requires IsKeyword(key)
    ensures c.key == key
  {
    TwentyColumns(value);
    CardImage(key, PadLeft(Digits(value), 20, ' ') + Repeat(' ', 50))
  }

  function BoolCard(key: string, value: bool): (c: Card)
    requires IsKeyword(key)
    ensures c.key == key
  {
    CardImage(key, PadLeft(if value then "T" else "F", 20, ' ') + Repeat(' ', 50))
  }

  lemma TwentyColumns(n: U64)
    ensures |Digits(n)| <= 20
  {
    assert Pow10(5) == 100000;
    assert Pow10(10) == 100000 * Pow10(5);
    assert Pow10(15) == 100000 * Pow10(10);
    assert Pow10(20) == 100000 * Pow10(15);
    DigitsLength(n, 20);
  }

  // A card image is cut or filled to 80 bytes.
  function FixedCard(b: Bytes): (r: Bytes)
    ensures |r| == CARD
  {
    if |b| < CARD then b + Repeat(SPACE, CARD - |b|) else b[..CARD]
  }

  function CardText(c: Card): (t: string)
    ensures IsAscii(t) && |t| == CARD
  {
    PadRight(c.key, 8) + "= " + c.field
  }

  function CardBytes(c: Card): (b: Bytes)
    ensures |b| == CARD
  {
    FixedCard(Ascii(CardText(c)))
  }

  function EndCard(): (b: Bytes)
    ensures |b| == CARD
  {
    FixedCard(Ascii("END"))
  }

  function CardsBytes(cards: seq<Card>): (b: Bytes)
    ensures |b| == CARD * |cards|
  {
    if cards == [] then [] else CardsBytes(cards[..|cards| - 1]) + CardBytes(cards[|cards| - 1])
  }

  // Fill up to a whole number of blocks.
  function Padding(length: nat): (k: nat)
    ensures k < BLOCK && (length + k) % BLOCK == 0
  {
    (BLOCK - length % BLOCK) % BLOCK
  }

  function Padded(b: Bytes, fill: Byte): (r: Bytes)
    ensures |r| % BLOCK == 0 && |b| <= |r|
  {
    b + Repeat(fill, Padding(|b|))
  }

  function PrimaryCards(): seq<Card> {
    [BoolCard("SIMPLE", true), IntCard("BITPIX", 8), IntCard("NAXIS", 0), BoolCard("EXTEND", true)]
  }

  function KindCards(): seq<Card> {
    [ StrCard("XTENSION", "'BINTABLE'"), IntCard("BITPIX", 8), IntCard("NAXIS", 2) ]
  }

  function ShapeCards(width: U64, rows: U64): seq<Card> {
    [ IntCard("NAXIS1", width), IntCard("NAXIS2", rows), IntCard("PCOUNT", 0), IntCard("GCOUNT", 1),
        IntCard("TFIELDS", 2) ]
  }

  function ColumnCards(): seq<Card> {
    [ StrCard("TTYPE1", "'UNIQ    '"), StrCard("TFORM1", "'K       '"),
      StrCard("TTYPE2", "'PROBDENSITY'"), StrCard("TFORM2", "'D       '"), StrCard("TUNIT2", "'sr-1    '") ]
  }

  function SkyCards(order: U64): seq<Card> {
    [ StrCard("PIXTYPE", "'HEALPIX '"), StrCard("ORDERING", "'NUNIQ   '"), StrCard("COORDSYS", "'C       '"),
      IntCard("MOCORDER", order), StrCard("INDXSCHM", "'EXPLICIT'") ]
  }

  function TableCards(width: U64, rows: U64, order: U64): (cards: seq<Card>)
    ensures |cards| == 18
  {
    KindCards() + ShapeCards(width, rows) + ColumnCards() + SkyCards(order)
  }

  function HeaderBytes(cards: seq<Card>): (b: Bytes)
    ensures |b| % BLOCK == 0
  {
    Padded(CardsBytes(cards) + EndCard(), SPACE)
  }

  // ---------------------------------------------------------------- rows

  function RowBytes(c: Cell): (b: Bytes)
    ensures |b| == 16
  {
    EightBytesHoldU64();
    BigEndian(c.uniq, 8) + BigEndian(c.density, 8)
  }

  function RowsBytes(cells: seq<Cell>): (b: Bytes)
    ensures |b| == 16 * |cells|
  {
    if cells == [] then [] else RowsBytes(cells[..|cells| - 1]) + RowBytes(cells[|cells| - 1])
  }

  function Headers(width: U64, rows: U64, order: U64): (b: Bytes)
    ensures |b| % BLOCK == 0
  {
    HeaderBytes(PrimaryCards()) + HeaderBytes(TableCards(width, rows, order))
  }

  // The whole file written for these cells with this MOCORDER.
  function FileBytes(cells: seq<Cell>, order: U64): (b: Bytes)
    requires |cells| < U64_LIMIT
    ensures |b| % BLOCK == 0
  {
    Padded(Headers(16, |cells|, order) + RowsBytes(cells), 0)
  }

  // Values below 4 pack no cell.
  type PackedCell = c: Cell | c.uniq >= 4 witness Cell(4, 0)

  function MaxDepth(cells: seq<PackedCell>): nat {
    if cells == [] then 0
    else
      var m, d := MaxDepth(cells[..|cells| - 1]), Depth(cells[|cells| - 1].uniq);
      if m < d then d else m
  }

  // ------------------------------------------------------------- reading

  predicate IsEnd(card: Bytes)
    requires |card| == CARD
  {
    card[..3] == Ascii("END") && forall i :: 3 <= i < CARD ==> card[i] == SPACE
  }

  predicate HasEnd(block: Bytes)
    requires |block| == BLOCK
  {
    exists i :: 0 <= i < 36 && IsEnd(block[CARD * i..CARD * i + CARD])
  }

  /** Header starting at pos: whole blocks up to the one with an END card, and
      the position after it. */
  function ReadHeader(bytes: Bytes, pos: nat): Result<(Bytes, nat), FitsError>
    decreases |bytes| - pos
  {
    if pos + BLOCK > |bytes| then Err(UnexpectedEof)
    else
      var block := bytes[pos..pos + BLOCK];
      if HasEnd(block) then Ok((block, pos + BLOCK))
      else
        var rest :- ReadHeader(bytes, pos + BLOCK);
        Ok((block + rest.0, rest.1))
  }

  function LeadingNonSpaces(b: Bytes): (n: nat)
    ensures n <= |b|
  {
    if b == [] || b[0] == SPACE then 0 else 1 + LeadingNonSpaces(b[1..])
  }

  function UpToSlash(b: Bytes): Bytes {
    if b == [] || b[0] == 47 then [] else [b[0]] + UpToSlash(b[1..])
  }

  predicate CardMatches(card: Bytes, keyword: string)
    requires |card| == CARD && IsAscii(keyword)
  {
    card[..LeadingNonSpaces(card[..8])] == Ascii(keyword) && card[8] == 61 && card[9] == SPACE
  }

  // First card with this keyword, from card i on.
  function FindFrom(header: Bytes, keyword: string, i: nat): Result<Bytes, FitsError>
    requires IsAscii(keyword)
    decreases |header| - CARD * i
  {
    if CARD * i + CARD > |header| then Err(KeywordMissing(keyword))
    else
      var card := header[CARD * i..CARD * i + CARD];
      if CardMatches(card, keyword) then Ok(UpToSlash(card[10..])) else FindFrom(header, keyword, i + 1)
  }

  function FindCardValue(header: Bytes, keyword: string): Result<Bytes, FitsError>
    requires IsAscii(keyword)
  {
    FindFrom(header, keyword, 0)
  }

  function HeaderInt(header: Bytes, keyword: string): Result<U64, FitsError>
    requires IsAscii(keyword)
  {
    var value :- FindCardValue(header, keyword);
    match Text(value)
    case None => Err(BadInteger(keyword))
    case Some(s) =>
      match ParseU64(Trim(s))
      case None => Err(BadInteger(keyword))
      case Some(n) => Ok(n)
  }

  // The value without quotes and blanks.
  function Bare(b: Bytes): Bytes {
    if b == [] then []
    else if b[0] == 39 || b[0] == SPACE then Bare(b[1..])
    else [b[0]] + Bare(b[1..])
  }

  function ExpectString(header: Bytes, keyword: string, expected: string): Result<(), FitsError>
    requires IsAscii(keyword) && IsAscii(expected)
  {
    var value :- FindCardValue(header, keyword);
    if Ascii(expected) <= Bare(value) then Ok(()) else Err(WrongValue(keyword))
  }

  function CellAt(bytes: Bytes, start: nat): Cell
    requires start + 16 <= |bytes|
  {
    EightBytesHoldU64();
    Cell(FromBigEndian(bytes[start..start + 8]), FromBigEndian(bytes[start + 8..start + 16]))
  }

  // n rows of the given width; only the first 16 bytes of each are used.
  function ReadRows(bytes: Bytes, pos: nat, width: nat, n: nat): (r: Result<seq<Cell>, FitsError>)
    requires width >= 16
  {
    if n == 0 then Ok([])
    else
      var init :- ReadRows(bytes, pos, width, n - 1);
      var start := pos + (n - 1) * width;
      if start + width > |bytes| then Err(UnexpectedEof) else Ok(init + [CellAt(bytes, start)])
  }

  datatype TableShape = TableShape(width: U64, rows: U64)

  // The two leading columns must be UNIQ and PROBDENSITY; others may follow.
  function CheckColumns(header: Bytes): Result<(), FitsError> {
    var _ :- ExpectString(header, "TTYPE1", "UNIQ");
    var _ :- ExpectString(header, "TFORM1", "K");
    var _ :- ExpectString(header, "TTYPE2", "PROBDENSITY");
    ExpectString(header, "TFORM2", "D")
  }

  function ReadShape(header: Bytes): (r: Result<TableShape, FitsError>)
    ensures r.Ok? ==> r.value.width >= 16
  {
    var width :- HeaderInt(header, "NAXIS1");
    var rows :- HeaderInt(header, "NAXIS2");
    var _ :- CheckColumns(header);
    if width < 16 then Err(RowTooShort(width)) else Ok(TableShape(width, rows))
  }

  function ReadCells(bytes: Bytes): Result<seq<Cell>, FitsError>
  {
    var primary :- ReadHeader(bytes, 0);
    var table :- ReadHeader(bytes, primary.1);
    var shape :- ReadShape(table.0);
    ReadRows(bytes, table.1, shape.width, shape.rows)
  }
}
