/** The written file byte by byte: the literal text of every header card (the
    mandatory keywords of section 4.4.1 of the FITS Standard 4.0 in their order),
    then the rows, then zeros. */
module FitsHeader {
  import opened Wrappers
  import opened Decimal
  import opened ByteStrings
  import opened Fits
  import opened FitsRoundTrip
  import opened FitsReading

  // A line of at most 80 characters with blanks after it.
  function Columns(line: string): (s: string)
    requires |line| <= 80
    ensures |s| == 80
  {
    line + Repeat(' ', 80 - |line|)
  }

  // A number in columns 11 to 30, right-justified.
  function Justified(n: U64): (s: string)
    ensures |s| == 22
  {
    TwentyColumns(n);
    "= " + Repeat(' ', 20 - |Digits(n)|) + Digits(n)
  }

  function InColumns(key: string, n: U64): (s: string)
    requires |key| == 8
    ensures |s| == 30
  {
    key + Justified(n)
  }

  function PrimaryLines(): seq<string> {
    [ "SIMPLE  =                    T",
      "BITPIX  =                    8",
      "NAXIS   =                    0",
      "EXTEND  =                    T",
      "END" ]
  }

  function KindLines(): seq<string> {
    [ "XTENSION= 'BINTABLE'",
      "BITPIX  =                    8",
      "NAXIS   =                    2" ]
  }

  function ShapeLines(rows: U64): seq<string> {
    [ "NAXIS1  =                   16",
      InColumns("NAXIS2  ", rows),
      "PCOUNT  =                    0",
      "GCOUNT  =                    1",
      "TFIELDS =                    2" ]
  }

  function ColumnLines(): seq<string> {
    [ "TTYPE1  = 'UNIQ    '",
      "TFORM1  = 'K       '",
      "TTYPE2  = 'PROBDENSITY'",
      "TFORM2  = 'D       '",
      "TUNIT2  = 'sr-1    '" ]
  }

  function SkyLines(order: U64): seq<string> {
    [ "PIXTYPE = 'HEALPIX '",
      "ORDERING= 'NUNIQ   '",
      "COORDSYS= 'C       '",
      InColumns("MOCORDER", order),
      "INDXSCHM= 'EXPLICIT'" ]
  }

  function TableLines(rows: U64, order: U64): seq<string> {
    KindLines() + ShapeLines(rows) + ColumnLines() + SkyLines(order) + ["END"]
  }

  // Bytes at..at + 80 are this line and blanks.
  ghost predicate LineAt(bytes: Bytes, at: nat, line: string) {
    && |line| <= 80 && at + 80 <= |bytes|
    && (forall i :: 0 <= i < |line| ==> bytes[at + i] == line[i] as int)
    && (forall i :: at + |line| <= i < at + 80 ==> bytes[i] == 32)
  }

  // A whole block holds these lines, then blanks.
  ghost predicate BlockHolds(bytes: Bytes, at: nat, lines: seq<string>) {
    && |lines| <= 36 && at + 2880 <= |bytes|
    && (forall j :: 0 <= j < |lines| ==> LineAt(bytes, at + 80 * j, lines[j]))
    && (forall i :: at + 80 * |lines| <= i < at + 2880 ==> bytes[i] == 32)
  }

  // ------------------------------------------------------------ the cards

  lemma CardIsLine(c: Card, line: string)
    requires |line| <= 80 && CardText(c) == Columns(line)
    ensures LineAt(CardBytes(c), 0, line)
  {
    assert Ascii(CardText(c)) == CardBytes(c);
  }

  lemma FlagLine(key: string, padded: string)
    requires IsKeyword(key) && |key| <= 8 && padded == PadRight(key, 8)
    ensures CardText(BoolCard(key, true)) == Columns(padded + "=                    T")
  {
    assert PadLeft("T", 20, ' ') == "                   T";
    var line := padded + "=                    T";
    assert CardText(BoolCard(key, true)) == padded + "= " + ("                   T" + Repeat(' ', 50));
    assert line == padded + "= " + "                   T";
  }

  lemma TextLine(key: string, value: string)
    requires IsKeyword(key) && IsAscii(value) && |value| <= 70
    ensures
      var line := PadRight(key, 8) + "= " + value;
      |line| <= 80 && CardText(StrCard(key, value)) == Columns(line)
  {
    assert CardText(StrCard(key, value)) == Columns(PadRight(key, 8) + "= " + value);
  }

  lemma NumberLine(key: string, n: U64)
    requires IsKeyword(key)
    ensures CardText(IntCard(key, n)) == Columns(InColumns(PadRight(key, 8), n))
  {
    TwentyColumns(n);
    assert CardText(IntCard(key, n)) == Columns(InColumns(PadRight(key, 8), n));
  }

  lemma SmallNumbers()
    ensures Digits(0) == "0" && Digits(1) == "1" && Digits(2) == "2" && Digits(8) == "8" && Digits(16) == "16"
  {
    assert Digits(1) == "1" && Digits(6) == "6" == [DigitChar(6)];
    assert Digits(16) == Digits(1) + [DigitChar(6)];
  }

  lemma PrimaryTexts()
    ensures |PrimaryCards()| == 4
    ensures forall i :: 0 <= i < 4 ==> CardText(PrimaryCards()[i]) == Columns(PrimaryLines()[i])
  {
    hide CardText, Columns, BoolCard, IntCard, Digits;
    SmallNumbers();
    KeysPadded();
    FlagLine("SIMPLE", "SIMPLE  ");
    FlagLine("EXTEND", "EXTEND  ");
    NumberLine("BITPIX", 8);
    NumberLine("NAXIS", 0);
    NumbersInColumns();
    FlagsInColumns();
  }

  lemma FlagsInColumns()
    ensures "SIMPLE  " + "=                    T" == "SIMPLE  =                    T"
    ensures "EXTEND  " + "=                    T" == "EXTEND  =                    T"
  {
  }

  lemma KeysPadded()
    ensures PadRight("SIMPLE", 8) == "SIMPLE  " && PadRight("EXTEND", 8) == "EXTEND  "
    ensures PadRight("BITPIX", 8) == "BITPIX  " && PadRight("NAXIS", 8) == "NAXIS   "
    ensures PadRight("NAXIS1", 8) == "NAXIS1  " && PadRight("NAXIS2", 8) == "NAXIS2  "
    ensures PadRight("PCOUNT", 8) == "PCOUNT  " && PadRight("GCOUNT", 8) == "GCOUNT  "
    ensures PadRight("TFIELDS", 8) == "TFIELDS " && PadRight("MOCORDER", 8) == "MOCORDER"
  {
  }

  lemma Justify()
    ensures Justified(0) == "=                    0" && Justified(1) == "=                    1"
    ensures Justified(2) == "=                    2"
  {
    SmallNumbers();
    assert Repeat(' ', 19) == "                   ";
  }

  lemma JustifyMore()
    ensures Justified(8) == "=                    8" && Justified(16) == "=                   16"
  {
    SmallNumbers();
    assert Repeat(' ', 19) == "                   " && Repeat(' ', 18) == "                  ";
  }

  lemma NumbersInColumns()
    ensures InColumns("BITPIX  ", 8) == "BITPIX  =                    8"
    ensures InColumns("NAXIS   ", 0) == "NAXIS   =                    0"
    ensures InColumns("NAXIS   ", 2) == "NAXIS   =                    2"
  {
    hide Justified;
    Justify();
    JustifyMore();
  }

  lemma SizeInColumns()
    ensures InColumns("NAXIS1  ", 16) == "NAXIS1  =                   16"
  {
    hide Justified;
    JustifyMore();
  }

  lemma MoreNumbersInColumns()
    ensures InColumns("PCOUNT  ", 0) == "PCOUNT  =                    0"
    ensures InColumns("GCOUNT  ", 1) == "GCOUNT  =                    1"
    ensures InColumns("TFIELDS ", 2) == "TFIELDS =                    2"
  {
    hide Justified;
    Justify();
    JustifyMore();
  }

  lemma KindTexts()
    ensures |KindCards()| == 3 == |KindLines()|
    ensures forall i :: 0 <= i < 3 ==> |KindLines()[i]| <= 80
    ensures forall i :: 0 <= i < 3 ==> CardText(KindCards()[i]) == Columns(KindLines()[i])
  {
    hide CardText, Columns, StrCard, IntCard;
    ExtensionText();
    AxesTexts();
  }

  lemma ExtensionText()
    ensures CardText(StrCard("XTENSION", "'BINTABLE'")) == Columns("XTENSION= 'BINTABLE'")
  {
    hide CardText, Columns, StrCard, PadRight;
    TextLine("XTENSION", "'BINTABLE'");
    KindKeys();
  }

  lemma AxesTexts()
    ensures CardText(IntCard("BITPIX", 8)) == Columns("BITPIX  =                    8")
    ensures CardText(IntCard("NAXIS", 2)) == Columns("NAXIS   =                    2")
  {
    hide CardText, Columns, IntCard, Justified, PadRight;
    KeysPadded();
    NumberLine("BITPIX", 8);
    NumberLine("NAXIS", 2);
    NumbersInColumns();
  }

  lemma KindKeys()
    ensures PadRight("XTENSION", 8) + "= " + "'BINTABLE'" == "XTENSION= 'BINTABLE'"
  {
  }

  lemma ShapeTexts(rows: U64)
    ensures |ShapeCards(16, rows)| == 5 == |ShapeLines(rows)|
    ensures forall i :: 0 <= i < 5 ==> |ShapeLines(rows)[i]| <= 80
    ensures forall i :: 0 <= i < 5 ==> CardText(ShapeCards(16, rows)[i]) == Columns(ShapeLines(rows)[i])
  {
    hide CardText, Columns, IntCard, Justified;
    SizeTexts(rows);
    CountTexts();
  }

  lemma SizeTexts(rows: U64)
    ensures CardText(IntCard("NAXIS1", 16)) == Columns("NAXIS1  =                   16")
    ensures CardText(IntCard("NAXIS2", rows)) == Columns(InColumns("NAXIS2  ", rows))
  {
    hide CardText, Columns, IntCard, Justified, PadRight;
    KeysPadded();
    SizeInColumns();
    NumberLine("NAXIS1", 16);
    NumberLine("NAXIS2", rows);
  }

  lemma CountTexts()
    ensures CardText(IntCard("PCOUNT", 0)) == Columns("PCOUNT  =                    0")
    ensures CardText(IntCard("GCOUNT", 1)) == Columns("GCOUNT  =                    1")
    ensures CardText(IntCard("TFIELDS", 2)) == Columns("TFIELDS =                    2")
  {
    hide CardText, Columns, IntCard, Justified, PadRight;
    KeysPadded();
    MoreNumbersInColumns();
    NumberLine("PCOUNT", 0);
    NumberLine("GCOUNT", 1);
    NumberLine("TFIELDS", 2);
  }

  lemma ColumnTexts()
    ensures |ColumnCards()| == 5 == |ColumnLines()|
    ensures forall i :: 0 <= i < 5 ==> |ColumnLines()[i]| <= 80
    ensures forall i :: 0 <= i < 5 ==> CardText(ColumnCards()[i]) == Columns(ColumnLines()[i])
  {
    hide CardText, Columns, StrCard, Justified, PadRight;
    TextLine("TTYPE1", "'UNIQ    '");
    TextLine("TFORM1", "'K       '");
    TextLine("TTYPE2", "'PROBDENSITY'");
    TextLine("TFORM2", "'D       '");
    TextLine("TUNIT2", "'sr-1    '");
    FirstColumnLines();
    OtherColumnLines();
    LastColumnLine();
  }

  lemma FirstColumnLines()
    ensures PadRight("TTYPE1", 8) + "= " + "'UNIQ    '" == "TTYPE1  = 'UNIQ    '"
    ensures PadRight("TFORM1", 8) + "= " + "'K       '" == "TFORM1  = 'K       '"
  {
  }

  lemma OtherColumnLines()
    ensures PadRight("TTYPE2", 8) + "= " + "'PROBDENSITY'" == "TTYPE2  = 'PROBDENSITY'"
    ensures PadRight("TFORM2", 8) + "= " + "'D       '" == "TFORM2  = 'D       '"
  {
  }

  lemma LastColumnLine()
    ensures PadRight("TUNIT2", 8) + "= " + "'sr-1    '" == "TUNIT2  = 'sr-1    '"
  {
  }

  lemma SkyTexts(order: U64)
    ensures |SkyCards(order)| == 5 == |SkyLines(order)|
    ensures forall i :: 0 <= i < 5 ==> |SkyLines(order)[i]| <= 80
    ensures forall i :: 0 <= i < 5 ==> CardText(SkyCards(order)[i]) == Columns(SkyLines(order)[i])
  {
    hide CardText, Columns, StrCard, IntCard, Justified, PadRight;
    FirstSkyTexts();
    OtherSkyTexts(order);
  }

  lemma FirstSkyTexts()
    ensures CardText(StrCard("PIXTYPE", "'HEALPIX '")) == Columns("PIXTYPE = 'HEALPIX '")
    ensures CardText(StrCard("ORDERING", "'NUNIQ   '")) == Columns("ORDERING= 'NUNIQ   '")
  {
    hide CardText, Columns, StrCard, PadRight;
    TextLine("PIXTYPE", "'HEALPIX '");
    TextLine("ORDERING", "'NUNIQ   '");
    FirstSkyLines();
  }

  lemma OtherSkyTexts(order: U64)
    ensures CardText(StrCard("COORDSYS", "'C       '")) == Columns("COORDSYS= 'C       '")
    ensures CardText(StrCard("INDXSCHM", "'EXPLICIT'")) == Columns("INDXSCHM= 'EXPLICIT'")
    ensures CardText(IntCard("MOCORDER", order)) == Columns(InColumns("MOCORDER", order))
  {
    hide CardText, Columns, StrCard, IntCard, Justified, PadRight;
    TextLine("COORDSYS", "'C       '");
    TextLine("INDXSCHM", "'EXPLICIT'");
    OtherSkyLines();
    OrderText(order);
  }

  lemma OrderText(order: U64)
    ensures CardText(IntCard("MOCORDER", order)) == Columns(InColumns("MOCORDER", order))
  {
    hide CardText, Columns, IntCard, Justified, PadRight;
    KeysPadded();
    NumberLine("MOCORDER", order);
  }

  lemma FirstSkyLines()
    ensures PadRight("PIXTYPE", 8) + "= " + "'HEALPIX '" == "PIXTYPE = 'HEALPIX '"
    ensures PadRight("ORDERING", 8) + "= " + "'NUNIQ   '" == "ORDERING= 'NUNIQ   '"
  {
  }

  lemma OtherSkyLines()
    ensures PadRight("COORDSYS", 8) + "= " + "'C       '" == "COORDSYS= 'C       '"
    ensures PadRight("INDXSCHM", 8) + "= " + "'EXPLICIT'" == "INDXSCHM= 'EXPLICIT'"
  {
  }

  lemma TableTexts(rows: U64, order: U64)
    ensures |TableLines(rows, order)| == 19 && TableLines(rows, order)[18] == "END"
    ensures forall i :: 0 <= i < 18 ==> |TableLines(rows, order)[i]| <= 80
    ensures forall i :: 0 <= i < 18 ==> CardText(TableCards(16, rows, order)[i]) == Columns(TableLines(rows, order)[i])
  {
    hide CardText, Columns, KindCards, ShapeCards, ColumnCards, SkyCards, TableCards;
    hide KindLines, ShapeLines, ColumnLines, SkyLines;
    CardGroups(16, rows, order);
    KindTexts();
    ShapeTexts(rows);
    ColumnTexts();
    SkyTexts(order);
    var lines := TableLines(rows, order);
    assert forall i :: 0 <= i < 3 ==> lines[i] == KindLines()[i];
    assert forall i :: 3 <= i < 8 ==> lines[i] == ShapeLines(rows)[i - 3];
    assert forall i :: 8 <= i < 13 ==> lines[i] == ColumnLines()[i - 8];
    assert forall i :: 13 <= i < 18 ==> lines[i] == SkyLines(order)[i - 13];
  }

  // ------------------------------------------------------------ the blocks

  // A header block holds the lines of its cards, END, and blanks.
  lemma BlockOfCards(cards: seq<Card>, lines: seq<string>)
    requires |cards| <= 35 && |lines| == |cards| + 1 && lines[|cards|] == "END"
    requires forall i :: 0 <= i < |cards| ==> |lines[i]| <= 80 && CardText(cards[i]) == Columns(lines[i])
    ensures |HeaderBytes(cards)| == 2880 && BlockHolds(HeaderBytes(cards), 0, lines)
  {
    hide CardBytes, CardText, Columns, LineAt, CardsBytes, EndCard;
    OneBlock(cards);
    var block := HeaderBytes(cards);
    var n := 80 * |cards|;
    var after := EndCard() + Repeat(SPACE, Padding(|CardsBytes(cards) + EndCard()|));
    assert block == CardsBytes(cards) + after;
    forall j | 0 <= j < |cards| ensures LineAt(block, 80 * j, lines[j]) {
      CardsAt(cards, after, j);
      CardIsLine(cards[j], lines[j]);
      LineMoves(CardBytes(cards[j]), block, 80 * j, lines[j]);
    }
    EndIsLine();
    assert block[n..n + 80] == EndCard();
    LineMoves(EndCard(), block, n, "END");
  }

  lemma EndIsLine()
    ensures LineAt(EndCard(), 0, "END")
  {
  }

  lemma LineMoves(card: Bytes, block: Bytes, at: nat, line: string)
    requires |card| == 80 && at + 80 <= |block| && block[at..at + 80] == card && LineAt(card, 0, line)
    ensures LineAt(block, at, line)
  {
    forall i | 0 <= i < |line| ensures block[at + i] == line[i] as int {
      assert block[at..at + 80][i] == block[at + i];
      assert card[0 + i] == line[i] as int;
    }
    forall i | at + |line| <= i < at + 80 ensures block[i] == 32 {
      assert block[at..at + 80][i - at] == block[i];
    }
  }

  lemma BlockMoves(block: Bytes, bytes: Bytes, at: nat, lines: seq<string>)
    requires |block| == 2880 && at + 2880 <= |bytes| && bytes[at..at + 2880] == block && BlockHolds(block, 0, lines)
    ensures BlockHolds(bytes, at, lines)
  {
    forall j | 0 <= j < |lines| ensures LineAt(bytes, at + 80 * j, lines[j]) {
      assert LineAt(block, 0 + 80 * j, lines[j]);
      forall i | 0 <= i < |lines[j]| ensures bytes[at + 80 * j + i] == lines[j][i] as int {
        assert block[80 * j + i] == bytes[at..at + 2880][80 * j + i];
      }
      forall i | at + 80 * j + |lines[j]| <= i < at + 80 * j + 80 ensures bytes[i] == 32 {
        assert block[i - at] == bytes[at..at + 2880][i - at];
      }
    }
    forall i | at + 80 * |lines| <= i < at + 2880 ensures bytes[i] == 32 {
      assert bytes[i] == bytes[at..at + 2880][i - at];
    }
  }

  /** The whole file: two header blocks with exactly these lines, one row of sixteen
      bytes a cell, zeros up to the next multiple of 2880. */
  lemma FileLayout(cells: seq<Cell>, order: U64)
    requires |cells| < U64_LIMIT
    ensures
      var file, rowsEnd := FileBytes(cells, order), 5760 + 16 * |cells|;
      && rowsEnd <= |file| < rowsEnd + 2880 && |file| % 2880 == 0
      && BlockHolds(file, 0, PrimaryLines()) && BlockHolds(file, 2880, TableLines(|cells|, order))
      && (forall i :: 0 <= i < |cells| ==> HoldsCell(file, 5760 + 16 * i, cells[i]))
      && (forall i :: rowsEnd <= i < |file| ==> file[i] == 0)
  {
    hide HeaderBytes, RowsBytes, TableCards, PrimaryCards, CardText, Columns, LineAt, HoldsCell, BlockHolds;
    hide PrimaryLines, TableLines;
    var file := FileBytes(cells, order);
    HeaderBlocks(|cells|, order);
    var primary, table := HeaderBytes(PrimaryCards()), HeaderBytes(TableCards(16, |cells|, order));
    var rows := RowsBytes(cells);
    var fill: Bytes := Repeat(0, Padding(|primary + table + rows|));
    assert file == primary + table + rows + fill;
    assert file[0..2880] == primary && file[2880..5760] == table;
    BlockMoves(primary, file, 0, PrimaryLines());
    BlockMoves(table, file, 2880, TableLines(|cells|, order));
    RowsHeld(primary + table, cells, fill);
  }

  lemma HeaderBlocks(rows: U64, order: U64)
    ensures
      && |HeaderBytes(PrimaryCards())| == 2880 && BlockHolds(HeaderBytes(PrimaryCards()), 0, PrimaryLines())
      && |HeaderBytes(TableCards(16, rows, order))| == 2880
      && BlockHolds(HeaderBytes(TableCards(16, rows, order)), 0, TableLines(rows, order))
  {
    hide HeaderBytes, TableCards, PrimaryCards, CardText, Columns, BlockHolds, Justified;
    PrimaryTexts();
    TableTexts(rows, order);
    BlockOfCards(PrimaryCards(), PrimaryLines());
    BlockOfCards(TableCards(16, rows, order), TableLines(rows, order));
  }

  lemma RowsHeld(before: Bytes, cells: seq<Cell>, after: Bytes)
    requires |before| == 5760
    ensures
      var file := before + RowsBytes(cells) + after;
      forall i :: 0 <= i < |cells| ==> HoldsCell(file, 5760 + 16 * i, cells[i])
  {
    hide RowsBytes, ReadRows, HoldsCell;
    var file := before + RowsBytes(cells) + after;
    RowsAreWide(cells);
    RowsRead(before, cells, NoTails(|cells|), 16, after);
    RowsAreRead(file, 5760, 16, |cells|);
    forall i | 0 <= i < |cells| ensures HoldsCell(file, 5760 + 16 * i, cells[i]) {
      assert 5760 + i * 16 == 5760 + 16 * i;
    }
  }
}
