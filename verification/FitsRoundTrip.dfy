/** Reading back what was written: the FITS reader inverts the FITS writer. */
module FitsRoundTrip {
  import opened Wrappers
  import opened Decimal
  import opened ByteStrings
  import opened Nuniq
  import opened Texts
  import opened Fits

  // --------------------------------------------------------------- cards

  lemma CardColumns(c: Card)
    ensures
      var b := CardBytes(c);
      b[..8] == Ascii(PadRight(c.key, 8)) && b[8] == 61 && b[9] == SPACE && b[10..] == Ascii(c.field)
  {
    var t := CardText(c);
    assert t[..8] == PadRight(c.key, 8) && t[10..] == c.field && t[8] == '=' && t[9] == ' ';
  }

  lemma {:induction false} LeadingStops(b: Bytes, n: nat)
    requires n <= |b| && (forall i :: 0 <= i < n ==> b[i] != SPACE) && (n < |b| ==> b[n] == SPACE)
    ensures LeadingNonSpaces(b) == n
  {
    if n == 0 {
    } else {
      LeadingStops(b[1..], n - 1);
    }
  }

  lemma AsciiInjective(s: string, t: string)
    requires IsAscii(s) && IsAscii(t) && Ascii(s) == Ascii(t)
    ensures s == t
  {
    assert |s| == |Ascii(s)| == |t|;
    forall i | 0 <= i < |s|
      ensures s[i] == t[i]
    {
      assert Ascii(s)[i] == Ascii(t)[i];
    }
  }

  lemma MatchesIffSameKey(c: Card, keyword: string)
    requires IsAscii(keyword)
    ensures CardMatches(CardBytes(c), keyword) <==> c.key == keyword
  {
    CardColumns(c);
    var b := CardBytes(c);
    var field := Ascii(PadRight(c.key, 8));
    forall i | 0 <= i < |c.key|
      ensures field[i] == c.key[i] as int && field[i] != SPACE
    {
      assert c.key[i] in c.key;
    }
    LeadingStops(field, |c.key|);
    assert b[..|c.key|] == field[..|c.key|] == Ascii(c.key);
    if Ascii(c.key) == Ascii(keyword) { AsciiInjective(c.key, keyword); }
  }

  lemma {:induction false} CardsAt(cards: seq<Card>, rest: Bytes, i: nat)
    requires i < |cards|
    ensures (CardsBytes(cards) + rest)[CARD * i..CARD * i + CARD] == CardBytes(cards[i])
  {
    hide CardBytes;
    var init, last := cards[..|cards| - 1], CardBytes(cards[|cards| - 1]);
    assert CardsBytes(cards) + rest == CardsBytes(init) + (last + rest);
    if i == |cards| - 1 {
    } else {
      CardsAt(init, last + rest, i);
    }
  }

  // The reader finds the first card with the keyword, whatever follows.
  lemma {:induction false} FindAmong(cards: seq<Card>, rest: Bytes, keyword: string, i: nat, j: nat)
    requires IsAscii(keyword) && i <= j < |cards| && cards[j].key == keyword
    requires forall k :: i <= k < j ==> cards[k].key != keyword
    ensures FindFrom(CardsBytes(cards) + rest, keyword, i) == Ok(UpToSlash(Ascii(cards[j].field)))
    decreases j - i
  {
    hide CardBytes, CardMatches, CardsBytes, UpToSlash;
    CardsAt(cards, rest, i);
    MatchesIffSameKey(cards[i], keyword);
    if i < j {
      FindAmong(cards, rest, keyword, i + 1, j);
    } else {
      CardColumns(cards[i]);
    }
  }

  lemma {:induction false} NoSlash(b: Bytes)
    requires 47 !in b
    ensures UpToSlash(b) == b
  {
    if b == [] {
    } else {
      assert b[0] in b;
      assert forall x :: x in b[1..] ==> x in b;
      NoSlash(b[1..]);
    }
  }

  // ------------------------------------------------------- integer cards

  lemma {:induction false} TrimEndSpaces(s: string, k: nat)
    requires s != [] && !IsWhite(s[|s| - 1])
    ensures TrimEnd(s + Repeat(' ', k)) == s
  {
    var t := s + Repeat(' ', k);
    if k == 0 {
      assert t == s;
    } else {
      assert t[..|t| - 1] == s + Repeat(' ', k - 1);
      TrimEndSpaces(s, k - 1);
    }
  }

  lemma {:induction false} TrimStartSpaces(k: nat, s: string)
    requires s != [] && !IsWhite(s[0])
    ensures TrimStart(Repeat(' ', k) + s) == s
  {
    var t := Repeat(' ', k) + s;
    if k == 0 {
      assert t == s;
    } else {
      assert t[1..] == Repeat(' ', k - 1) + s;
      TrimStartSpaces(k - 1, s);
    }
  }

  lemma IntFieldReads(keyword: string, n: U64)
    requires IsKeyword(keyword)
    ensures
      var f := IntCard(keyword, n).field;
      47 !in Ascii(f) && Trim(f) == Digits(n)
  {
    TwentyColumns(n);
    var d := Digits(n);
    var padded := PadLeft(d, 20, ' ');
    assert padded == Repeat(' ', 20 - |d|) + d;
    assert IsDigit(d[0]) && IsDigit(d[|d| - 1]);
    TrimEndSpaces(padded, 50);
    TrimStartSpaces(20 - |d|, d);
    var f := padded + Repeat(' ', 50);
    forall i | 0 <= i < |f|
      ensures f[i] as int != 47
    {
      if 20 - |d| <= i < 20 { assert f[i] == d[i - (20 - |d|)]; }
    }
  }

  // The cards before j have other keywords.
  predicate IsFirst(cards: seq<Card>, keyword: string, j: nat) {
    j < |cards| && cards[j].key == keyword && forall i :: 0 <= i < j ==> cards[i].key != keyword
  }

  lemma HeaderIntReads(cards: seq<Card>, rest: Bytes, keyword: string, j: nat, n: U64)
    requires IsKeyword(keyword) && IsFirst(cards, keyword, j) && cards[j] == IntCard(keyword, n)
    ensures HeaderInt(CardsBytes(cards) + rest, keyword) == Ok(n)
  {
    hide FindFrom, IntCard, Trim, ParseU64, CardsBytes, Text;
    FindAmong(cards, rest, keyword, 0, j);
    IntFieldReads(keyword, n);
    var f := IntCard(keyword, n).field;
    NoSlash(Ascii(f));
    TextOfAscii(f);
    ParseOfZeroPadded(n, 0);
  }

  // -------------------------------------------------------- string cards

  lemma {:induction false} BareAppend(a: Bytes, b: Bytes)
    ensures Bare(a + b) == Bare(a) + Bare(b)
  {
    if a == [] {
      assert a + b == b;
    } else {
      assert (a + b)[1..] == a[1..] + b;
      BareAppend(a[1..], b);
    }
  }

  lemma {:induction false} BareOfBlank(b: Bytes)
    requires forall i :: 0 <= i < |b| ==> b[i] == 39 || b[i] == SPACE
    ensures Bare(b) == []
  {
    if b == [] {
    } else {
      BareOfBlank(b[1..]);
    }
  }

  lemma {:induction false} BareOfClean(b: Bytes)
    requires forall i :: 0 <= i < |b| ==> b[i] != 39 && b[i] != SPACE
    ensures Bare(b) == b
  {
    if b == [] {
    } else {
      BareOfClean(b[1..]);
    }
  }

  // No quote, blank or slash.
  predicate IsPlainWord(word: string) {
    IsAscii(word) && forall i :: 0 <= i < |word| ==> word[i] != '\'' && word[i] != ' ' && word[i] != '/'
  }

  // A value in quotes, blank-filled before the closing one.
  function Quoted(word: string, k: nat): (q: string)
    requires IsPlainWord(word) && |word| + k <= 68
    ensures IsAscii(q) && |q| <= 70
  {
    "'" + word + Repeat(' ', k) + "'"
  }

  function QuotedField(word: string, k: nat): string
    requires IsPlainWord(word) && |word| + k <= 68
  {
    PadRight(Quoted(word, k), 70)
  }

  lemma QuotedShape(word: string, k: nat)
    requires IsPlainWord(word) && |word| + k <= 68
    ensures
      var f, n := QuotedField(word, k), 1 + |word|;
      && |f| == 70 && f[0] == '\'' && f[1..n] == word
      && (forall i :: n <= i < 70 ==> f[i] == ' ' || f[i] == '\'')
      && (IsAscii(word) ==> IsAscii(f))
  {
    var f, n := QuotedField(word, k), 1 + |word|;
    assert f[1..n] == word;
  }

  lemma QuotedReads(word: string, k: nat)
    requires IsPlainWord(word) && |word| + k <= 68
    ensures
      var f := QuotedField(word, k);
      IsAscii(f) && 47 !in Ascii(f) && Bare(Ascii(f)) == Ascii(word)
  {
    hide QuotedField, Bare;
    QuotedShape(word, k);
    var f := QuotedField(word, k);
    var b := Ascii(f);
    var n := 1 + |word|;
    assert forall i :: 0 <= i < |word| ==> f[i + 1] == f[1..n][i];
    assert b[1..n] == Ascii(word);
    assert b == b[..1] + b[1..n] + b[n..];
    BareAppend(b[..1] + b[1..n], b[n..]);
    BareAppend(b[..1], b[1..n]);
    BareOfBlank(b[..1]);
    BareOfBlank(b[n..]);
    BareOfClean(b[1..n]);
    forall i | 0 <= i < 70
      ensures f[i] != '/'
    {
      if 1 <= i < n { assert f[i] == word[i - 1]; }
    }
  }

  lemma ExpectReads(cards: seq<Card>, rest: Bytes, keyword: string, j: nat, word: string, k: nat)
    requires IsKeyword(keyword) && IsFirst(cards, keyword, j)
    requires IsPlainWord(word) && |word| + k <= 68 && cards[j] == StrCard(keyword, Quoted(word, k))
    ensures ExpectString(CardsBytes(cards) + rest, keyword, word) == Ok(())
  {
    hide FindFrom, Bare, CardsBytes, UpToSlash, Quoted;
    FindAmong(cards, rest, keyword, 0, j);
    QuotedReads(word, k);
    NoSlash(Ascii(cards[j].field));
  }

  // ---------------------------------------------------- the table header

  predicate KeysAre(cards: seq<Card>, keys: seq<string>) {
    |cards| == |keys| && forall i :: 0 <= i < |keys| ==> cards[i].key == keys[i]
  }

  function TableKeys(): seq<string> {
    [ "XTENSION", "BITPIX", "NAXIS", "NAXIS1", "NAXIS2", "PCOUNT", "GCOUNT", "TFIELDS",
      "TTYPE1", "TFORM1", "TTYPE2", "TFORM2", "TUNIT2", "PIXTYPE", "ORDERING", "COORDSYS", "MOCORDER", "INDXSCHM" ]
  }

  lemma TableHasKeys(width: U64, rows: U64, order: U64)
    ensures KeysAre(TableCards(width, rows, order), TableKeys())
  {
    hide IntCard, StrCard;
    CardGroups(width, rows, order);
    var cards := TableCards(width, rows, order);
    forall i | 0 <= i < 18
      ensures cards[i].key == TableKeys()[i]
    {
      if i < 3 {
        assert cards[i] == KindCards()[i];
      } else if i < 8 {
        assert cards[i] == ShapeCards(width, rows)[i - 3];
      } else if i < 13 {
        assert cards[i] == ColumnCards()[i - 8];
      } else {
        assert cards[i] == SkyCards(order)[i - 13];
      }
    }
  }

  // Each keyword the reader asks for is not used by an earlier card.
  lemma KeysDiffer()
    ensures
      var keys := TableKeys();
      forall i, j :: 0 <= i < j < 18 && (j == 3 || j == 4 || 8 <= j <= 11 || j == 16) ==> keys[i] != keys[j]
  {
    var keys := TableKeys();
    // The character that tells keys of equal length apart.
    assert keys[3][5] != keys[4][5];
    assert keys[1][0] == 'B' && keys[3][0] == 'N' && keys[4][0] == 'N' && keys[5][0] == 'P' && keys[6][0] == 'G';
    assert keys[8][0] == 'T' && keys[8][1] == 'T' && keys[8][5] == '1';
    assert keys[9][0] == 'T' && keys[9][1] == 'F' && keys[9][5] == '1';
    assert keys[10][0] == 'T' && keys[10][1] == 'T' && keys[10][5] == '2';
    assert keys[11][0] == 'T' && keys[11][1] == 'F' && keys[11][5] == '2';
    assert keys[0][0] == 'X' && keys[14][0] == 'O' && keys[15][0] == 'C' && keys[16][0] == 'M';
  }

  lemma ShapeReads(width: U64, rows: U64, order: U64, rest: Bytes)
    ensures
      var header := CardsBytes(TableCards(width, rows, order)) + rest;
      && HeaderInt(header, "NAXIS1") == Ok(width) && HeaderInt(header, "NAXIS2") == Ok(rows)
      && HeaderInt(header, "MOCORDER") == Ok(order)
  {
    hide IntCard, StrCard, CardsBytes, HeaderInt, TableCards, IsFirst;
    var cards := TableCards(width, rows, order);
    TableKeysAreFirst(width, rows, order);
    IntCardsAt(width, rows, order);
    HeaderIntReads(cards, rest, "NAXIS1", 3, width);
    HeaderIntReads(cards, rest, "NAXIS2", 4, rows);
    HeaderIntReads(cards, rest, "MOCORDER", 16, order);
  }

  lemma IntCardsAt(width: U64, rows: U64, order: U64)
    ensures
      var cards := TableCards(width, rows, order);
      && cards[3] == IntCard("NAXIS1", width) && cards[4] == IntCard("NAXIS2", rows)
      && cards[16] == IntCard("MOCORDER", order)
  {
    hide IntCard, StrCard, KindCards, ColumnCards;
    var cards := TableCards(width, rows, order);
    CardGroups(width, rows, order);
    assert cards[3] == ShapeCards(width, rows)[0] && cards[4] == ShapeCards(width, rows)[1];
    assert cards[16] == SkyCards(order)[3];
  }

  lemma CardGroups(width: U64, rows: U64, order: U64)
    ensures |KindCards()| == 3 && |ShapeCards(width, rows)| == 5 && |ColumnCards()| == 5 && |SkyCards(order)| == 5
    ensures
      var cards := TableCards(width, rows, order);
      && (forall i :: 0 <= i < 3 ==> cards[i] == KindCards()[i])
      && (forall i :: 3 <= i < 8 ==> cards[i] == ShapeCards(width, rows)[i - 3])
      && (forall i :: 8 <= i < 13 ==> cards[i] == ColumnCards()[i - 8])
      && (forall i :: 13 <= i < 18 ==> cards[i] == SkyCards(order)[i - 13])
  {
    GroupSizes(width, rows, order);
    hide IntCard, StrCard;
  }

  lemma GroupSizes(width: U64, rows: U64, order: U64)
    ensures |KindCards()| == 3 && |ShapeCards(width, rows)| == 5 && |ColumnCards()| == 5 && |SkyCards(order)| == 5
  {
    hide IntCard, StrCard;
  }

  lemma FirstByKeys(cards: seq<Card>, keys: seq<string>, j: nat)
    requires KeysAre(cards, keys) && j < |keys| && forall i :: 0 <= i < j ==> keys[i] != keys[j]
    ensures IsFirst(cards, keys[j], j)
  {
  }

  lemma NamesOfKeys()
    ensures
      var keys := TableKeys();
      && |keys| == 18 && keys[3] == "NAXIS1" && keys[4] == "NAXIS2" && keys[16] == "MOCORDER"
      && keys[8] == "TTYPE1" && keys[9] == "TFORM1" && keys[10] == "TTYPE2" && keys[11] == "TFORM2"
  {
  }

  lemma TableKeysAreFirst(width: U64, rows: U64, order: U64)
    ensures
      var cards := TableCards(width, rows, order);
      && IsFirst(cards, "NAXIS1", 3) && IsFirst(cards, "NAXIS2", 4) && IsFirst(cards, "MOCORDER", 16)
      && IsFirst(cards, "TTYPE1", 8) && IsFirst(cards, "TFORM1", 9)
      && IsFirst(cards, "TTYPE2", 10) && IsFirst(cards, "TFORM2", 11)
  {
    hide TableCards, TableKeys, KeysAre, IsFirst;
    var cards, keys := TableCards(width, rows, order), TableKeys();
    TableHasKeys(width, rows, order);
    KeysDiffer();
    NamesOfKeys();
    FirstByKeys(cards, keys, 3);
    FirstByKeys(cards, keys, 4);
    FirstByKeys(cards, keys, 8);
    FirstByKeys(cards, keys, 9);
    FirstByKeys(cards, keys, 10);
    FirstByKeys(cards, keys, 11);
    FirstByKeys(cards, keys, 16);
  }

  lemma ColumnsRead(width: U64, rows: U64, order: U64, rest: Bytes)
    ensures CheckColumns(CardsBytes(TableCards(width, rows, order)) + rest) == Ok(())
  {
    hide IntCard, StrCard, CardsBytes, ExpectString, TableCards, IsFirst, IsPlainWord, Quoted;
    var cards := TableCards(width, rows, order);
    TableKeysAreFirst(width, rows, order);
    PlainWords();
    ColumnCardsAt(width, rows, order);
    ExpectReads(cards, rest, "TTYPE1", 8, "UNIQ", 4);
    ExpectReads(cards, rest, "TFORM1", 9, "K", 7);
    ExpectReads(cards, rest, "TTYPE2", 10, "PROBDENSITY", 0);
    ExpectReads(cards, rest, "TFORM2", 11, "D", 7);
  }

  lemma PlainWords()
    ensures IsPlainWord("UNIQ") && IsPlainWord("K") && IsPlainWord("PROBDENSITY") && IsPlainWord("D")
  {
  }

  lemma QuotedNames()
    requires IsPlainWord("UNIQ") && IsPlainWord("PROBDENSITY")
    ensures "'UNIQ    '" == Quoted("UNIQ", 4) && "'PROBDENSITY'" == Quoted("PROBDENSITY", 0)
  {
    hide IsPlainWord;
  }

  lemma QuotedFormats()
    requires IsPlainWord("K") && IsPlainWord("D")
    ensures "'K       '" == Quoted("K", 7) && "'D       '" == Quoted("D", 7)
  {
    hide IsPlainWord;
  }

  lemma ColumnCardsAt(width: U64, rows: U64, order: U64)
    requires IsPlainWord("UNIQ") && IsPlainWord("K") && IsPlainWord("PROBDENSITY") && IsPlainWord("D")
    ensures
      var cards := TableCards(width, rows, order);
      && cards[8] == StrCard("TTYPE1", Quoted("UNIQ", 4)) && cards[9] == StrCard("TFORM1", Quoted("K", 7))
      && cards[10] == StrCard("TTYPE2", Quoted("PROBDENSITY", 0)) && cards[11] == StrCard("TFORM2", Quoted("D", 7))
  {
    hide StrCard, IntCard, Quoted, IsPlainWord;
    var cards := TableCards(width, rows, order);
    QuotedNames();
    QuotedFormats();
    CardGroups(width, rows, order);
    assert cards[8] == ColumnCards()[0] && cards[9] == ColumnCards()[1];
    assert cards[10] == ColumnCards()[2] && cards[11] == ColumnCards()[3];
  }

  // -------------------------------------------------------------- blocks

  // A header of at most 35 cards is one block that ends the header.
  lemma PrimaryIsShort()
    ensures |PrimaryCards()| == 4
  {
  }

  lemma MiddleSlice(a: Bytes, b: Bytes, c: Bytes)
    ensures |a + b + c| >= |a| + |b| && (a + b + c)[|a|..|a| + |b|] == b
  {
  }

  lemma EndCardIsEnd()
    ensures IsEnd(EndCard())
  {
    assert EndCard()[..3] == Ascii("END");
  }

  lemma OneBlock(cards: seq<Card>)
    requires |cards| <= 35
    ensures |HeaderBytes(cards)| == BLOCK && HasEnd(HeaderBytes(cards))
    ensures exists rest :: HeaderBytes(cards) == CardsBytes(cards) + rest
  {
    hide CardsBytes, EndCard, IsEnd;
    EndCardIsEnd();
    var all, i := CardsBytes(cards), |cards|;
    var fill: Bytes := Repeat(SPACE, Padding(|all + EndCard()|));
    var block := HeaderBytes(cards);
    MiddleSlice(all, EndCard(), fill);
    assert block == all + EndCard() + fill == all + (EndCard() + fill);
    assert block[CARD * i..CARD * i + CARD] == EndCard();
  }

  lemma ReadsOneBlock(before: Bytes, block: Bytes, after: Bytes)
    requires |block| == BLOCK && HasEnd(block)
    ensures ReadHeader(before + block + after, |before|) == Ok((block, |before| + BLOCK))
  {
    var bytes := before + block + after;
    assert bytes[|before|..|before| + BLOCK] == block;
  }

  // What follows the cards in a header block.
  lemma CardsFirst(cards: seq<Card>) returns (rest: Bytes)
    requires |cards| <= 35
    ensures HeaderBytes(cards) == CardsBytes(cards) + rest
  {
    hide CardsBytes, HeaderBytes;
    OneBlock(cards);
    rest :| HeaderBytes(cards) == CardsBytes(cards) + rest;
  }

  /** A file that starts with these headers is read as rows of that width from
      byte 5760 on. */
  lemma HeadersRead(width: U64, rows: U64, order: U64, rest: Bytes)
    requires width >= 16
    ensures |Headers(width, rows, order)| == 2 * BLOCK
    ensures ReadCells(Headers(width, rows, order) + rest)
         == ReadRows(Headers(width, rows, order) + rest, 2 * BLOCK, width, rows)
  {
    hide HeaderBytes, HasEnd, TableCards, PrimaryCards, ReadHeader, HeaderInt, CheckColumns, CardsBytes;
    PrimaryIsShort();
    OneBlock(PrimaryCards());
    OneBlock(TableCards(width, rows, order));
    var primary, table := HeaderBytes(PrimaryCards()), HeaderBytes(TableCards(width, rows, order));
    var bytes := Headers(width, rows, order) + rest;
    assert bytes == [] + primary + (table + rest) && bytes == primary + table + rest;
    ReadsOneBlock([], primary, table + rest);
    ReadsOneBlock(primary, table, rest);
    var tail := CardsFirst(TableCards(width, rows, order));
    ShapeReads(width, rows, order, tail);
    ColumnsRead(width, rows, order, tail);
  }

  // ---------------------------------------------------------------- rows

  // Rows with further columns: each row's 16 bytes, then its tail.
  function WideRows(cells: seq<Cell>, tails: seq<Bytes>): Bytes
    requires |tails| == |cells|
  {
    if cells == [] then []
    else
      var last := |cells| - 1;
      WideRows(cells[..last], tails[..last]) + (RowBytes(cells[last]) + tails[last])
  }

  ghost predicate TailsHave(tails: seq<Bytes>, length: nat) {
    forall i :: 0 <= i < |tails| ==> |tails[i]| == length
  }

  lemma {:induction false} WideLength(cells: seq<Cell>, tails: seq<Bytes>, width: nat)
    requires |tails| == |cells| && width >= 16 && TailsHave(tails, width - 16)
    ensures |WideRows(cells, tails)| == |cells| * width
  {
    if cells == [] {
    } else {
      var last := |cells| - 1;
      WideLength(cells[..last], tails[..last], width);
      assert |cells| * width == last * width + width;
    }
  }

  lemma CellReads(before: Bytes, c: Cell, after: Bytes)
    ensures CellAt(before + RowBytes(c) + after, |before|) == c
  {
    hide BigEndian;
    EightBytesHoldU64();
    var bytes, n := before + RowBytes(c) + after, |before|;
    assert bytes[n..n + 8] == BigEndian(c.uniq, 8);
    assert bytes[n + 8..n + 16] == BigEndian(c.density, 8);
    BigEndianRoundTrip(c.uniq, 8);
    BigEndianRoundTrip(c.density, 8);
  }

  // Splitting off the last row of a table in two ways.
  lemma LastRow(before: Bytes, cells: seq<Cell>, tails: seq<Bytes>, after: Bytes)
    requires |tails| == |cells| > 0
    ensures
      var last := |cells| - 1;
      var init := WideRows(cells[..last], tails[..last]);
      var bytes := before + WideRows(cells, tails) + after;
      && bytes == before + init + (RowBytes(cells[last]) + tails[last] + after)
      && bytes == (before + init) + RowBytes(cells[last]) + (tails[last] + after)
  {
    hide RowBytes;
  }

  lemma {:induction false} RowsRead(before: Bytes, cells: seq<Cell>, tails: seq<Bytes>, width: nat, after: Bytes)
    requires |tails| == |cells| && width >= 16 && TailsHave(tails, width - 16)
    ensures ReadRows(before + WideRows(cells, tails) + after, |before|, width, |cells|) == Ok(cells)
  {
    hide RowBytes, CellAt, WideRows;
    if cells == [] {
    } else {
      var last := |cells| - 1;
      LastRow(before, cells, tails, after);
      RowsRead(before, cells[..last], tails[..last], width, RowBytes(cells[last]) + tails[last] + after);
      WideLength(cells[..last], tails[..last], width);
      CellReads(before + WideRows(cells[..last], tails[..last]), cells[last], tails[last] + after);
      assert cells[..last] + [cells[last]] == cells;
    }
  }

  lemma {:induction false} RowsFailOnlyAtEof(bytes: Bytes, pos: nat, width: nat, n: nat)
    requires width >= 16
    ensures ReadRows(bytes, pos, width, n).Err? ==> ReadRows(bytes, pos, width, n).error == UnexpectedEof
    ensures n > 0 && pos + n * width > |bytes| ==> ReadRows(bytes, pos, width, n).Err?
  {
    if n == 0 {
    } else {
      RowsFailOnlyAtEof(bytes, pos, width, n - 1);
      assert n * width == (n - 1) * width + width;
    }
  }

  // --------------------------------------------------------- round trips

  /** Tables with extra columns: whatever follows the first 16 bytes of each row
      and whatever follows the last row, the cells read are exactly those
      16-byte prefixes. */
  lemma WideTableReads(cells: seq<Cell>, tails: seq<Bytes>, width: U64, order: U64, after: Bytes)
    requires |cells| < U64_LIMIT && |tails| == |cells| && width >= 16 && TailsHave(tails, width - 16)
    ensures ReadCells(Headers(width, |cells|, order) + WideRows(cells, tails) + after) == Ok(cells)
  {
    hide Headers, ReadCells, ReadRows, WideRows;
    var h := Headers(width, |cells|, order);
    assert h + WideRows(cells, tails) + after == h + (WideRows(cells, tails) + after);
    HeadersRead(width, |cells|, order, WideRows(cells, tails) + after);
    RowsRead(h, cells, tails, width, after);
  }

  function NoTails(n: nat): (t: seq<Bytes>)
    ensures |t| == n
  {
    seq(n, _ => [])
  }

  lemma {:induction false} RowsAreWide(cells: seq<Cell>)
    ensures WideRows(cells, NoTails(|cells|)) == RowsBytes(cells)
  {
    hide RowBytes;
    if cells == [] {
    } else {
      var last := |cells| - 1;
      RowsAreWide(cells[..last]);
      assert NoTails(|cells|)[..last] == NoTails(last);
      assert RowBytes(cells[last]) + [] == RowBytes(cells[last]);
    }
  }

  /** Round trip with truncation: the written file cut to its first m bytes is
      read back, bit for bit, exactly when no byte of a row is missing. */
  lemma PrefixReadsIff(cells: seq<Cell>, order: U64, m: nat)
    requires |cells| < U64_LIMIT && m <= |FileBytes(cells, order)|
    ensures |FileBytes(cells, order)| >= 2 * BLOCK + 16 * |cells|
    ensures
      var r := ReadCells(FileBytes(cells, order)[..m]);
      r == if m >= 2 * BLOCK + 16 * |cells| then Ok(cells) else Err(UnexpectedEof)
  {
    hide Headers, ReadCells, ReadRows, RowsBytes;
    var h, rows := Headers(16, |cells|, order), RowsBytes(cells);
    var file := FileBytes(cells, order);
    HeadersRead(16, |cells|, order, []);
    if m >= 2 * BLOCK + 16 * |cells| {
      var after := file[|h + rows|..m];
      assert file[..m] == h + rows + after;
      RowsAreWide(cells);
      WideTableReads(cells, NoTails(|cells|), 16, order, after);
    } else if m >= 2 * BLOCK {
      var rest := file[|h|..m];
      assert file[..m] == h + rest;
      HeadersRead(16, |cells|, order, rest);
      RowsFailOnlyAtEof(file[..m], 2 * BLOCK, 16, |cells|);
    } else {
      assert file[..m] == h[..m];
      CutHeaderFails(16, |cells|, order, m);
    }
  }

  lemma CutHeaderFails(width: U64, rows: U64, order: U64, m: nat)
    requires |Headers(width, rows, order)| == 2 * BLOCK && m < 2 * BLOCK
    ensures ReadCells(Headers(width, rows, order)[..m]) == Err(UnexpectedEof)
  {
    hide HeaderBytes, HasEnd, TableCards, PrimaryCards, HeaderInt, CheckColumns, CardsBytes;
    PrimaryIsShort();
    OneBlock(PrimaryCards());
    var primary := HeaderBytes(PrimaryCards());
    var cut := Headers(width, rows, order)[..m];
    if m >= BLOCK {
      assert cut == [] + primary + cut[BLOCK..];
      ReadsOneBlock([], primary, cut[BLOCK..]);
    }
  }

  /** The FITS round trip. */
  lemma ReadInvertsWrite(cells: seq<Cell>, order: U64)
    requires |cells| < U64_LIMIT
    ensures ReadCells(FileBytes(cells, order)) == Ok(cells) && |FileBytes(cells, order)| % BLOCK == 0
  {
    hide ReadCells;
    var file := FileBytes(cells, order);
    PrefixReadsIff(cells, order, |file|);
    assert file[..|file|] == file;
  }

  // ------------------------------------------------------- two writers

  /** The bytes determine the MOCORDER value, so two writers of the same cells
      agree exactly when they are given the same order. */
  lemma SameFileIffSameOrder(cells: seq<Cell>, a: U64, b: U64)
    requires |cells| < U64_LIMIT
    ensures FileBytes(cells, a) == FileBytes(cells, b) <==> a == b
  {
    hide FileBytes, HeaderBytes, TableCards, HeaderInt;
    TableBlock(cells, a);
    TableBlock(cells, b);
    HeaderTellsOrder(16, |cells|, a);
    HeaderTellsOrder(16, |cells|, b);
  }

  // The second block of a file is its table header.
  lemma TableBlock(cells: seq<Cell>, order: U64)
    requires |cells| < U64_LIMIT
    ensures |FileBytes(cells, order)| >= 2 * BLOCK
    ensures FileBytes(cells, order)[BLOCK..2 * BLOCK] == HeaderBytes(TableCards(16, |cells|, order))
  {
    hide HeaderBytes, RowsBytes, TableCards, PrimaryCards;
    PrimaryIsShort();
    OneBlock(PrimaryCards());
    OneBlock(TableCards(16, |cells|, order));
    var primary, table := HeaderBytes(PrimaryCards()), HeaderBytes(TableCards(16, |cells|, order));
    var body := primary + table + RowsBytes(cells);
    MiddleSlice(primary, table, RowsBytes(cells) + Repeat(0, Padding(|body|)));
    assert FileBytes(cells, order) == primary + table + (RowsBytes(cells) + Repeat(0, Padding(|body|)));
  }

  lemma HeaderTellsOrder(width: U64, rows: U64, order: U64)
    ensures HeaderInt(HeaderBytes(TableCards(width, rows, order)), "MOCORDER") == Ok(order)
  {
    hide HeaderBytes, TableCards, CardsBytes, HeaderInt;
    var rest := CardsFirst(TableCards(width, rows, order));
    ShapeReads(width, rows, order, rest);
  }

  lemma {:induction false} MaxDepthFits(cells: seq<PackedCell>)
    ensures MaxDepth(cells) <= 30
  {
    if cells == [] {
    } else {
      MaxDepthFits(cells[..|cells| - 1]);
      DecodeEncodes(cells[|cells| - 1].uniq);
    }
  }

  // The MOCORDER value of a list: its deepest cell's depth.
  function Order(cells: seq<PackedCell>): U64 {
    MaxDepthFits(cells);
    MaxDepth(cells)
  }

  // A cell list at one depth, every cell with the same density.
  function UniformCells(uniqs: seq<U64>, density: U64): (cells: seq<Cell>)
    ensures |cells| == |uniqs|
  {
    seq(|uniqs|, i requires 0 <= i < |uniqs| => Cell(uniqs[i], density))
  }

  lemma {:induction false} MaxDepthOfOneDepth(cells: seq<PackedCell>, depth: nat)
    requires cells != [] && forall i :: 0 <= i < |cells| ==> Depth(cells[i].uniq) == depth
    ensures MaxDepth(cells) == depth
  {
    if |cells| == 1 {
    } else {
      MaxDepthOfOneDepth(cells[..|cells| - 1], depth);
    }
  }

  // MOCORDER is the depth of the deepest cell, 0 for no cells.
  lemma {:induction false} OrderIsDeepest(cells: seq<PackedCell>)
    ensures forall i :: 0 <= i < |cells| ==> Depth(cells[i].uniq) <= Order(cells)
    ensures cells != [] ==> exists i :: 0 <= i < |cells| && Depth(cells[i].uniq) == Order(cells)
    ensures cells == [] ==> Order(cells) == 0
  {
    hide Depth;
    if cells == [] {
    } else {
      var init, last := cells[..|cells| - 1], |cells| - 1;
      OrderIsDeepest(init);
      if Depth(cells[last].uniq) <= MaxDepth(init) && init != [] {
        var i :| 0 <= i < |init| && Depth(init[i].uniq) == Order(init);
        assert Depth(cells[i].uniq) == Order(cells);
      } else {
        assert Depth(cells[last].uniq) == Order(cells);
      }
    }
  }
}
