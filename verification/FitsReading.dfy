/** Which files the reader accepts, over arbitrary bytes: stated on the cards and
    bytes themselves, not through the parser. */
module FitsReading {
  import opened Wrappers
  import opened Decimal
  import opened ByteStrings
  import opened Texts
  import opened Fits
  import opened FitsRoundTrip

  // ------------------------------------------------------------- headers

  // The card starting at byte `at` is END and blanks.
  predicate EndCardAt(bytes: Bytes, at: nat) {
    && at + 80 <= |bytes| && bytes[at] == 69 && bytes[at + 1] == 78 && bytes[at + 2] == 68
    && forall i :: at + 3 <= i < at + 80 ==> bytes[i] == 32
  }

  // Some card of the 2880 bytes before q is END.
  ghost predicate EndsBefore(bytes: Bytes, q: nat) {
    2880 <= q <= |bytes| && exists j: nat :: j < 36 && EndCardAt(bytes, q - 2880 + 80 * j)
  }

  // A whole number of blocks from p to q, one or more.
  predicate Aligned(p: nat, q: nat) {
    p < q && (q - p) % 2880 == 0
  }

  // Bytes p to q are a header: whole blocks, the last one and no earlier one with END.
  ghost predicate IsHeader(bytes: Bytes, p: nat, q: nat) {
    && Aligned(p, q) && q <= |bytes| && EndsBefore(bytes, q)
    && forall m: nat :: m < q && Aligned(p, m) ==> !EndsBefore(bytes, m)
  }

  lemma CardOfBlock(bytes: Bytes, pos: nat, j: nat)
    requires pos + BLOCK <= |bytes| && j < 36
    ensures
      var block := bytes[pos..pos + BLOCK];
      IsEnd(block[CARD * j..CARD * j + CARD]) <==> EndCardAt(bytes, pos + 80 * j)
  {
    var block := bytes[pos..pos + BLOCK];
    var card := block[CARD * j..CARD * j + CARD];
    var at := pos + 80 * j;
    assert forall i :: 0 <= i < CARD ==> card[i] == bytes[at + i];
    assert forall i :: at <= i < at + CARD ==> bytes[i] == card[i - at];
    assert Ascii("END") == [69, 78, 68];
    assert card[..3] == [card[0], card[1], card[2]];
    assert IsEnd(card) <==>
      card[0] == 69 && card[1] == 78 && card[2] == 68 && forall i :: 3 <= i < CARD ==> card[i] == SPACE;
  }

  lemma EndInBlock(bytes: Bytes, pos: nat)
    requires pos + BLOCK <= |bytes|
    ensures HasEnd(bytes[pos..pos + BLOCK]) <==> EndsBefore(bytes, pos + BLOCK)
  {
    hide IsEnd, EndCardAt;
    forall j: nat | j < 36
      ensures IsEnd(bytes[pos..pos + BLOCK][CARD * j..CARD * j + CARD]) <==> EndCardAt(bytes, pos + 80 * j)
    {
      CardOfBlock(bytes, pos, j);
    }
  }

  // A header that does not end with its first block goes on as one from the next.
  lemma HeaderGoesOn(bytes: Bytes, p: nat, q: nat)
    requires p + 2880 <= |bytes| && !EndsBefore(bytes, p + 2880)
    ensures IsHeader(bytes, p, q) <==> IsHeader(bytes, p + 2880, q)
  {
    hide EndsBefore;
    var r := p + 2880;
    assert forall m: nat :: Aligned(p, m) <==> m == r || Aligned(r, m);
  }

  lemma HeaderInOneBlock(bytes: Bytes, p: nat, q: nat)
    requires p + 2880 <= |bytes| && EndsBefore(bytes, p + 2880)
    ensures IsHeader(bytes, p, q) <==> q == p + 2880
  {
    hide EndsBefore;
  }

  // The reader finds the header if there is one.
  lemma {:induction false} HeaderReads(bytes: Bytes, p: nat)
    ensures
      match ReadHeader(bytes, p)
      case Ok(h) => IsHeader(bytes, p, h.1) && h.0 == bytes[p..h.1]
      case Err(e) => e == UnexpectedEof
    ensures forall q: nat :: IsHeader(bytes, p, q) <==> ReadHeader(bytes, p).Ok? && ReadHeader(bytes, p).value.1 == q
    decreases |bytes| - p
  {
    hide HasEnd, EndsBefore, IsHeader;
    if p + BLOCK > |bytes| {
      NoRoomForHeader(bytes, p);
    } else {
      EndInBlock(bytes, p);
      if HasEnd(bytes[p..p + BLOCK]) {
        forall q: nat ensures IsHeader(bytes, p, q) <==> q == p + 2880 { HeaderInOneBlock(bytes, p, q); }
      } else {
        HeaderReads(bytes, p + BLOCK);
        forall q: nat ensures IsHeader(bytes, p, q) <==> IsHeader(bytes, p + 2880, q) { HeaderGoesOn(bytes, p, q); }
        var rest := ReadHeader(bytes, p + BLOCK);
        if rest.Ok? {
          HeaderSpan(bytes, p + BLOCK, rest.value.1);
          assert bytes[p..p + BLOCK] + bytes[p + BLOCK..rest.value.1] == bytes[p..rest.value.1];
        }
      }
    }
  }

  lemma NoRoomForHeader(bytes: Bytes, p: nat)
    requires p + 2880 > |bytes|
    ensures forall q: nat :: !IsHeader(bytes, p, q)
  {
    hide EndsBefore;
  }

  lemma HeaderSpan(bytes: Bytes, p: nat, q: nat)
    requires IsHeader(bytes, p, q)
    ensures p < q <= |bytes| && Aligned(p, q)
  {
  }

  // --------------------------------------------------------------- cards

  // Card j of the header names this keyword: the key, then a blank, "= " after it.
  predicate NamesKey(header: Bytes, j: nat, key: string)
    requires |key| <= 8
  {
    && 80 * j + 80 <= |header|
    && (forall t :: 0 <= t < |key| ==> header[80 * j + t] == key[t] as int)
    && (|key| == 8 || header[80 * j + |key|] == 32)
    && header[80 * j + 8] == 61 && header[80 * j + 9] == 32
  }

  predicate FirstNamed(header: Bytes, j: nat, key: string)
    requires |key| <= 8
  {
    NamesKey(header, j, key) && forall i: nat :: i < j ==> !NamesKey(header, i, key)
  }

  lemma {:induction false} LeadingNonSpacesIff(b: Bytes, n: nat)
    requires n <= |b|
    ensures LeadingNonSpaces(b) == n <==> (forall i :: 0 <= i < n ==> b[i] != 32) && (n == |b| || b[n] == 32)
  {
    if n == 0 {
    } else {
      if b[0] != 32 { LeadingNonSpacesIff(b[1..], n - 1); }
    }
  }

  lemma MatchesIff(header: Bytes, j: nat, key: string)
    requires IsKeyword(key) && 80 * j + 80 <= |header|
    ensures CardMatches(header[CARD * j..CARD * j + CARD], key) <==> NamesKey(header, j, key)
  {
    hide LeadingNonSpaces;
    var card := header[CARD * j..CARD * j + CARD];
    assert forall i :: 0 <= i < CARD ==> card[i] == header[80 * j + i];
    LeadingNonSpacesIff(card[..8], |key|);
    if CardMatches(card, key) {
      assert |card[..LeadingNonSpaces(card[..8])]| == |key|;
      assert forall t :: 0 <= t < |key| ==> card[t] == Ascii(key)[t];
    }
    if NamesKey(header, j, key) {
      assert forall t :: 0 <= t < |key| ==> key[t] != ' ';
      assert card[..|key|] == Ascii(key);
    }
  }

  // The search returns the value of the first card of that name.
  lemma {:induction false} FindsFrom(header: Bytes, key: string, i: nat)
    requires IsKeyword(key) && forall m: nat :: m < i ==> !NamesKey(header, m, key)
    ensures
      match FindFrom(header, key, i)
      case Ok(v) => exists j: nat :: FirstNamed(header, j, key) && v == UpToSlash(header[80 * j + 10..80 * j + 80])
      case Err(e) => e == KeywordMissing(key) && forall m: nat :: !NamesKey(header, m, key)
    decreases |header| - CARD * i
  {
    hide CardMatches, UpToSlash;
    if CARD * i + CARD > |header| {
      forall m: nat | m >= i ensures !NamesKey(header, m, key) {}
    } else {
      MatchesIff(header, i, key);
      var card := header[CARD * i..CARD * i + CARD];
      if CardMatches(card, key) {
        assert card[10..] == header[80 * i + 10..80 * i + 80];
        assert FirstNamed(header, i, key);
      } else {
        FindsFrom(header, key, i + 1);
      }
    }
  }

  lemma FirstNamedIsUnique(header: Bytes, key: string, i: nat, j: nat)
    requires |key| <= 8 && FirstNamed(header, i, key) && FirstNamed(header, j, key)
    ensures i == j
  {
  }

  // -------------------------------------------------------------- values

  // The value field of card j: the bytes after "= " up to a slash or the end.
  predicate IsValue(header: Bytes, j: nat, v: Bytes) {
    && 80 * j + 80 <= |header| && |v| <= 70
    && v == header[80 * j + 10..80 * j + 10 + |v|]
    && 47 !in v && (|v| == 70 || header[80 * j + 10 + |v|] == 47)
  }

  lemma {:induction false} UpToSlashEnds(b: Bytes)
    ensures
      var n := |UpToSlash(b)|;
      n <= |b| && UpToSlash(b) == b[..n] && 47 !in UpToSlash(b) && (n == |b| || b[n] == 47)
  {
    if b == [] || b[0] == 47 {
    } else {
      UpToSlashEnds(b[1..]);
      var n := |UpToSlash(b[1..])|;
      assert b[..n + 1] == [b[0]] + b[1..][..n];
    }
  }

  lemma ValueIsUpToSlash(header: Bytes, j: nat, v: Bytes)
    requires 80 * j + 80 <= |header|
    ensures IsValue(header, j, v) <==> v == UpToSlash(header[80 * j + 10..80 * j + 80])
  {
    hide UpToSlash;
    var b := header[80 * j + 10..80 * j + 80];
    UpToSlashEnds(b);
    var n := |UpToSlash(b)|;
    assert forall i :: 0 <= i < 70 ==> b[i] == header[80 * j + 10 + i];
    assert b[..n] == header[80 * j + 10..80 * j + 10 + n];
    assert forall i :: 0 <= i < n ==> b[i] == UpToSlash(b)[i] != 47;
    if IsValue(header, j, v) {
      assert v == b[..|v|];
      assert forall i :: 0 <= i < |v| ==> b[i] == v[i] != 47;
    }
  }

  // The value of the first card of that name.
  ghost predicate HasValue(header: Bytes, key: string, v: Bytes)
    requires |key| <= 8
  {
    exists j: nat :: FirstNamed(header, j, key) && IsValue(header, j, v)
  }

  // No card of that name.
  predicate Lacks(header: Bytes, key: string)
    requires |key| <= 8
  {
    forall j: nat :: j < |header| ==> !NamesKey(header, j, key)
  }

  lemma FindsValue(header: Bytes, key: string)
    requires IsKeyword(key)
    ensures
      match FindCardValue(header, key)
      case Ok(v) => HasValue(header, key, v) && (forall w :: HasValue(header, key, w) ==> w == v) && !Lacks(header, key)
      case Err(e) => e == KeywordMissing(key) && Lacks(header, key) && forall w :: !HasValue(header, key, w)
  {
    hide UpToSlash, IsValue, FindFrom;
    FindsFrom(header, key, 0);
    match FindFrom(header, key, 0)
    case Ok(v) =>
      var j: nat :| FirstNamed(header, j, key) && v == UpToSlash(header[80 * j + 10..80 * j + 80]);
      NamedFits(header, key, j);
      ValueIsUpToSlash(header, j, v);
      forall w | HasValue(header, key, w) ensures w == v {
        var i: nat :| FirstNamed(header, i, key) && IsValue(header, i, w);
        FirstNamedIsUnique(header, key, i, j);
        ValueIsUpToSlash(header, j, w);
      }
    case Err(_) =>
  }

  lemma NamedFits(header: Bytes, key: string, j: nat)
    requires |key| <= 8 && NamesKey(header, j, key)
    ensures 80 * j + 80 <= |header| && j < |header|
  {
  }

  // ------------------------------------------------------ words, numbers

  predicate IsSkipped(b: Byte) {
    b == 39 || b == 32
  }

  /** Quotes and blanks aside, the field starts with this word: its characters stand
      at these increasing positions with nothing but quotes and blanks around them. */
  ghost predicate Spells(v: Bytes, word: string, at: seq<nat>) {
    && |at| == |word|
    && (forall t :: 0 <= t < |at| ==> at[t] < |v| && v[at[t]] == word[t] as int)
    && (forall s, t :: 0 <= s < t < |at| ==> at[s] < at[t])
    && (forall t :: 0 <= t < |at| ==> SkipsTo(v, at, t))
  }

  // Nothing but quotes and blanks between one position and the next.
  predicate SkipsTo(v: Bytes, at: seq<nat>, t: nat)
    requires t < |at|
  {
    AllSkipped(v, if t == 0 then 0 else at[t - 1] + 1, at[t])
  }

  predicate AllSkipped(v: Bytes, from: nat, upto: nat) {
    forall i :: from <= i < upto && i < |v| ==> IsSkipped(v[i])
  }

  ghost predicate StartsWithWord(v: Bytes, word: string) {
    exists at: seq<nat> :: Spells(v, word, at)
  }

  // No quotes or blanks in the word itself.
  predicate IsClean(word: string) {
    IsAscii(word) && '\'' !in word && ' ' !in word
  }

  function Shifted(at: seq<nat>): (r: seq<nat>)
    ensures |r| == |at| && forall t :: 0 <= t < |at| ==> r[t] == at[t] + 1
  {
    seq(|at|, t requires 0 <= t < |at| => at[t] + 1)
  }

  // A quote or blank in front changes nothing.
  lemma SkipOne(v: Bytes, word: string)
    requires v != [] && IsSkipped(v[0]) && IsClean(word)
    ensures StartsWithWord(v, word) <==> StartsWithWord(v[1..], word)
  {
    if at: seq<nat> :| Spells(v[1..], word, at) { SpellsLater(v, word, at); }
    if at: seq<nat> :| Spells(v, word, at) { SpellsEarlier(v, word, at); }
  }

  lemma SpellsEarlier(v: Bytes, word: string, at: seq<nat>)
    requires v != [] && IsSkipped(v[0]) && IsClean(word) && Spells(v, word, at)
    ensures StartsWithWord(v[1..], word)
  {
    assert forall t :: 0 <= t < |at| ==> word[t] in word;
    forall t | 0 <= t < |at| ensures at[t] > 0 { if t > 0 { assert at[0] < at[t]; } }
    var back := seq(|at|, t requires 0 <= t < |at| => at[t] - 1);
    forall t | 0 <= t < |at| ensures SkipsTo(v[1..], back, t) {
      assert SkipsTo(v, at, t);
      SkippedEarlier(v, if t == 0 then 1 else at[t - 1] + 1, at[t]);
    }
    assert Spells(v[1..], word, back);
  }

  lemma SpellsLater(v: Bytes, word: string, at: seq<nat>)
    requires v != [] && IsSkipped(v[0]) && Spells(v[1..], word, at)
    ensures StartsWithWord(v, word)
  {
    var later := Shifted(at);
    forall t | 0 <= t < |at| ensures SkipsTo(v, later, t) {
      assert SkipsTo(v[1..], at, t);
      SkippedLater(v, if t == 0 then 0 else at[t - 1] + 1, at[t]);
    }
    assert Spells(v, word, later);
  }

  // Any other byte must be the word's first character.
  lemma TakeOne(v: Bytes, word: string)
    requires v != [] && !IsSkipped(v[0]) && IsClean(word) && word != ""
    ensures StartsWithWord(v, word) <==> v[0] == word[0] as int && StartsWithWord(v[1..], word[1..])
  {
    if at: seq<nat> :| Spells(v, word, at) { RestSpelt(v, word, at); }
    if at: seq<nat> :| Spells(v[1..], word[1..], at) && v[0] == word[0] as int { WholeSpelt(v, word, at); }
  }

  lemma RestSpelt(v: Bytes, word: string, at: seq<nat>)
    requires v != [] && !IsSkipped(v[0]) && word != "" && Spells(v, word, at)
    ensures v[0] == word[0] as int && StartsWithWord(v[1..], word[1..])
  {
    assert SkipsTo(v, at, 0);
    assert at[0] == 0;
    forall t | 0 < t < |at| ensures at[t] > 0 { assert at[0] < at[t]; }
    var back := seq(|at| - 1, t requires 0 <= t < |at| - 1 => at[t + 1] - 1);
    forall t | 0 <= t < |back| ensures SkipsTo(v[1..], back, t) {
      assert SkipsTo(v, at, t + 1);
      SkippedEarlier(v, at[t] + 1, at[t + 1]);
    }
    assert Spells(v[1..], word[1..], back);
  }

  lemma SkippedEarlier(v: Bytes, from: nat, upto: nat)
    requires v != [] && 0 < from <= upto && AllSkipped(v, from, upto)
    ensures AllSkipped(v[1..], from - 1, upto - 1)
  {
    forall i | from - 1 <= i < upto - 1 && i < |v[1..]| ensures IsSkipped(v[1..][i]) {
      assert v[1..][i] == v[i + 1];
    }
  }

  lemma SkippedLater(v: Bytes, from: nat, upto: nat)
    requires v != [] && AllSkipped(v[1..], from, upto)
    ensures AllSkipped(v, from + 1, upto + 1)
  {
    forall i | from + 1 <= i < upto + 1 && i < |v| ensures IsSkipped(v[i]) {
      assert v[i] == v[1..][i - 1];
    }
  }

  lemma WholeSpelt(v: Bytes, word: string, at: seq<nat>)
    requires v != [] && word != "" && v[0] == word[0] as int && Spells(v[1..], word[1..], at)
    ensures StartsWithWord(v, word)
  {
    hide SkipsTo;
    var all := [0] + Shifted(at);
    assert all[0] == 0 && forall t :: 0 < t < |all| ==> all[t] == at[t - 1] + 1;
    forall t | 0 <= t < |all| ensures all[t] < |v| && v[all[t]] == word[t] as int {
      if t > 0 { assert v[all[t]] == v[1..][at[t - 1]] && word[t] == word[1..][t - 1]; }
    }
    forall t | 0 <= t < |all| ensures SkipsTo(v, all, t) {
      if t == 0 { SkipsNone(v, all); } else { SkipMoves(v, at, all, t); }
    }
    assert Spells(v, word, all);
  }

  lemma SkipsNone(v: Bytes, at: seq<nat>)
    requires at != [] && at[0] == 0
    ensures SkipsTo(v, at, 0)
  {
  }

  lemma SkipMoves(v: Bytes, at: seq<nat>, all: seq<nat>, t: nat)
    requires v != [] && 0 < t < |all| == |at| + 1 && all[0] == 0
    requires forall u :: 0 < u < |all| ==> all[u] == at[u - 1] + 1
    requires SkipsTo(v[1..], at, t - 1)
    ensures SkipsTo(v, all, t)
  {
    SkippedLater(v, if t == 1 then 0 else at[t - 2] + 1, at[t - 1]);
  }

  lemma EmptyWord(v: Bytes)
    ensures StartsWithWord(v, "")
  {
    var none: seq<nat> := [];
    assert Spells(v, "", none);
  }

  lemma NothingSpelt(word: string)
    requires word != ""
    ensures !StartsWithWord([], word)
  {
    forall at: seq<nat> ensures !Spells([], word, at) {
      assert |at| > 0 ==> at[0] >= 0;
    }
  }

  // Stripping quotes and blanks, then comparing a prefix, is just that.
  lemma {:induction false} WordIff(v: Bytes, word: string)
    requires IsClean(word)
    ensures Ascii(word) <= Bare(v) <==> StartsWithWord(v, word)
    decreases |v|
  {
    hide StartsWithWord;
    if word == "" {
      EmptyWord(v);
    } else if v == [] {
      NothingSpelt(word);
    } else if IsSkipped(v[0]) {
      WordIff(v[1..], word);
      SkipOne(v, word);
    } else {
      assert forall c :: c in word[1..] ==> c in word;
      WordIff(v[1..], word[1..]);
      TakeOne(v, word);
      assert Ascii(word) == [word[0] as int] + Ascii(word[1..]);
      assert Bare(v) == [v[0]] + Bare(v[1..]);
      PrefixOfCons(word[0] as int, Ascii(word[1..]), v[0], Bare(v[1..]));
    }
  }

  lemma PrefixOfCons(a: Byte, s: Bytes, b: Byte, t: Bytes)
    ensures [a] + s <= [b] + t <==> a == b && s <= t
  {
    if [a] + s <= [b] + t {
      assert ([a] + s)[0] == ([b] + t)[0];
      assert s == ([a] + s)[1..] && t == ([b] + t)[1..];
      assert forall i :: 0 <= i < |s| ==> s[i] == ([a] + s)[i + 1] == ([b] + t)[i + 1] == t[i];
    }
    if a == b && s <= t {
      assert forall i :: 0 <= i < |s| ==> ([a] + s)[i + 1] == s[i] == t[i] == ([b] + t)[i + 1];
    }
  }

  lemma WordReads(header: Bytes, key: string, word: string)
    requires IsKeyword(key) && IsClean(word)
    ensures ExpectString(header, key, word) ==
      if Lacks(header, key) then Err(KeywordMissing(key))
      else if HoldsWord(header, key, word) then Ok(()) else Err(WrongValue(key))
  {
    hide FindCardValue, HasValue, Lacks, Bare, StartsWithWord, IsClean;
    FindsValue(header, key);
    match FindCardValue(header, key)
    case Ok(v) => WordIff(v, word);
    case Err(_) =>
  }

  // The first card of that name holds the word, quotes and blanks aside.
  ghost predicate HoldsWord(header: Bytes, key: string, word: string)
    requires |key| <= 8
  {
    exists v :: HasValue(header, key, v) && StartsWithWord(v, word)
  }

  // A numeral with nothing but blanks of any kind around it.
  ghost predicate IsNumber(s: string, n: nat) {
    exists before: string, numeral: string, after: string, digits: string ::
      AllWhite(before) && AllWhite(after) && IsNumeralText(numeral, digits, n) && s == before + numeral + after
  }

  lemma NumberIff(s: string, n: nat)
    ensures ParseU64(Trim(s)) == Some(n) <==> IsNumber(s, n)
  {
    hide TrimStart, TrimEnd, Trim, ParseU64, IsNumeralText;
    if ParseU64(Trim(s)) == Some(n) {
      var before, after := TrimSplits(s);
      ParsesIff(Trim(s), n);
      var digits: string :| IsNumeralText(Trim(s), digits, n);
      assert IsNumber(s, n);
    }
    if IsNumber(s, n) {
      var before: string, numeral: string, after: string, digits: string :|
        AllWhite(before) && AllWhite(after) && IsNumeralText(numeral, digits, n) && s == before + numeral + after;
      ParsesIff(numeral, n);
      NumeralIsSolid(numeral, digits, n);
      TrimIs(before, numeral, after);
    }
  }

  lemma NumeralIsSolid(s: string, digits: string, n: nat)
    requires IsNumeralText(s, digits, n)
    ensures s != "" && !IsWhite(s[0]) && !IsWhite(s[|s| - 1])
  {
    assert IsDigit(digits[0]) && IsDigit(digits[|digits| - 1]);
    if s == "+" + digits { assert s[|s| - 1] == digits[|digits| - 1]; }
  }

  // The first card of that name holds the number n, with no more than blanks around.
  ghost predicate HoldsNumber(header: Bytes, key: string, n: nat)
    requires |key| <= 8
  {
    exists v, s :: HasValue(header, key, v) && Text(v) == Some(s) && IsNumber(s, n)
  }

  lemma NumberReads(header: Bytes, key: string)
    requires IsKeyword(key)
    ensures
      match HeaderInt(header, key)
      case Ok(n) => HoldsNumber(header, key, n) && forall m: nat :: HoldsNumber(header, key, m) ==> m == n
      case Err(e) =>
        && (forall m: nat :: !HoldsNumber(header, key, m))
        && e == if Lacks(header, key) then KeywordMissing(key) else BadInteger(key)
  {
    hide FindCardValue, HasValue, Lacks, Text, Trim, ParseU64, IsNumber;
    FindsValue(header, key);
    forall v, s, m: nat | HasValue(header, key, v) && Text(v) == Some(s) && IsNumber(s, m)
      ensures FindCardValue(header, key) == Ok(v) && ParseU64(Trim(s)) == Some(m)
    {
      NumberIff(s, m);
    }
    if HeaderInt(header, key).Ok? {
      var v := FindCardValue(header, key).value;
      NumberIff(Text(v).value, HeaderInt(header, key).value);
      assert HoldsNumber(header, key, HeaderInt(header, key).value);
    }
  }

  // ---------------------------------------------------------------- rows

  // Eight bytes, the most significant first.
  function WordAt(bytes: Bytes, at: nat): nat
    requires at + 8 <= |bytes|
  {
    0x100_0000_0000_0000 * (bytes[at] as int) + 0x1_0000_0000_0000 * (bytes[at + 1] as int)
    + 0x100_0000_0000 * (bytes[at + 2] as int) + 0x1_0000_0000 * (bytes[at + 3] as int)
    + 0x100_0000 * (bytes[at + 4] as int) + 0x1_0000 * (bytes[at + 5] as int)
    + 0x100 * (bytes[at + 6] as int) + (bytes[at + 7] as int)
  }

  lemma WordReadsAt(bytes: Bytes, at: nat)
    requires at + 8 <= |bytes|
    ensures FromBigEndian(bytes[at..at + 8]) == WordAt(bytes, at)
  {
    var b := bytes[at..at + 8];
    assert forall i :: 0 <= i < 8 ==> b[i] == bytes[at + i];
    EightBigEndian(b);
  }

  // Row i holds this cell in its first 16 bytes.
  predicate HoldsCell(bytes: Bytes, at: nat, c: Cell) {
    at + 16 <= |bytes| && c.uniq == WordAt(bytes, at) && c.density == WordAt(bytes, at + 8)
  }

  // Row i of the table at q holds the cell, for every row.
  predicate HoldRows(bytes: Bytes, q: nat, width: nat, cells: seq<Cell>) {
    forall i: nat :: i < |cells| ==> HoldsCell(bytes, q + i * width, cells[i])
  }

  lemma CellIsHeld(bytes: Bytes, at: nat)
    requires at + 16 <= |bytes|
    ensures HoldsCell(bytes, at, CellAt(bytes, at))
  {
    hide FromBigEndian, WordAt;
    EightBytesHoldU64();
    WordReadsAt(bytes, at);
    WordReadsAt(bytes, at + 8);
    assert bytes[at + 8..at + 8 + 8] == bytes[at + 8..at + 16];
  }

  lemma {:induction false} RowsAreRead(bytes: Bytes, pos: nat, width: nat, n: nat)
    requires width >= 16 && pos <= |bytes|
    ensures
      match ReadRows(bytes, pos, width, n)
      case Ok(cells) =>
        pos + n * width <= |bytes| && |cells| == n && HoldRows(bytes, pos, width, cells)
      case Err(e) => pos + n * width > |bytes| && e == UnexpectedEof
  {
    hide HoldsCell, CellAt;
    if n == 0 {
    } else {
      RowsAreRead(bytes, pos, width, n - 1);
      OneRowMore(pos, width, n);
      if pos + n * width <= |bytes| { CellIsHeld(bytes, pos + (n - 1) * width); }
    }
  }

  lemma OneRowMore(pos: nat, width: nat, n: nat)
    requires n > 0
    ensures pos + n * width == pos + (n - 1) * width + width
  {
  }

  // ------------------------------------------------------------ the reader

  datatype Check = Number(key: string) | Word(key: string, word: string)

  // What is asked of the table header, in this order.
  function Checks(): seq<Check> {
    [ Number("NAXIS1"), Number("NAXIS2"), Word("TTYPE1", "UNIQ"), Word("TFORM1", "K"),
      Word("TTYPE2", "PROBDENSITY"), Word("TFORM2", "D") ]
  }

  ghost predicate Passes(header: Bytes, check: Check)
    requires |check.key| <= 8
  {
    match check
    case Number(key) => exists n: nat :: HoldsNumber(header, key, n)
    case Word(key, word) => HoldsWord(header, key, word)
  }

  ghost function FaultOf(header: Bytes, check: Check): FitsError
    requires |check.key| <= 8
  {
    if Lacks(header, check.key) then KeywordMissing(check.key)
    else match check
      case Number(key) => BadInteger(key)
      case Word(key, _) => WrongValue(key)
  }

  /** A file the reader accepts: two headers, the columns named and typed, rows wide
      enough and none cut. */
  ghost predicate IsReadable(bytes: Bytes, q1: nat, q2: nat, width: nat, rows: nat) {
    && IsHeader(bytes, 0, q1) && IsHeader(bytes, q1, q2)
    && var header := bytes[q1..q2];
    && HoldsNumber(header, "NAXIS1", width) && HoldsNumber(header, "NAXIS2", rows)
    && HoldsWord(header, "TTYPE1", "UNIQ") && HoldsWord(header, "TFORM1", "K")
    && HoldsWord(header, "TTYPE2", "PROBDENSITY") && HoldsWord(header, "TFORM2", "D")
    && width >= 16 && q2 + rows * width <= |bytes|
  }

  lemma PlainKeys()
    ensures IsKeyword("NAXIS1") && IsKeyword("NAXIS2") && IsKeyword("TTYPE1") && IsKeyword("TFORM1")
    ensures IsKeyword("TTYPE2") && IsKeyword("TFORM2")
    ensures IsClean("UNIQ") && IsClean("K") && IsClean("PROBDENSITY") && IsClean("D")
  {
  }

  // Exactly one header starts at p, and it ends at q.
  ghost predicate OnlyHeader(bytes: Bytes, p: nat, q: nat) {
    IsHeader(bytes, p, q) && forall r: nat :: IsHeader(bytes, p, r) ==> r == q
  }

  ghost predicate NoHeader(bytes: Bytes, p: nat) {
    forall q: nat :: !IsHeader(bytes, p, q)
  }

  lemma HeaderSplits(bytes: Bytes, p: nat)
    ensures
      var r := ReadHeader(bytes, p);
      if r.Err? then r.error == UnexpectedEof && NoHeader(bytes, p)
      else OnlyHeader(bytes, p, r.value.1) && p < r.value.1 <= |bytes| && r.value.0 == bytes[p..r.value.1]
  {
    hide ReadHeader, IsHeader;
    HeaderReads(bytes, p);
    if ReadHeader(bytes, p).Ok? { HeaderSpan(bytes, p, ReadHeader(bytes, p).value.1); }
  }

  // The header holds this number under this key and no other.
  ghost predicate OnlyNumber(header: Bytes, key: string, n: nat)
    requires |key| <= 8
  {
    HoldsNumber(header, key, n) && forall m: nat :: HoldsNumber(header, key, m) ==> m == n
  }

  ghost predicate AllPass(header: Bytes, n: nat)
    requires n <= 6
  {
    forall i :: 0 <= i < n ==> Passes(header, Checks()[i])
  }

  // Check i is the first one the header fails.
  ghost predicate FailsAt(header: Bytes, i: nat) {
    i < 6 && !Passes(header, Checks()[i]) && AllPass(header, i)
  }

  // The table header's checks, made in order; the first fault is reported.
  lemma ShapeIsChecked(header: Bytes)
    ensures
      var r := ReadShape(header);
      if r.Ok? then
        && OnlyNumber(header, "NAXIS1", r.value.width) && OnlyNumber(header, "NAXIS2", r.value.rows)
        && AllPass(header, 6) && r.value.width >= 16
      else if r.error.RowTooShort? then
        AllPass(header, 6) && OnlyNumber(header, "NAXIS1", r.error.width) && r.error.width < 16
      else exists i: nat :: FailsAt(header, i) && r.error == FaultOf(header, Checks()[i])
  {
    hide HeaderInt, ExpectString, Passes, Lacks, OnlyNumber;
    PlainKeys();
    NumberCheck(header, "NAXIS1");
    NumberCheck(header, "NAXIS2");
    WordCheck(header, "TTYPE1", "UNIQ");
    WordCheck(header, "TFORM1", "K");
    WordCheck(header, "TTYPE2", "PROBDENSITY");
    WordCheck(header, "TFORM2", "D");
    ChecksInOrder();
    var r := ReadShape(header);
    if r.Err? && !r.error.RowTooShort? {
      var i :=
        if HeaderInt(header, "NAXIS1").Err? then 0 else if HeaderInt(header, "NAXIS2").Err? then 1
        else if ExpectString(header, "TTYPE1", "UNIQ").Err? then 2
        else if ExpectString(header, "TFORM1", "K").Err? then 3
        else if ExpectString(header, "TTYPE2", "PROBDENSITY").Err? then 4 else 5;
      assert FailsAt(header, i);
    }
  }

  lemma ChecksInOrder()
    ensures |Checks()| == 6
    ensures Checks()[0] == Number("NAXIS1") && Checks()[1] == Number("NAXIS2")
    ensures Checks()[2] == Word("TTYPE1", "UNIQ") && Checks()[3] == Word("TFORM1", "K")
    ensures Checks()[4] == Word("TTYPE2", "PROBDENSITY") && Checks()[5] == Word("TFORM2", "D")
  {
  }

  lemma NumberCheck(header: Bytes, key: string)
    requires IsKeyword(key)
    ensures
      var r := HeaderInt(header, key);
      if r.Ok? then Passes(header, Number(key)) && OnlyNumber(header, key, r.value)
      else !Passes(header, Number(key)) && r.error == FaultOf(header, Number(key))
  {
    hide HeaderInt, HoldsNumber, Lacks;
    NumberReads(header, key);
  }

  lemma WordCheck(header: Bytes, key: string, word: string)
    requires IsKeyword(key) && IsClean(word)
    ensures
      var r := ExpectString(header, key, word);
      if r.Ok? then Passes(header, Word(key, word))
      else !Passes(header, Word(key, word)) && r.error == FaultOf(header, Word(key, word))
  {
    hide ExpectString, HoldsWord, Lacks;
    WordReads(header, key, word);
    LackingHoldsNothing(header, key, word);
  }

  lemma LackingHoldsNothing(header: Bytes, key: string, word: string)
    requires |key| <= 8
    ensures Lacks(header, key) ==> !HoldsWord(header, key, word)
  {
    hide IsValue, StartsWithWord;
    if HoldsWord(header, key, word) {
      var v :| HasValue(header, key, v) && StartsWithWord(v, word);
      var j: nat :| FirstNamed(header, j, key) && IsValue(header, j, v);
      NamedFits(header, key, j);
    }
  }

  // ------------------------------------------------------- what is accepted

  lemma AcceptsReadable(bytes: Bytes, q1: nat, q2: nat, width: nat, rows: nat)
    requires IsReadable(bytes, q1, q2, width, rows)
    ensures ReadCells(bytes).Ok?
    ensures |ReadCells(bytes).value| == rows && HoldRows(bytes, q2, width, ReadCells(bytes).value)
  {
    hide ReadHeader, IsHeader, ReadShape, ReadRows, HoldsNumber, HoldsWord, HoldsCell;
    HeaderSplits(bytes, 0);
    HeaderSplits(bytes, q1);
    var header := bytes[q1..q2];
    AcceptedShape(header);
    ShapeIsChecked(header);
    assert forall i: nat :: !FailsAt(header, i);
    RowsAreRead(bytes, q2, width, rows);
  }

  lemma AcceptedIsReadable(bytes: Bytes) returns (q1: nat, q2: nat, width: nat, rows: nat)
    requires ReadCells(bytes).Ok?
    ensures IsReadable(bytes, q1, q2, width, rows)
  {
    hide ReadHeader, IsHeader, ReadShape, ReadRows, HoldsNumber, HoldsWord, HoldsCell;
    HeaderSplits(bytes, 0);
    q1 := ReadHeader(bytes, 0).value.1;
    HeaderSplits(bytes, q1);
    var table := ReadHeader(bytes, q1).value;
    q2 := table.1;
    ShapeIsChecked(table.0);
    AcceptedShape(table.0);
    var shape := ReadShape(table.0).value;
    width, rows := shape.width, shape.rows;
    RowsAreRead(bytes, q2, width, rows);
  }

  /** The reader accepts a file if and only if it is readable in this sense, and then
      returns the leading cell of every row. */
  lemma ReadsIff(bytes: Bytes)
    ensures ReadCells(bytes).Ok? <==>
              exists q1: nat, q2: nat, width: nat, rows: nat :: IsReadable(bytes, q1, q2, width, rows)
    ensures forall q1: nat, q2: nat, width: nat, rows: nat :: IsReadable(bytes, q1, q2, width, rows) ==>
              ReadCells(bytes).Ok? && |ReadCells(bytes).value| == rows
              && HoldRows(bytes, q2, width, ReadCells(bytes).value)
  {
    hide ReadCells, IsReadable, HoldRows;
    if ReadCells(bytes).Ok? { var q1, q2, width, rows := AcceptedIsReadable(bytes); }
    forall q1: nat, q2: nat, width: nat, rows: nat | IsReadable(bytes, q1, q2, width, rows)
      ensures ReadCells(bytes).Ok? && |ReadCells(bytes).value| == rows
      ensures HoldRows(bytes, q2, width, ReadCells(bytes).value)
    {
      AcceptsReadable(bytes, q1, q2, width, rows);
    }
  }

  // All six checks passed, spelt out.
  lemma AcceptedShape(header: Bytes)
    ensures AllPass(header, 6) <==>
      && (exists n: nat :: HoldsNumber(header, "NAXIS1", n)) && (exists n: nat :: HoldsNumber(header, "NAXIS2", n))
      && HoldsWord(header, "TTYPE1", "UNIQ") && HoldsWord(header, "TFORM1", "K")
      && HoldsWord(header, "TTYPE2", "PROBDENSITY") && HoldsWord(header, "TFORM2", "D")
  {
    hide HoldsNumber, HoldsWord;
    ChecksInOrder();
    var checks := Checks();
    assert AllPass(header, 6) <==>
      && Passes(header, checks[0]) && Passes(header, checks[1]) && Passes(header, checks[2])
      && Passes(header, checks[3]) && Passes(header, checks[4]) && Passes(header, checks[5]);
  }

  /** What is reported otherwise: a missing header or a cut row as end of file, else
      the first of the six checks that fails, else the row width. */
  lemma RefusesFirstFault(bytes: Bytes, q1: nat, q2: nat)
    ensures NoHeader(bytes, 0) ==> ReadCells(bytes) == Err(UnexpectedEof)
    ensures IsHeader(bytes, 0, q1) && NoHeader(bytes, q1) ==> ReadCells(bytes) == Err(UnexpectedEof)
    ensures IsHeader(bytes, 0, q1) && IsHeader(bytes, q1, q2) ==>
      && q1 <= q2 <= |bytes|
      && var header := bytes[q1..q2];
      && (forall i: nat :: FailsAt(header, i) ==> ReadCells(bytes) == Err(FaultOf(header, Checks()[i])))
      && (forall w: nat :: AllPass(header, 6) && HoldsNumber(header, "NAXIS1", w) && w < 16 ==>
            ReadCells(bytes) == Err(RowTooShort(w)))
      && (forall w: nat, n: nat ::
            && AllPass(header, 6) && HoldsNumber(header, "NAXIS1", w) && HoldsNumber(header, "NAXIS2", n)
            && w >= 16 && q2 + n * w > |bytes|
            ==> ReadCells(bytes) == Err(UnexpectedEof))
  {
    hide ReadHeader, IsHeader, ReadShape, ReadRows, HoldsNumber, HoldsWord, HoldsCell, Passes, FaultOf;
    HeaderSplits(bytes, 0);
    if ReadHeader(bytes, 0).Ok? {
      var a := ReadHeader(bytes, 0).value.1;
      HeaderSplits(bytes, a);
      if ReadHeader(bytes, a).Ok? {
        var b := ReadHeader(bytes, a).value;
        ShapeIsChecked(b.0);
        forall i: nat, j: nat | FailsAt(b.0, i) && FailsAt(b.0, j) ensures i == j {}
        if ReadShape(b.0).Ok? {
          var shape := ReadShape(b.0).value;
          RowsAreRead(bytes, b.1, shape.width, shape.rows);
        }
      }
    }
  }
}
