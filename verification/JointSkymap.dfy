/** The joint map from file to file: read the gravitational-wave map, restrict
    and rescale it, write the result (src/joint_skymap.rs), and the synthetic
    cone as a file (src/skymap_synth.rs). */
module JointSkymap {
  import opened Wrappers
  import opened Decimal
  import opened ByteStrings
  import opened Nuniq
  import opened Fits
  import opened FitsRoundTrip
  import opened FitsIo
  import opened Posterior

  // What a density word stands for, and the word a density is rounded to.
  datatype Words = Words(value: U64 -> real, word: real -> U64)

  // MalformedRow stands for the abort on a row that packs no cell, or one deeper
  // than HEALPix libraries go.
  datatype JointError = Unreadable(error: FitsError) | BadRegion | MalformedRow | EmptyOverlap

  // Every row packs some cell.
  predicate IsCellTable(cells: seq<Cell>) {
    forall i :: 0 <= i < |cells| ==> cells[i].uniq >= 4
  }

  // Every row's cell has a depth of at most 29, so its centre can be found.
  predicate HaveCentres(cells: seq<Cell>) {
    forall i :: 0 <= i < |cells| ==> cells[i].uniq < 0x4000_0000_0000_0000
  }

  function Interpreted(words: Words, cells: seq<Cell>): (m: seq<DensityCell>)
    requires IsCellTable(cells)
    ensures |m| == |cells| && IsPacked(m)
  {
    seq(|cells|, i requires 0 <= i < |cells| => DensityCell(cells[i].uniq, words.value(cells[i].density)))
  }

  function RoundedCell(words: Words, c: DensityCell): PackedCell
    requires c.uniq >= 4
  {
    Cell(c.uniq, words.word(c.density))
  }

  function Rounded(words: Words, m: seq<DensityCell>): (cells: seq<PackedCell>)
    requires IsPacked(m)
    ensures |cells| == |m|
  {
    seq(|m|, i requires 0 <= i < |m| => RoundedCell(words, m[i]))
  }

  // The densities of m survive rounding.
  predicate IsExact(words: Words, m: seq<DensityCell>) {
    forall i :: 0 <= i < |m| ==> words.value(words.word(m[i].density)) == m[i].density
  }

  function DensityFile(words: Words, m: seq<DensityCell>): Bytes
    requires IsPacked(m) && |m| < U64_LIMIT
  {
    FileBytes(Rounded(words, m), Order(Rounded(words, m)))
  }

  // No region: its own file could not be parsed.
  function JointFile(pi: real, words: Words, bytes: Bytes, region: Option<Region>): Result<Bytes, JointError>
    requires pi > 0.0
  {
    match ReadCells(bytes)
    case Err(e) => Err(Unreadable(e))
    case Ok(cells) =>
      if region.None? then Err(BadRegion)
      else if !IsCellTable(cells) || !HaveCentres(cells) then Err(MalformedRow)
      else
        match Combined(pi, Interpreted(words, cells), region.value)
        case Err(_) => Err(JointError.EmptyOverlap)
        case Ok(m) =>
          RowCountFits(bytes);
          CombinedIsNoLonger(pi, Interpreted(words, cells), region.value);
          Ok(DensityFile(words, m))
  }

  lemma {:induction false} RowsCount(bytes: Bytes, pos: nat, width: nat, n: nat)
    requires width >= 16 && ReadRows(bytes, pos, width, n).Ok?
    ensures |ReadRows(bytes, pos, width, n).value| == n
  {
    if n == 0 {
    } else {
      RowsCount(bytes, pos, width, n - 1);
    }
  }

  lemma RowCountFits(bytes: Bytes)
    requires ReadCells(bytes).Ok?
    ensures |ReadCells(bytes).value| < U64_LIMIT
  {
    hide ReadHeader, ReadRows, HeaderInt, CheckColumns;
    var table := ReadHeader(bytes, ReadHeader(bytes, 0).value.1).value;
    var shape := ReadShape(table.0).value;
    RowsCount(bytes, table.1, shape.width, shape.rows);
  }

  lemma {:induction false} KeptIsNoLonger(cells: seq<DensityCell>, region: Region)
    ensures |Kept(cells, region)| <= |cells|
  {
    if cells == [] {
    } else {
      KeptIsNoLonger(cells[..|cells| - 1], region);
    }
  }

  lemma CombinedIsNoLonger(pi: real, cells: seq<DensityCell>, region: Region)
    requires pi > 0.0 && IsPacked(cells) && Combined(pi, cells, region).Ok?
    ensures |Combined(pi, cells, region).value| <= |cells|
  {
    KeptIsNoLonger(cells, region);
  }

  /** `combine_gw_with_external_moc`. */
  method CombineGwWithExternalMoc(pi: real, words: Words, gwFits: Bytes, region: Option<Region>)
    returns (r: Result<Bytes, JointError>)
    requires pi > 0.0
    ensures r == JointFile(pi, words, gwFits, region)
  {
    hide Combined, ReadCells, FileBytes;
    var cells := ReadMultiordermapCells(gwFits);
    if cells.Err? { return Err(Unreadable(cells.error)); }
    if region.None? { return Err(BadRegion); }
    if !IsCellTable(cells.value) || !HaveCentres(cells.value) { return Err(MalformedRow); }
    var m := Combine(pi, Interpreted(words, cells.value), region.value);
    if m.Err? { return Err(JointError.EmptyOverlap); }
    RowCountFits(gwFits);
    CombinedIsNoLonger(pi, Interpreted(words, cells.value), region.value);
    var out := WriteMultiordermapFits(Rounded(words, m.value));
    r := Ok(out);
  }

  lemma DensityFileReads(words: Words, m: seq<DensityCell>)
    requires IsPacked(m) && |m| < U64_LIMIT
    ensures ReadCells(DensityFile(words, m)) == Ok(Rounded(words, m)) && |DensityFile(words, m)| % BLOCK == 0
  {
    hide ReadCells, FileBytes;
    ReadInvertsWrite(Rounded(words, m), Order(Rounded(words, m)));
  }

  lemma ExactRoundTrip(words: Words, m: seq<DensityCell>)
    requires IsPacked(m) && IsExact(words, m)
    ensures IsCellTable(Rounded(words, m)) && Interpreted(words, Rounded(words, m)) == m
  {
    forall i | 0 <= i < |m| ensures Rounded(words, m)[i] == Cell(m[i].uniq, words.word(m[i].density)) {}
  }

  // The file read and a region given: what is combined.
  lemma JointFileIsMap(pi: real, words: Words, bytes: Bytes, region: Region)
    requires pi > 0.0 && JointFile(pi, words, bytes, Some(region)).Ok?
    ensures ReadCells(bytes).Ok? && IsCellTable(ReadCells(bytes).value) && HaveCentres(ReadCells(bytes).value)
    ensures
      var m := Combined(pi, Interpreted(words, ReadCells(bytes).value), region);
      && m.Ok? && |m.value| < U64_LIMIT
      && JointFile(pi, words, bytes, Some(region)) == Ok(DensityFile(words, m.value))
      && ReadCells(DensityFile(words, m.value)) == Ok(Rounded(words, m.value))
      && |DensityFile(words, m.value)| % BLOCK == 0
  {
    hide ReadCells, DensityFile, Combined, Rounded, Interpreted;
    RowCountFits(bytes);
    CombinedIsNoLonger(pi, Interpreted(words, ReadCells(bytes).value), region);
    DensityFileReads(words, Combined(pi, Interpreted(words, ReadCells(bytes).value), region).value);
  }

  /** Which inputs are refused, and how, for densities that are not negative: by
      what the file, the region and the single rows are. */
  lemma JointFileIsOkIff(pi: real, words: Words, bytes: Bytes, region: Option<Region>)
    requires pi > 0.0
    requires ReadCells(bytes).Ok? ==>
      forall i :: 0 <= i < |ReadCells(bytes).value| ==> words.value(ReadCells(bytes).value[i].density) >= 0.0
    ensures
      var r := JointFile(pi, words, bytes, region);
      match ReadCells(bytes)
      case Err(e) => r == Err(Unreadable(e))
      case Ok(cells) =>
        var deep := exists i :: 0 <= i < |cells| && (cells[i].uniq < 4 || Depth(cells[i].uniq) > 29);
        && (r == Err(BadRegion) <==> region.None?)
        && (r == Err(MalformedRow) <==> region.Some? && deep)
        && (r == Err(JointError.EmptyOverlap) <==>
              region.Some? && !deep && forall i :: 0 <= i < |cells| && region.value(cells[i].uniq) ==>
                words.value(cells[i].density) == 0.0)
        && (r.Ok? <==>
              region.Some? && !deep && exists i :: 0 <= i < |cells| && region.value(cells[i].uniq)
                                                   && words.value(cells[i].density) > 0.0)
  {
    hide ReadCells, DensityFile, Combined, Depth;
    if ReadCells(bytes).Ok? {
      var cells := ReadCells(bytes).value;
      MalformedIff(cells);
      if region.Some? && IsCellTable(cells) && HaveCentres(cells) {
        var m := Interpreted(words, cells);
        assert forall i :: 0 <= i < |cells| ==> m[i] == DensityCell(cells[i].uniq, words.value(cells[i].density));
        CombinedIsOkIff(pi, m, region.value);
        if Combined(pi, m, region.value).Ok? {
          var i: nat :| Contributes(m, region.value, i);
          assert region.value(cells[i].uniq) && words.value(cells[i].density) > 0.0;
        } else {
          assert forall i :: 0 <= i < |cells| && region.value(cells[i].uniq) ==> m[i].density == 0.0;
        }
      }
    }
  }

  lemma MalformedIff(cells: seq<Cell>)
    ensures IsCellTable(cells) && HaveCentres(cells)
      <==> forall i :: 0 <= i < |cells| ==> cells[i].uniq >= 4 && Depth(cells[i].uniq) <= 29
  {
    hide Depth;
    forall i | 0 <= i < |cells| && cells[i].uniq >= 4
      ensures cells[i].uniq < 0x4000_0000_0000_0000 <==> Depth(cells[i].uniq) <= 29
    {
      DepthLimitIff(cells[i].uniq);
    }
  }

  /** What the joint file holds, whatever the rounding: the region's rows in their
      original order; and total mass one when its densities are exact words. */
  lemma JointFileReads(pi: real, words: Words, bytes: Bytes, region: Region)
    requires pi > 0.0 && JointFile(pi, words, bytes, Some(region)).Ok?
    ensures
      var file := JointFile(pi, words, bytes, Some(region)).value;
      && ReadCells(bytes).Ok? && IsCellTable(ReadCells(bytes).value) && ReadCells(file).Ok? && |file| % BLOCK == 0
      && var before, after := Interpreted(words, ReadCells(bytes).value), ReadCells(file).value;
      && |after| == |Kept(before, region)|
      && (forall i :: 0 <= i < |after| ==> after[i].uniq == Kept(before, region)[i].uniq)
      && (IsExact(words, Combined(pi, before, region).value) ==>
            IsCellTable(after) && Mass(pi, Interpreted(words, after)) == 1.0)
  {
    hide ReadCells, DensityFile, JointFile, Mass, Kept, IsExact;
    JointFileIsMap(pi, words, bytes, region);
    var before := Interpreted(words, ReadCells(bytes).value);
    var m := Combined(pi, before, region).value;
    CombinedMassIsOne(pi, before, region);
    if IsExact(words, m) { ExactRoundTrip(words, m); }
  }

  lemma {:induction false} KeptHaveCentres(words: Words, cells: seq<Cell>, region: Region, i: nat)
    requires IsCellTable(cells) && HaveCentres(cells) && i < |Kept(Interpreted(words, cells), region)|
    ensures Kept(Interpreted(words, cells), region)[i].uniq < 0x4000_0000_0000_0000
  {
    var m, last := Interpreted(words, cells), |cells| - 1;
    assert cells != [] && m[..last] == Interpreted(words, cells[..last]);
    if i == |Kept(m[..last], region)| {
    } else {
      KeptHaveCentres(words, cells[..last], region, i);
    }
  }

  // A joint map keeps rows of the map read, so its own rows have centres too.
  lemma CombinedHaveCentres(pi: real, words: Words, cells: seq<Cell>, region: Region)
    requires pi > 0.0 && IsCellTable(cells) && HaveCentres(cells)
    ensures
      var m := Combined(pi, Interpreted(words, cells), region);
      m.Ok? ==> HaveCentres(Rounded(words, m.value))
  {
    hide Mass;
    var before := Interpreted(words, cells);
    if Combined(pi, before, region).Ok? {
      var m := Combined(pi, before, region).value;
      forall i | 0 <= i < |m| ensures Rounded(words, m)[i].uniq < 0x4000_0000_0000_0000 {
        KeptHaveCentres(words, cells, region, i);
      }
    }
  }

  /** Sequential conditioning file by file: as long as no density is negative and
      the first result's densities are exact words, combining its file with a second
      region yields the very bytes, or the very error, of combining once with the
      intersection. */
  lemma FilesCompose(pi: real, words: Words, bytes: Bytes, a: Region, b: Region)
    requires pi > 0.0 && JointFile(pi, words, bytes, Some(a)).Ok?
    requires IsCellTable(ReadCells(bytes).value) && IsMap(Interpreted(words, ReadCells(bytes).value))
    requires IsExact(words, Combined(pi, Interpreted(words, ReadCells(bytes).value), a).value)
    ensures
      var first := JointFile(pi, words, bytes, Some(a)).value;
      JointFile(pi, words, first, Some(b)) == JointFile(pi, words, bytes, Some(Both(a, b)))
  {
    hide ReadCells, DensityFile, IsExact, Combined;
    JointFileIsMap(pi, words, bytes, a);
    var before := Interpreted(words, ReadCells(bytes).value);
    ExactRoundTrip(words, Combined(pi, before, a).value);
    CombinedHaveCentres(pi, words, ReadCells(bytes).value, a);
    ConditioningComposes(pi, before, a, b);
  }

  // Rounding the densities of m changes each by a relative error of at most eps.
  predicate IsClose(words: Words, m: seq<DensityCell>, eps: real) {
    forall i :: 0 <= i < |m| ==> Within(words.value(words.word(m[i].density)), m[i].density, eps)
  }

  lemma CloseRoundTrip(words: Words, m: seq<DensityCell>, eps: real)
    requires IsPacked(m) && IsClose(words, m, eps)
    ensures IsCellTable(Rounded(words, m)) && CloseMaps(Interpreted(words, Rounded(words, m)), m, eps)
  {
    hide Within;
    forall i | 0 <= i < |m| ensures Rounded(words, m)[i] == Cell(m[i].uniq, words.word(m[i].density)) {}
  }

  /** With rounding of relative error eps < 1 in the first file: the second step and
      the single step fail together or keep the same rows, and the densities they
      are about to write are in ratio at most (1 + eps) / (1 - eps). */
  lemma FilesNearlyCompose(pi: real, words: Words, bytes: Bytes, a: Region, b: Region, eps: real)
    requires pi > 0.0 && JointFile(pi, words, bytes, Some(a)).Ok? && 0.0 <= eps < 1.0
    requires IsCellTable(ReadCells(bytes).value) && IsMap(Interpreted(words, ReadCells(bytes).value))
    requires IsClose(words, Combined(pi, Interpreted(words, ReadCells(bytes).value), a).value, eps)
    ensures
      var first := JointFile(pi, words, bytes, Some(a)).value;
      var before := Interpreted(words, ReadCells(bytes).value);
      var twice, once := JointFile(pi, words, first, Some(b)), JointFile(pi, words, bytes, Some(Both(a, b)));
      && ReadCells(first).Ok? && IsCellTable(ReadCells(first).value)
      && (twice.Err? <==> once.Err?) && (twice.Err? ==> twice == once == Err(JointError.EmptyOverlap))
      && (twice.Ok? ==>
            var r := Combined(pi, Interpreted(words, ReadCells(first).value), b);
            var q := Combined(pi, before, Both(a, b));
            r.Ok? && q.Ok? && NearlyEqual(r.value, q.value, eps))
  {
    hide ReadCells, DensityFile, IsClose, Combined, NearlyEqual;
    JointFileIsMap(pi, words, bytes, a);
    var before := Interpreted(words, ReadCells(bytes).value);
    var m := Combined(pi, before, a).value;
    CloseRoundTrip(words, m, eps);
    CombinedHaveCentres(pi, words, ReadCells(bytes).value, a);
    ConditioningComposes(pi, before, a, b);
    CombinedClose(pi, Interpreted(words, Rounded(words, m)), m, eps, b);
  }

  /** The synthetic cone read back from its file: the cone's pixels at the given
      depth whatever the rounding, and total mass one when its density is an exact
      word. */
  lemma SyntheticFileReads(pi: real, words: Words, pixels: seq<nat>, depth: nat)
    requires pi > 0.0 && depth <= 30 && |pixels| < U64_LIMIT
    requires forall i :: 0 <= i < |pixels| ==> pixels[i] < Cells(depth)
    ensures
      var density := ConeDensity(pi, |pixels|, depth);
      var file := FileBytes(UniformCells(ConeUniqs(pixels, depth), words.word(density)), depth);
      && ReadCells(file).Ok? && IsCellTable(ReadCells(file).value) && |ReadCells(file).value| == |pixels|
      && (forall i :: 0 <= i < |pixels| ==> Decode(ReadCells(file).value[i].uniq) == (depth, pixels[i]))
      && (pixels != [] && words.value(words.word(density)) == density ==>
            Mass(pi, Interpreted(words, ReadCells(file).value)) == 1.0)
  {
    hide ReadCells, FileBytes, Mass, Decode, ConeDensity, PackUniq, Cells;
    var density, uniqs := ConeDensity(pi, |pixels|, depth), ConeUniqs(pixels, depth);
    var cells := UniformCells(uniqs, words.word(density));
    SyntheticConeMassIsOne(pi, pixels, depth);
    var m := UniformMap(uniqs, density);
    forall i | 0 <= i < |pixels|
      ensures cells[i] == Cell(m[i].uniq, words.word(density)) && m[i].density == density && cells[i].uniq >= 4
    {}
    ReadInvertsWrite(cells, depth);
    if words.value(words.word(density)) == density { assert Interpreted(words, cells) == m; }
  }
}
