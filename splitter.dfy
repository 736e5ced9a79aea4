/** split-to-tiles.js: cut a large image back into the tiles of the source inventory.
    The image library is replaced by its outcomes: the source tiles' metadata, the input
    image's size, and per id whether extracting and writing its tile succeeded. */
module Splitter {
  import opened Wrappers
  import opened Text
  import opened Grid
  import opened Inventory
  import opened Probe
  import opened MapBuilder

  /** The ways `main` stops with `process.exit(1)` before writing any tile. */
  datatype SplitError =
    | InputNotFound        // `fs.access` on the input image failed
    | NoSourceFiles        // no directory entry passes the filter
    | TileSizeUndetected   // the probe found no tile with a non-zero size
    | InputUnreadable      // `metadata()` of the input image threw
    | SizeMismatch(expectedWidth: nat, expectedHeight: nat, actualWidth: nat, actualHeight: nat)

  /** One pass of the split loop: the rectangle extracted for `id`, the file it is
      written to, and whether extracting and writing succeeded. */
  datatype Extraction = Extraction(id: nat, rect: Rect, outFile: string, ok: bool)

  /** A completed run: the tile size and row count of the grid, one extraction per id,
      and the final `written` counter. */
  datatype SplitReport = SplitReport(tileW: nat, tileH: nat, rowCount: nat, extractions: seq<Extraction>, written: nat)

  /** The extraction for each id, in the order of `ids`. */
  function Extractions(ids: seq<nat>, ok: seq<bool>, tileW: nat, tileH: nat, minRow: nat): seq<Extraction>
    requires |ok| == |ids|
    requires forall id :: id in ids ==> minRow <= Row(id)
  {
    seq(|ids|, k requires 0 <= k < |ids| =>
      Extraction(ids[k], TileRect(ids[k], tileW, tileH, minRow), TileFileName(ids[k]), ok[k]))
  }

  lemma ExtractionsAppend(ids: seq<nat>, ok: seq<bool>, id: nat, b: bool, tileW: nat, tileH: nat, minRow: nat)
    requires |ok| == |ids|
    requires forall x :: x in ids ==> minRow <= Row(x)
    requires minRow <= Row(id)
    ensures forall x :: x in ids + [id] ==> minRow <= Row(x)
    ensures Extractions(ids + [id], ok + [b], tileW, tileH, minRow) ==
      Extractions(ids, ok, tileW, tileH, minRow) + [Extraction(id, TileRect(id, tileW, tileH, minRow), TileFileName(id), b)]
  {
  }

  /** `main` of split-to-tiles.js. `inputExists` is the outcome of `fs.access`, `entries`
      the source directory listing, `meta` the source tiles' metadata, `inputSize` the
      input image's (width, height) (`None` when its `metadata()` throws) and `writeOk[k]`
      whether the k-th id's tile was extracted and written. */
  function SplitPlan(inputExists: bool, entries: seq<string>, meta: TileMeta,
                     inputSize: Option<(nat, nat)>, writeOk: seq<bool>): Result<SplitReport, SplitError>
    requires |writeOk| == |Ids(ListSourceFiles(entries))|
  {
    if !inputExists then Failure(InputNotFound)
    else if |ListSourceFiles(entries)| == 0 then Failure(SplitError.NoSourceFiles)
    else SplitOf(Ids(ListSourceFiles(entries)), meta, inputSize, writeOk)
  }

  /** The part of `main` after the ids are known: probe, size validation, split loop. */
  function SplitOf(ids: seq<nat>, meta: TileMeta, inputSize: Option<(nat, nat)>, writeOk: seq<bool>): Result<SplitReport, SplitError>
    requires |writeOk| == |ids|
  {
    match FirstUsable(ids, meta)
    case None => Failure(TileSizeUndetected)
    case Some((tileW, tileH)) =>
      var b := RowBounds(ids);
      var expectedWidth, expectedHeight := COLS * tileW, b.rowCount * tileH;
      match inputSize
      case None => Failure(InputUnreadable)
      case Some((width, height)) =>
        if width != expectedWidth || height != expectedHeight then
          Failure(SizeMismatch(expectedWidth, expectedHeight, width, height))
        else
          Success(SplitReport(tileW, tileH, b.rowCount, Extractions(ids, writeOk, tileW, tileH, b.minRow), CountTrue(writeOk)))
  }

  /** `main`, the executable form of `SplitPlan`: the input check, the source listing,
      then the loops of `SplitFromIds` on the ascending ids. */
  method SplitToTiles(inputExists: bool, entries: seq<string>, meta: TileMeta,
                      inputSize: Option<(nat, nat)>, writeOk: seq<bool>) returns (r: Result<SplitReport, SplitError>)
    requires |writeOk| == |Ids(ListSourceFiles(entries))|
    ensures r == SplitPlan(inputExists, entries, meta, inputSize, writeOk)
  {
    if !inputExists {
      return Failure(InputNotFound);
    }
    var files := ListSourceFiles(entries);
    if |files| == 0 {
      return Failure(SplitError.NoSourceFiles);
    }
    var ids := Ids(files);
    r := SplitFromIds(ids, meta, inputSize, writeOk);
  }

  /** The probe loop, the exact size check, and the split loop in which a failed write is
      reported and skipped while `written` counts the successes. */
  method SplitFromIds(ids: seq<nat>, meta: TileMeta, inputSize: Option<(nat, nat)>, writeOk: seq<bool>)
    returns (r: Result<SplitReport, SplitError>)
    requires |writeOk| == |ids|
    ensures r == SplitOf(ids, meta, inputSize, writeOk)
  {
    var size := ProbeTileSize(ids, meta);
    if size.None? {
      return Failure(TileSizeUndetected);
    }
    var (tileW, tileH) := size.value;
    var b := RowBounds(ids);
    var expectedWidth: nat, expectedHeight: nat := COLS * tileW, b.rowCount * tileH;
    if inputSize.None? {
      return Failure(InputUnreadable);
    }
    var (width, height) := inputSize.value;
    if width != expectedWidth || height != expectedHeight {
      return Failure(SizeMismatch(expectedWidth, expectedHeight, width, height));
    }
    var written := 0;
    var extractions: seq<Extraction> := [];
    for k := 0 to |ids|
      invariant forall x :: x in ids[..k] ==> x in ids
      invariant written == CountTrue(writeOk[..k])
      invariant extractions == Extractions(ids[..k], writeOk[..k], tileW, tileH, b.minRow)
    {
      var id := ids[k];
      assert id in ids;
      assert ids[..k + 1] == ids[..k] + [id] && writeOk[..k + 1] == writeOk[..k] + [writeOk[k]];
      ExtractionsAppend(ids[..k], writeOk[..k], id, writeOk[k], tileW, tileH, b.minRow);
      var rect := TileRect(id, tileW, tileH, b.minRow);
      extractions := extractions + [Extraction(id, rect, TileFileName(id), writeOk[k])];
      if writeOk[k] {
        written := written + 1;
      }
    }
    assert ids[..|ids|] == ids && writeOk[..|ids|] == writeOk;
    r := Success(SplitReport(tileW, tileH, b.rowCount, extractions, written));
  }

  /** The run gets past validation exactly when some tile has a usable size and the input
      is exactly `COLS * tileW` by `rowCount * tileH`; with any other size it stops with
      the expected and actual sizes, and no extraction happens. */
  lemma SplitOfOutcome(ids: seq<nat>, meta: TileMeta, inputSize: Option<(nat, nat)>, writeOk: seq<bool>)
    requires |writeOk| == |ids|
    ensures SplitOf(ids, meta, inputSize, writeOk) == Failure(TileSizeUndetected) <==> FirstUsable(ids, meta).None?
    ensures SplitOf(ids, meta, inputSize, writeOk).Success? <==>
      FirstUsable(ids, meta).Some? &&
      inputSize == Some((COLS * FirstUsable(ids, meta).value.0, RowBounds(ids).rowCount * FirstUsable(ids, meta).value.1))
    ensures SplitOf(ids, meta, inputSize, writeOk).Failure? && SplitOf(ids, meta, inputSize, writeOk).error.SizeMismatch? ==>
      var e := SplitOf(ids, meta, inputSize, writeOk).error;
      && FirstUsable(ids, meta).Some?
      && e.expectedWidth == COLS * FirstUsable(ids, meta).value.0
      && e.expectedHeight == RowBounds(ids).rowCount * FirstUsable(ids, meta).value.1
      && inputSize == Some((e.actualWidth, e.actualHeight))
      && (e.actualWidth, e.actualHeight) != (e.expectedWidth, e.expectedHeight)
  {
  }

  /** After validation, every extracted rectangle lies inside the input image, rectangles
      of different ids share no pixel, each tile goes to `${id}_l11sd2.jpg`, which the
      scan reads back as the same id, and `written` counts the successful writes. */
  lemma SplitOfExtractions(ids: seq<nat>, meta: TileMeta, inputSize: Option<(nat, nat)>, writeOk: seq<bool>)
    requires |writeOk| == |ids|
    requires SplitOf(ids, meta, inputSize, writeOk).Success?
    ensures var rep := SplitOf(ids, meta, inputSize, writeOk).value;
      && inputSize.Some?
      && |rep.extractions| == |ids|
      && rep.written == CountTrue(writeOk) <= |ids|
      && (forall k :: 0 <= k < |ids| ==>
            && rep.extractions[k].id == ids[k]
            && rep.extractions[k].ok == writeOk[k]
            && rep.extractions[k].rect.width == rep.tileW > 0
            && rep.extractions[k].rect.height == rep.tileH > 0
            && Within(rep.extractions[k].rect, inputSize.value.0, inputSize.value.1)
            && rep.extractions[k].outFile == TileFileName(ids[k]))
      && (forall i, j :: 0 <= i < |ids| && 0 <= j < |ids| && ids[i] != ids[j] ==>
            Disjoint(rep.extractions[i].rect, rep.extractions[j].rect))
  {
    var rep := SplitOf(ids, meta, inputSize, writeOk).value;
    var b := RowBounds(ids);
    FirstUsablePositive(ids, meta);
    forall k | 0 <= k < |ids|
      ensures Within(rep.extractions[k].rect, inputSize.value.0, inputSize.value.1)
    {
      assert ids[k] in ids;
      TileRectWithin(ids[k], rep.tileW, rep.tileH, b.minRow, b.maxRow);
    }
    forall i, j | 0 <= i < |ids| && 0 <= j < |ids| && ids[i] != ids[j]
      ensures Disjoint(rep.extractions[i].rect, rep.extractions[j].rect)
    {
      assert ids[i] in ids && ids[j] in ids;
      TileRectsDisjoint(ids[i], ids[j], rep.tileW, rep.tileH, b.minRow);
    }
  }

  /** Every tile the split writes is named so that the inventory scan accepts it and reads
      back the id it was cut for. */
  lemma SplitOutputRescans(ids: seq<nat>, meta: TileMeta, inputSize: Option<(nat, nat)>, writeOk: seq<bool>)
    requires |writeOk| == |ids|
    requires SplitOf(ids, meta, inputSize, writeOk).Success?
    ensures var rep := SplitOf(ids, meta, inputSize, writeOk).value;
      forall e :: e in rep.extractions ==> IsCandidate(e.outFile) && ParseIdFromName(e.outFile) == Some(e.id)
  {
    var rep := SplitOf(ids, meta, inputSize, writeOk).value;
    forall e | e in rep.extractions
      ensures IsCandidate(e.outFile) && ParseIdFromName(e.outFile) == Some(e.id)
    {
      TileFileNameScans(e.id);
    }
  }

  /** For the same source tiles, the split cuts each id out of exactly the rectangle the
      full map draws it at, and it accepts an input image exactly when its size is that of
      the full map's canvas. */
  lemma SplitMatchesFullMap(ids: seq<nat>, meta: TileMeta, width: nat, height: nat, writeOk: seq<bool>)
    requires |writeOk| == |ids|
    ensures SplitOf(ids, meta, Some((width, height)), writeOk).Success? <==>
      FullMapOf(ids, meta).Some? && FullMapOf(ids, meta).value.width == width && FullMapOf(ids, meta).value.height == height
    ensures SplitOf(ids, meta, Some((width, height)), writeOk).Success? ==>
      var rep := SplitOf(ids, meta, Some((width, height)), writeOk).value;
      var plan := FullMapOf(ids, meta).value;
      && rep.tileW == plan.tileW && rep.tileH == plan.tileH
      && |rep.extractions| == |plan.composites|
      && forall k :: 0 <= k < |rep.extractions| ==>
           rep.extractions[k].id == plan.composites[k].id &&
           rep.extractions[k].rect == Footprint(plan.composites[k], plan.tileW, plan.tileH)
  {
  }

  /** `main` of split-to-tiles.js as a whole: which check stops it, and that a full map
      built from the same source directory passes the size check while an image of any
      other size is refused with both sizes reported. */
  lemma SplitPlanOutcome(inputExists: bool, entries: seq<string>, meta: TileMeta,
                         inputSize: Option<(nat, nat)>, writeOk: seq<bool>)
    requires |writeOk| == |Ids(ListSourceFiles(entries))|
    ensures SplitPlan(inputExists, entries, meta, inputSize, writeOk) == Failure(InputNotFound) <==> !inputExists
    ensures SplitPlan(inputExists, entries, meta, inputSize, writeOk) == Failure(SplitError.NoSourceFiles) <==>
      inputExists && forall f :: f in entries ==> !IsCandidate(f)
    ensures inputExists && inputSize.Some? ==>
      (SplitPlan(inputExists, entries, meta, inputSize, writeOk).Success? <==>
        FullMapPlan(ListSourceFiles(entries), meta).Some? &&
        inputSize.value == (FullMapPlan(ListSourceFiles(entries), meta).value.width,
                            FullMapPlan(ListSourceFiles(entries), meta).value.height))
  {
    var files := ListSourceFiles(entries);
    if |files| == 0 {
      assert forall f :: f !in files;
    } else {
      assert files[0] in files;
    }
    if inputExists && inputSize.Some? && |files| > 0 {
      SplitMatchesFullMap(Ids(files), meta, inputSize.value.0, inputSize.value.1, writeOk);
    }
  }
}
