/** build-full-map.js: the full-resolution map, the minimap and the `TILE_SIZE` setting.
    The image library is replaced by its outcomes: the tile metadata the probe reads and,
    per minimap tile, whether `resize` succeeded. What is built is the plan handed to
    `composite`: the canvas size and the list of (tile, left, top) entries. */
module MapBuilder {
  import opened Wrappers
  import opened Text
  import opened Grid
  import opened Inventory
  import opened Probe

  /** `TILE_SIZE` when `--tile=` gives no usable number. */
  const DEFAULT_TILE_SIZE: nat := 16

  const TILE_FLAG: string := "--tile="

  /** No argument before index `i` starts with "--tile=". */
  predicate NoTileFlagBefore(args: seq<string>, i: nat)
    requires i <= |args|
  {
    forall j :: 0 <= j < i ==> !StartsWith(args[j], TILE_FLAG)
  }

  /** `process.argv.find(a => a.startsWith('--tile='))`: the first argument that starts
      with "--tile=", if any. */
  function TileArg(args: seq<string>): (a: Option<string>)
    ensures a.Some? ==> StartsWith(a.value, TILE_FLAG) && a.value in args
    ensures a.Some? ==> exists i :: 0 <= i < |args| && args[i] == a.value && NoTileFlagBefore(args, i)
    ensures a.None? <==> forall i :: 0 <= i < |args| ==> !StartsWith(args[i], TILE_FLAG)
  {
    if |args| == 0 then None
    else if StartsWith(args[0], TILE_FLAG) then
      assert NoTileFlagBefore(args, 0);
      Some(args[0])
    else
      var rest := TileArg(args[1..]);
      assert forall i :: 1 <= i < |args| ==> args[i] == args[1..][i - 1];
      assert rest.Some? ==> exists i :: 0 <= i < |args| && args[i] == rest.value && NoTileFlagBefore(args, i) by {
        if rest.Some? {
          var i :| 0 <= i < |args[1..]| && args[1..][i] == rest.value && NoTileFlagBefore(args[1..], i);
          assert args[i + 1] == rest.value;
          assert NoTileFlagBefore(args, i + 1) by {
            forall j | 0 <= j < i + 1 ensures !StartsWith(args[j], TILE_FLAG) {
              if j > 0 {
                assert args[j] == args[1..][j - 1];
              }
            }
          }
        }
      }
      rest
  }

  /** Arguments before the first "--tile=" one do not matter: `find` returns it. */
  lemma {:induction false} TileArgFirst(pre: seq<string>, a: string, post: seq<string>)
    requires forall x :: x in pre ==> !StartsWith(x, TILE_FLAG)
    requires StartsWith(a, TILE_FLAG)
    ensures TileArg(pre + [a] + post) == Some(a)
  {
    if |pre| == 0 {
      assert pre + [a] + post == [a] + post;
    } else {
      assert (pre + [a] + post)[1..] == pre[1..] + [a] + post;
      assert pre[0] in pre;
      TileArgFirst(pre[1..], a, post);
    }
  }

  /** `TILE_SIZE = Number((arg || '').split('=')[1]) || 16`: the number between the first
      and second "=" of the first `--tile=` argument, or 16 when there is no such argument
      (`[1]` is `undefined`), when that text is not a number (NaN) or when it is 0. */
  function TileSize(args: seq<string>): (n: nat)
    ensures n > 0
  {
    match TileArg(args)
    case None => DEFAULT_TILE_SIZE
    case Some(a) =>
      match JsNumber(BeforeFirst(a[|TILE_FLAG|..], '='))
      case Some(v) => if v == 0 then DEFAULT_TILE_SIZE else v
      case None => DEFAULT_TILE_SIZE
  }

  /** Without a `--tile=` argument the minimap uses 16-pixel tiles. */
  lemma TileSizeAbsent(args: seq<string>)
    requires forall i :: 0 <= i < |args| ==> !StartsWith(args[i], TILE_FLAG)
    ensures TileSize(args) == DEFAULT_TILE_SIZE
  {
  }

  /** `--tile=<n>` as the first tile argument gives `n`, except that 0 falls back to 16. */
  lemma TileSizeGiven(n: nat, pre: seq<string>, post: seq<string>)
    requires forall x :: x in pre ==> !StartsWith(x, TILE_FLAG)
    ensures TileSize(pre + [TILE_FLAG + DecimalString(n)] + post) == if n == 0 then DEFAULT_TILE_SIZE else n
  {
    var a := TILE_FLAG + DecimalString(n);
    assert a[..|TILE_FLAG|] == TILE_FLAG;
    assert a[|TILE_FLAG|..] == DecimalString(n);
    TileArgFirst(pre, a, post);
    var digits := DecimalString(n);
    assert '=' !in digits by {
      forall i | 0 <= i < |digits| ensures digits[i] != '=' {
        assert IsDigit(digits[i]);
      }
    }
    BeforeFirstAbsent(digits, '=');
    NumberOfDecimal(n);
  }

  /** `--tile=` with nothing after it gives 16 (`Number("")` is 0). */
  lemma TileSizeEmpty(pre: seq<string>, post: seq<string>)
    requires forall x :: x in pre ==> !StartsWith(x, TILE_FLAG)
    ensures TileSize(pre + [TILE_FLAG] + post) == DEFAULT_TILE_SIZE
  {
    assert TILE_FLAG[..|TILE_FLAG|] == TILE_FLAG;
    assert TILE_FLAG[|TILE_FLAG|..] == "";
    TileArgFirst(pre, TILE_FLAG, post);
  }

  /** `--tile=` followed by text that is not a number gives 16 (NaN). */
  lemma TileSizeNotANumber(text: string, pre: seq<string>, post: seq<string>)
    requires forall x :: x in pre ==> !StartsWith(x, TILE_FLAG)
    requires '=' !in text && exists i :: 0 <= i < |text| && !IsDigit(text[i])
    ensures TileSize(pre + [TILE_FLAG + text] + post) == DEFAULT_TILE_SIZE
  {
    var a := TILE_FLAG + text;
    assert a[..|TILE_FLAG|] == TILE_FLAG;
    assert a[|TILE_FLAG|..] == text;
    TileArgFirst(pre, a, post);
    BeforeFirstAbsent(text, '=');
    var i :| 0 <= i < |text| && !IsDigit(text[i]);
    NumberOfNonDigit(text, i);
  }

  /** A command line as node passes it: the binary and the script come first. */
  lemma TileSizeFromCommandLine(n: nat)
    ensures TileSize(["/usr/bin/node", "/srv/build-full-map.js", TILE_FLAG + DecimalString(n)]) ==
      if n == 0 then DEFAULT_TILE_SIZE else n
  {
    var pre := ["/usr/bin/node", "/srv/build-full-map.js"];
    assert !StartsWith(pre[0], TILE_FLAG) by {
      assert pre[0][2] != TILE_FLAG[2];
    }
    assert !StartsWith(pre[1], TILE_FLAG) by {
      assert pre[1][2] != TILE_FLAG[2];
    }
    TileSizeGiven(n, pre, []);
    assert pre + [TILE_FLAG + DecimalString(n)] + [] == ["/usr/bin/node", "/srv/build-full-map.js", TILE_FLAG + DecimalString(n)];
  }

  /** One entry of the `composites` list: the tile of cell `id` drawn with its top-left
      corner at (`left`, `top`). */
  datatype Composite = Composite(id: nat, left: nat, top: nat)

  /** What is handed to the image library: a `width` x `height` canvas and the entries
      drawn on it, every tile being `tileW` x `tileH`. */
  datatype MapPlan = MapPlan(width: nat, height: nat, tileW: nat, tileH: nat, composites: seq<Composite>)

  /** The entry for cell `id`: `left: col * tileW, top: (row - minRow) * tileH`. */
  function Place(id: nat, tileW: nat, tileH: nat, minRow: nat): Composite
    requires minRow <= Row(id)
  {
    var r := TileRect(id, tileW, tileH, minRow);
    Composite(id, r.left, r.top)
  }

  /** The pixels an entry covers. */
  function Footprint(c: Composite, tileW: nat, tileH: nat): Rect {
    Rect(c.left, c.top, tileW, tileH)
  }

  /** One entry per id, in the order of `ids`. */
  function Placements(ids: seq<nat>, tileW: nat, tileH: nat, minRow: nat): seq<Composite>
    requires forall id :: id in ids ==> minRow <= Row(id)
  {
    seq(|ids|, k requires 0 <= k < |ids| => Place(ids[k], tileW, tileH, minRow))
  }

  lemma PlacementsAppend(ids: seq<nat>, id: nat, tileW: nat, tileH: nat, minRow: nat)
    requires forall x :: x in ids ==> minRow <= Row(x)
    requires minRow <= Row(id)
    ensures forall x :: x in ids + [id] ==> minRow <= Row(x)
    ensures Placements(ids + [id], tileW, tileH, minRow) == Placements(ids, tileW, tileH, minRow) + [Place(id, tileW, tileH, minRow)]
  {
  }

  /** Every entry lies inside the canvas, and entries for different ids share no pixel. */
  lemma PlacementsGeometry(ids: seq<nat>, tileW: nat, tileH: nat, b: Bounds)
    requires b.minRow <= b.maxRow && b.rowCount == b.maxRow - b.minRow + 1
    requires forall id :: id in ids ==> b.minRow <= Row(id) <= b.maxRow
    ensures forall k :: 0 <= k < |ids| ==>
      Within(Footprint(Placements(ids, tileW, tileH, b.minRow)[k], tileW, tileH), COLS * tileW, b.rowCount * tileH)
    ensures forall i, j :: 0 <= i < |ids| && 0 <= j < |ids| && ids[i] != ids[j] ==>
      Disjoint(Footprint(Placements(ids, tileW, tileH, b.minRow)[i], tileW, tileH),
               Footprint(Placements(ids, tileW, tileH, b.minRow)[j], tileW, tileH))
  {
    var p := Placements(ids, tileW, tileH, b.minRow);
    forall k | 0 <= k < |ids|
      ensures Within(Footprint(p[k], tileW, tileH), COLS * tileW, b.rowCount * tileH)
    {
      assert ids[k] in ids;
      TileRectWithin(ids[k], tileW, tileH, b.minRow, b.maxRow);
    }
    forall i, j | 0 <= i < |ids| && 0 <= j < |ids| && ids[i] != ids[j]
      ensures Disjoint(Footprint(p[i], tileW, tileH), Footprint(p[j], tileW, tileH))
    {
      assert ids[i] in ids && ids[j] in ids;
      TileRectsDisjoint(ids[i], ids[j], tileW, tileH, b.minRow);
    }
  }

  // ---------------------------------------------------------------- full map

  /** `buildFullMap(files)`: nothing when no file, no id or no usable tile size is found;
      otherwise a `COLS * tileW` x `rowCount * tileH` canvas with one entry per id. */
  function FullMapPlan(files: seq<string>, meta: TileMeta): Option<MapPlan> {
    if |files| == 0 then None else FullMapOf(Ids(files), meta)
  }

  /** The full map of the ascending id list `ids`. */
  function FullMapOf(ids: seq<nat>, meta: TileMeta): Option<MapPlan> {
    if |ids| == 0 then None
    else
      match FirstUsable(ids, meta)
      case None => None
      case Some((tileW, tileH)) =>
        var b := RowBounds(ids);
        Some(MapPlan(COLS * tileW, b.rowCount * tileH, tileW, tileH, Placements(ids, tileW, tileH, b.minRow)))
  }

  /** `buildFullMap(files)`, the executable form of `FullMapPlan`: return early when there is no
      file, otherwise run the loops of `FullMapFromIds` on the ascending ids of `files`. */
  method BuildFullMap(files: seq<string>, meta: TileMeta) returns (plan: Option<MapPlan>)
    ensures plan == FullMapPlan(files, meta)
  {
    if |files| == 0 {
      return None;
    }
    var ids := Ids(files);
    plan := FullMapFromIds(ids, meta);
  }

  /** The rest of `buildFullMap`: return early when there is no id, run the probe loop,
      and push one entry per id (the `try` around the push cannot fail, so no id is
      skipped). */
  method FullMapFromIds(ids: seq<nat>, meta: TileMeta) returns (plan: Option<MapPlan>)
    ensures plan == FullMapOf(ids, meta)
  {
    if |ids| == 0 {
      return None;
    }
    var size := ProbeTileSize(ids, meta);
    if size.None? {
      return None;
    }
    var (tileW, tileH) := size.value;
    var b := RowBounds(ids);
    var composites: seq<Composite> := [];
    for k := 0 to |ids|
      invariant forall x :: x in ids[..k] ==> x in ids
      invariant composites == Placements(ids[..k], tileW, tileH, b.minRow)
    {
      var id := ids[k];
      assert id in ids;
      assert ids[..k + 1] == ids[..k] + [id];
      PlacementsAppend(ids[..k], id, tileW, tileH, b.minRow);
      composites := composites + [Composite(id, Col(id) * tileW, (Row(id) - b.minRow) * tileH)];
    }
    assert ids[..|ids|] == ids;
    plan := Some(MapPlan(COLS * tileW, b.rowCount * tileH, tileW, tileH, composites));
  }

  /** The full map of an id list is built exactly when the list is non-empty and some tile
      has a usable size; its tile size is the probed one, and it holds one entry per id,
      in the order of the ids, every entry inside the canvas and entries of different ids
      without a shared pixel. */
  lemma FullMapOfShape(ids: seq<nat>, meta: TileMeta)
    ensures FullMapOf(ids, meta).None? <==> ids == [] || FirstUsable(ids, meta).None?
    ensures FullMapOf(ids, meta).Some? ==>
      var p := FullMapOf(ids, meta).value;
      && ids != []
      && FirstUsable(ids, meta) == Some((p.tileW, p.tileH))
      && p.tileW > 0 && p.tileH > 0
      && p.width == COLS * p.tileW
      && p.height == RowBounds(ids).rowCount * p.tileH
      && |p.composites| == |ids|
      && (forall k :: 0 <= k < |ids| ==> p.composites[k].id == ids[k])
      && (forall k :: 0 <= k < |ids| ==>
            Within(Footprint(p.composites[k], p.tileW, p.tileH), p.width, p.height))
      && (forall i, j :: 0 <= i < |ids| && 0 <= j < |ids| && ids[i] != ids[j] ==>
            Disjoint(Footprint(p.composites[i], p.tileW, p.tileH), Footprint(p.composites[j], p.tileW, p.tileH)))
  {
    FirstUsablePositive(ids, meta);
    if FullMapOf(ids, meta).Some? {
      var p := FullMapOf(ids, meta).value;
      PlacementsGeometry(ids, p.tileW, p.tileH, RowBounds(ids));
    }
  }

  /** `buildFullMap(files)` builds exactly when some file name parses and some tile has a
      usable size. The plan has the probed tile size, a `COLS * tileW` x `rowCount * tileH`
      canvas, one entry per id in ascending id order, all inside the canvas, and no two
      ids sharing a pixel. */
  lemma FullMapShape(files: seq<string>, meta: TileMeta)
    ensures FullMapPlan(files, meta).None? <==> Ids(files) == [] || FirstUsable(Ids(files), meta).None?
    ensures FullMapPlan(files, meta).Some? ==>
      var p := FullMapPlan(files, meta).value;
      && FirstUsable(Ids(files), meta) == Some((p.tileW, p.tileH))
      && p.width == COLS * p.tileW
      && p.height == RowBounds(Ids(files)).rowCount * p.tileH
      && |p.composites| == |Ids(files)|
      && (forall k :: 0 <= k < |p.composites| ==> p.composites[k].id == Ids(files)[k])
      && (forall i, j :: 0 <= i < j < |p.composites| ==> p.composites[i].id <= p.composites[j].id)
      && (forall k :: 0 <= k < |p.composites| ==>
            Within(Footprint(p.composites[k], p.tileW, p.tileH), p.width, p.height))
      && (forall i, j ::
            0 <= i < |p.composites| && 0 <= j < |p.composites| && p.composites[i].id != p.composites[j].id ==>
            Disjoint(Footprint(p.composites[i], p.tileW, p.tileH), Footprint(p.composites[j], p.tileW, p.tileH)))
  {
    var ids := Ids(files);
    FullMapOfShape(ids, meta);
  }

  // ---------------------------------------------------------------- minimap

  /** How many outcomes succeeded. */
  function CountTrue(ok: seq<bool>): (n: nat)
    ensures n <= |ok|
  {
    if |ok| == 0 then 0 else CountTrue(ok[..|ok| - 1]) + (if ok[|ok| - 1] then 1 else 0)
  }

  /** The ids whose outcome succeeded, in their original order. */
  function Kept(ids: seq<nat>, ok: seq<bool>): (r: seq<nat>)
    requires |ok| == |ids|
    ensures |r| == CountTrue(ok)
    ensures forall x :: x in r ==> x in ids
  {
    if |ids| == 0 then []
    else
      var n := |ids| - 1;
      assert forall x :: x in ids[..n] ==> x in ids;
      Kept(ids[..n], ok[..n]) + (if ok[n] then [ids[n]] else [])
  }

  lemma KeptStep(ids: seq<nat>, ok: seq<bool>, k: nat)
    requires |ok| == |ids| && k < |ids|
    ensures Kept(ids[..k + 1], ok[..k + 1]) == Kept(ids[..k], ok[..k]) + (if ok[k] then [ids[k]] else [])
    ensures forall x :: x in Kept(ids[..k + 1], ok[..k + 1]) ==> x in ids
  {
    assert ids[..k + 1][..k] == ids[..k] && ok[..k + 1][..k] == ok[..k];
    assert forall x :: x in ids[..k + 1] ==> x in ids;
  }

  /** An id at a succeeded position is kept, and every kept id sits at a succeeded position. */
  lemma {:induction false} KeptExactly(ids: seq<nat>, ok: seq<bool>)
    requires |ok| == |ids|
    ensures forall k :: 0 <= k < |ids| && ok[k] ==> ids[k] in Kept(ids, ok)
    ensures forall x :: x in Kept(ids, ok) ==> exists k :: 0 <= k < |ids| && ok[k] && ids[k] == x
  {
    if |ids| > 0 {
      var n := |ids| - 1;
      KeptExactly(ids[..n], ok[..n]);
      forall x | x in Kept(ids, ok) ensures exists k :: 0 <= k < |ids| && ok[k] && ids[k] == x {
        if x in Kept(ids[..n], ok[..n]) {
          var k :| 0 <= k < n && ok[..n][k] && ids[..n][k] == x;
          assert ok[k] && ids[k] == x;
        } else {
          assert ok[n] && ids[n] == x;
        }
      }
      forall k | 0 <= k < |ids| && ok[k] ensures ids[k] in Kept(ids, ok) {
        if k < n {
          assert ok[..n][k] && ids[..n][k] == ids[k];
        }
      }
    }
  }

  /** Keeping a subsequence of ascending ids leaves them ascending. */
  lemma {:induction false} KeptSorted(ids: seq<nat>, ok: seq<bool>)
    requires |ok| == |ids| && Sorted(ids)
    ensures Sorted(Kept(ids, ok))
  {
    if |ids| > 0 {
      var n := |ids| - 1;
      KeptSorted(ids[..n], ok[..n]);
      var front := Kept(ids[..n], ok[..n]);
      forall i | 0 <= i < |front| ensures front[i] <= ids[n] {
        assert front[i] in ids[..n];
      }
    }
  }

  /** `buildMiniMap(files)` with `TILE_SIZE = tileSize`: nothing when no file or no id is
      found; otherwise a `COLS * tileSize` x `rowCount * tileSize` canvas with an entry for
      each id whose resize succeeded. */
  function MiniMapPlan(files: seq<string>, tileSize: nat, resizeOk: seq<bool>): Option<MapPlan>
    requires |resizeOk| == |Ids(files)|
  {
    if |files| == 0 then None else MiniMapOf(Ids(files), tileSize, resizeOk)
  }

  /** The minimap of the ascending id list `ids`. */
  function MiniMapOf(ids: seq<nat>, tileSize: nat, resizeOk: seq<bool>): Option<MapPlan>
    requires |resizeOk| == |ids|
  {
    if |ids| == 0 then None
    else
      var b := RowBounds(ids);
      Some(MapPlan(COLS * tileSize, b.rowCount * tileSize, tileSize, tileSize,
                   Placements(Kept(ids, resizeOk), tileSize, tileSize, b.minRow)))
  }

  /** `buildMiniMap(files)`, the executable form of `MiniMapPlan`: return early when there is no
      file, otherwise run the loops of `MiniMapFromIds` on the ascending ids of `files`. */
  method BuildMiniMap(files: seq<string>, tileSize: nat, resizeOk: seq<bool>) returns (plan: Option<MapPlan>)
    requires |resizeOk| == |Ids(files)|
    ensures plan == MiniMapPlan(files, tileSize, resizeOk)
  {
    if |files| == 0 {
      return None;
    }
    var ids := Ids(files);
    plan := MiniMapFromIds(ids, tileSize, resizeOk);
  }

  /** The rest of `buildMiniMap`: return early when there is no id, then the loop in which
      `resizeOk[k]` says whether resizing the k-th id's tile succeeded; a failure skips
      that id and the loop goes on. */
  method MiniMapFromIds(ids: seq<nat>, tileSize: nat, resizeOk: seq<bool>) returns (plan: Option<MapPlan>)
    requires |resizeOk| == |ids|
    ensures plan == MiniMapOf(ids, tileSize, resizeOk)
  {
    if |ids| == 0 {
      return None;
    }
    var b := RowBounds(ids);
    var width: nat, height: nat := COLS * tileSize, b.rowCount * tileSize;
    var composites: seq<Composite> := [];
    ghost var kept: seq<nat> := [];
    for k := 0 to |ids|
      invariant kept == Kept(ids[..k], resizeOk[..k])
      invariant forall x :: x in kept ==> b.minRow <= Row(x)
      invariant composites == Placements(kept, tileSize, tileSize, b.minRow)
    {
      KeptStep(ids, resizeOk, k);
      var id := ids[k];
      assert id in ids;
      if resizeOk[k] {
        var c := Place(id, tileSize, tileSize, b.minRow);
        PlacementsAppend(kept, id, tileSize, tileSize, b.minRow);
        composites := composites + [c];
        kept := kept + [id];
      }
    }
    assert ids[..|ids|] == ids && resizeOk[..|ids|] == resizeOk;
    plan := Some(MapPlan(width, height, tileSize, tileSize, composites));
  }

  /** The minimap of an id list is built exactly when the list is non-empty; it holds one
      entry per succeeded resize and none for a failed one. */
  lemma MiniMapOfEntries(ids: seq<nat>, tileSize: nat, resizeOk: seq<bool>)
    requires |resizeOk| == |ids|
    ensures MiniMapOf(ids, tileSize, resizeOk).None? <==> ids == []
    ensures MiniMapOf(ids, tileSize, resizeOk).Some? ==>
      var p := MiniMapOf(ids, tileSize, resizeOk).value;
      && p.width == COLS * tileSize
      && p.height == RowBounds(ids).rowCount * tileSize
      && |p.composites| == CountTrue(resizeOk)
      && (forall k :: 0 <= k < |ids| && resizeOk[k] ==>
            Place(ids[k], tileSize, tileSize, RowBounds(ids).minRow) in p.composites)
      && (forall c :: c in p.composites ==>
            exists k :: 0 <= k < |ids| && resizeOk[k] && c == Place(ids[k], tileSize, tileSize, RowBounds(ids).minRow))
  {
    if ids != [] {
      var b := RowBounds(ids);
      var kept := Kept(ids, resizeOk);
      var p := MiniMapOf(ids, tileSize, resizeOk).value;
      assert p.composites == Placements(kept, tileSize, tileSize, b.minRow);
      KeptExactly(ids, resizeOk);
      forall k | 0 <= k < |ids| && resizeOk[k]
        ensures Place(ids[k], tileSize, tileSize, b.minRow) in p.composites
      {
        var i :| 0 <= i < |kept| && kept[i] == ids[k];
        assert p.composites[i] == Place(ids[k], tileSize, tileSize, b.minRow);
      }
      forall c | c in p.composites
        ensures exists k :: 0 <= k < |ids| && resizeOk[k] && c == Place(ids[k], tileSize, tileSize, b.minRow)
      {
        var i :| 0 <= i < |p.composites| && p.composites[i] == c;
        assert kept[i] in kept;
        var k :| 0 <= k < |ids| && resizeOk[k] && ids[k] == kept[i];
      }
    }
  }

  /** Minimap entries keep the ascending order of the ids, lie inside the canvas, and do not
      overlap when their ids differ. */
  lemma MiniMapOfGeometry(ids: seq<nat>, tileSize: nat, resizeOk: seq<bool>)
    requires |resizeOk| == |ids| && ids != []
    ensures
      var p := MiniMapOf(ids, tileSize, resizeOk).value;
      && (Sorted(ids) ==> forall i, j :: 0 <= i < j < |p.composites| ==> p.composites[i].id <= p.composites[j].id)
      && (forall k :: 0 <= k < |p.composites| ==>
            Within(Footprint(p.composites[k], tileSize, tileSize), p.width, p.height))
      && (forall i, j ::
            0 <= i < |p.composites| && 0 <= j < |p.composites| && p.composites[i].id != p.composites[j].id ==>
            Disjoint(Footprint(p.composites[i], tileSize, tileSize), Footprint(p.composites[j], tileSize, tileSize)))
  {
    var b := RowBounds(ids);
    var kept := Kept(ids, resizeOk);
    var p := MiniMapOf(ids, tileSize, resizeOk).value;
    assert p.composites == Placements(kept, tileSize, tileSize, b.minRow);
    if Sorted(ids) {
      KeptSorted(ids, resizeOk);
    }
    PlacementsGeometry(kept, tileSize, tileSize, b);
  }

  /** `buildMiniMap(files)` builds exactly when some file name parses. The plan has a
      `COLS * tileSize` x `rowCount * tileSize` canvas and, in ascending id order, the entry
      of every id whose resize succeeded and nothing else; entries lie inside the canvas
      and entries of different ids share no pixel. */
  lemma MiniMapShape(files: seq<string>, tileSize: nat, resizeOk: seq<bool>)
    requires |resizeOk| == |Ids(files)|
    ensures MiniMapPlan(files, tileSize, resizeOk).None? <==> Ids(files) == []
    ensures MiniMapPlan(files, tileSize, resizeOk).Some? ==>
      var p := MiniMapPlan(files, tileSize, resizeOk).value;
      var ids := Ids(files);
      && p.width == COLS * tileSize
      && p.height == RowBounds(ids).rowCount * tileSize
      && |p.composites| == CountTrue(resizeOk)
      && (forall k :: 0 <= k < |ids| && resizeOk[k] ==>
            Place(ids[k], tileSize, tileSize, RowBounds(ids).minRow) in p.composites)
      && (forall c :: c in p.composites ==>
            exists k :: 0 <= k < |ids| && resizeOk[k] && c == Place(ids[k], tileSize, tileSize, RowBounds(ids).minRow))
    ensures MiniMapPlan(files, tileSize, resizeOk).Some? ==>
      var p := MiniMapPlan(files, tileSize, resizeOk).value;
      && (forall i, j :: 0 <= i < j < |p.composites| ==> p.composites[i].id <= p.composites[j].id)
      && (forall k :: 0 <= k < |p.composites| ==>
            Within(Footprint(p.composites[k], tileSize, tileSize), p.width, p.height))
      && (forall i, j ::
            0 <= i < |p.composites| && 0 <= j < |p.composites| && p.composites[i].id != p.composites[j].id ==>
            Disjoint(Footprint(p.composites[i], tileSize, tileSize), Footprint(p.composites[j], tileSize, tileSize)))
  {
    MiniMapOfEntries(Ids(files), tileSize, resizeOk);
    if Ids(files) != [] {
      MiniMapOfGeometry(Ids(files), tileSize, resizeOk);
    }
  }

  // ---------------------------------------------------------------- main

  /** The only way `main` stops before building: no source file passes the filter. */
  datatype BuildError = NoSourceFiles

  /** The two artefacts `main` asks for; `None` where the builder returned early. */
  datatype BuildOutputs = BuildOutputs(fullMap: Option<MapPlan>, miniMap: Option<MapPlan>)

  /** `main`: list the source files, exit when there are none, then build the full map
      and the minimap, the latter whether or not the full map was planned. A failed write of
      the full map, after which `main` exits before the minimap, is not modelled. `args` is the command line, `meta` the
      source tiles' metadata and `resizeOk` the per-id resize outcomes of the minimap. */
  method GenerateMaps(entries: seq<string>, args: seq<string>, meta: TileMeta, resizeOk: seq<bool>)
    returns (r: Result<BuildOutputs, BuildError>)
    requires |resizeOk| == |Ids(ListSourceFiles(entries))|
    ensures r.Failure? <==> forall f :: f in entries ==> !IsCandidate(f)
    ensures r.Success? ==>
      && r.value.fullMap == FullMapPlan(ListSourceFiles(entries), meta)
      && r.value.miniMap == MiniMapPlan(ListSourceFiles(entries), TileSize(args), resizeOk)
      && (r.value.miniMap.Some? <==> Ids(ListSourceFiles(entries)) != [])
  {
    var files := ListSourceFiles(entries);
    if |files| == 0 {
      assert forall f :: f in entries ==> !IsCandidate(f) by {
        assert forall f :: f !in files;
      }
      return Failure(NoSourceFiles);
    }
    assert files[0] in files;
    var full := BuildFullMap(files, meta);
    var mini := BuildMiniMap(files, TileSize(args), resizeOk);
    MiniMapShape(files, TileSize(args), resizeOk);
    r := Success(BuildOutputs(full, mini));
  }
}
