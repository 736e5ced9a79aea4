/** The tile-size probe shared by both scripts: walk the ids in ascending order and
    take the width and height of the first tile whose metadata has both non-zero. */
module Probe {
  import opened Wrappers

  /** What the image library's `metadata()` reports for the tile file of each id, as
      (width, height); an id without an entry is one whose `metadata()` call threw.
      A missing width or height is reported as 0. */
  type TileMeta = map<nat, (nat, nat)>

  /** `meta.width && meta.height`: metadata was read and both sides are non-zero. */
  predicate Usable(meta: TileMeta, id: nat) {
    id in meta && meta[id].0 > 0 && meta[id].1 > 0
  }

  /** The size of the first usable tile of `ids`, if any. */
  function FirstUsable(ids: seq<nat>, meta: TileMeta): Option<(nat, nat)> {
    if |ids| == 0 then None
    else if Usable(meta, ids[0]) then Some(meta[ids[0]])
    else FirstUsable(ids[1..], meta)
  }

  /** The probe finds nothing exactly when no id is usable; otherwise it reports the
      size of the usable id that comes first. */
  lemma {:induction false} FirstUsableSpec(ids: seq<nat>, meta: TileMeta)
    ensures FirstUsable(ids, meta).None? <==> forall k :: 0 <= k < |ids| ==> !Usable(meta, ids[k])
    ensures FirstUsable(ids, meta).Some? ==>
      exists k :: 0 <= k < |ids| && Usable(meta, ids[k]) && meta[ids[k]] == FirstUsable(ids, meta).value &&
        forall j :: 0 <= j < k ==> !Usable(meta, ids[j])
  {
    if |ids| > 0 && !Usable(meta, ids[0]) {
      FirstUsableSpec(ids[1..], meta);
      if FirstUsable(ids, meta).Some? {
        var k :| 0 <= k < |ids[1..]| && Usable(meta, ids[1..][k]) && meta[ids[1..][k]] == FirstUsable(ids, meta).value &&
          forall j :: 0 <= j < k ==> !Usable(meta, ids[1..][j]);
        assert Usable(meta, ids[k + 1]) && forall j :: 0 <= j < k + 1 ==> !Usable(meta, ids[j]);
      }
    } else if |ids| > 0 {
      assert Usable(meta, ids[0]);
    }
  }

  /** A probed size has both sides non-zero, so `!tileW || !tileH` is exactly "nothing found". */
  lemma FirstUsablePositive(ids: seq<nat>, meta: TileMeta)
    ensures FirstUsable(ids, meta).Some? ==> FirstUsable(ids, meta).value.0 > 0 && FirstUsable(ids, meta).value.1 > 0
  {
    FirstUsableSpec(ids, meta);
  }

  /** The probe loop: `tileW`/`tileH` start at 0, and the loop stops at the first id whose
      metadata has a non-zero width and height. */
  method ProbeTileSize(ids: seq<nat>, meta: TileMeta) returns (size: Option<(nat, nat)>)
    ensures size == FirstUsable(ids, meta)
    ensures size.Some? ==> size.value.0 > 0 && size.value.1 > 0
  {
    var tileW, tileH := 0, 0;
    var k := 0;
    while k < |ids|
      invariant 0 <= k <= |ids|
      invariant tileW == 0 && tileH == 0
      invariant FirstUsable(ids[k..], meta) == FirstUsable(ids, meta)
    {
      var id := ids[k];
      if id in meta {
        var (w, h) := meta[id];
        if w > 0 && h > 0 {
          tileW, tileH := w, h;
          break;
        }
      }
      k := k + 1;
    }
    if tileW == 0 || tileH == 0 {
      size := None;
    } else {
      size := Some((tileW, tileH));
    }
  }
}
