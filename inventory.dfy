/** The tile inventory both scripts compute: which directory entries are tiles, the
    cell id each one names, the ids in ascending order and the rows they span. */
module Inventory {
  import opened Wrappers
  import opened Text
  import opened Grid

  /** The variant tag every tile name carries (`SUFFIX`). */
  const SUFFIX: string := "l11sd2"

  /** The extension every tile name ends with. */
  const EXT: string := ".jpg"

  /** The filter of `listSourceFiles`: the name ends in ".jpg" and contains "_l11sd2". */
  predicate IsCandidate(f: string) {
    EndsWith(f, EXT) && Contains(f, "_" + SUFFIX)
  }

  /** `listSourceFiles`: the directory entries that pass the filter, in listing order. */
  function ListSourceFiles(entries: seq<string>): (files: seq<string>)
    ensures |files| <= |entries|
    ensures forall f :: f in files <==> f in entries && IsCandidate(f)
  {
    if |entries| == 0 then []
    else
      assert entries == [entries[0]] + entries[1..];
      (if IsCandidate(entries[0]) then [entries[0]] else []) + ListSourceFiles(entries[1..])
  }

  /** `parseIdFromName`: `Number` of the text before the first "_"; `None` is the `null`
      the source returns when that number is not finite. */
  function ParseIdFromName(name: string): Option<nat> {
    JsNumber(BeforeFirst(name, '_'))
  }

  /** The non-null ids of `files`, in file order (the `map` and `filter` steps). */
  function ParsedIds(files: seq<string>): (ids: seq<nat>)
    ensures |ids| <= |files|
  {
    if |files| == 0 then []
    else
      match ParseIdFromName(files[0])
      case Some(id) => [id] + ParsedIds(files[1..])
      case None => ParsedIds(files[1..])
  }

  /** The parsed ids are exactly the non-null results of `parseIdFromName`. */
  lemma {:induction false} ParsedIdsExactly(files: seq<string>)
    ensures forall id :: id in ParsedIds(files) <==> exists f :: f in files && ParseIdFromName(f) == Some(id)
  {
    if |files| > 0 {
      assert files == [files[0]] + files[1..];
      ParsedIdsExactly(files[1..]);
    }
  }

  /** Filtering keeps every candidate entry as often as the listing holds it, and drops
      every other entry. */
  lemma {:induction false} ListSourceFilesCounts(entries: seq<string>)
    ensures forall f :: multiset(ListSourceFiles(entries))[f] == if IsCandidate(f) then multiset(entries)[f] else 0
  {
    if |entries| > 0 {
      assert entries == [entries[0]] + entries[1..];
      ListSourceFilesCounts(entries[1..]);
    }
  }

  /** How many of `files` name cell `id`. */
  function CountParsesTo(files: seq<string>, id: nat): (n: nat)
    ensures n <= |files|
  {
    if |files| == 0 then 0
    else (if ParseIdFromName(files[0]) == Some(id) then 1 else 0) + CountParsesTo(files[1..], id)
  }

  /** Each file that parses contributes its own id: an id occurs among the parsed ids once
      per file naming it, so duplicates are kept. */
  lemma {:induction false} ParsedIdsCounts(files: seq<string>)
    ensures forall id :: multiset(ParsedIds(files))[id] == CountParsesTo(files, id)
  {
    if |files| > 0 {
      ParsedIdsCounts(files[1..]);
    }
  }

  ghost predicate Sorted(s: seq<nat>) {
    forall i, j :: 0 <= i < j < |s| ==> s[i] <= s[j]
  }

  /** Insert `x` into an ascending sequence. */
  function Insert(x: nat, s: seq<nat>): (r: seq<nat>)
    ensures multiset(r) == multiset(s) + multiset{x}
  {
    if |s| == 0 || x <= s[0] then [x] + s
    else
      assert s == [s[0]] + s[1..];
      [s[0]] + Insert(x, s[1..])
  }

  /** Inserting keeps an ascending sequence ascending, and keeps every lower bound of `x`
      and `s`. */
  lemma {:induction false} InsertSorted(x: nat, s: seq<nat>, lb: nat)
    requires Sorted(s) && lb <= x && forall i :: 0 <= i < |s| ==> lb <= s[i]
    ensures Sorted(Insert(x, s))
    ensures forall i :: 0 <= i < |Insert(x, s)| ==> lb <= Insert(x, s)[i]
  {
    if |s| > 0 && x > s[0] {
      InsertSorted(x, s[1..], s[0]);
      var rest := Insert(x, s[1..]);
      assert Insert(x, s) == [s[0]] + rest;
    }
  }

  /** `.sort((a, b) => a - b)`: numeric ascending order (by insertion); the result is a
      permutation of the input. */
  function SortAscending(s: seq<nat>): (r: seq<nat>)
    ensures multiset(r) == multiset(s)
  {
    if |s| == 0 then []
    else
      assert s == [s[0]] + s[1..];
      Insert(s[0], SortAscending(s[1..]))
  }

  /** Sorting yields an ascending sequence. */
  lemma {:induction false} SortAscendingSorted(s: seq<nat>)
    ensures Sorted(SortAscending(s))
  {
    if |s| > 0 {
      SortAscendingSorted(s[1..]);
      InsertSorted(s[0], SortAscending(s[1..]), 0);
    }
  }

  /** The `ids` array of both scripts: parsed ids of `files`, ascending. */
  function Ids(files: seq<string>): (ids: seq<nat>)
    ensures Sorted(ids)
    ensures multiset(ids) == multiset(ParsedIds(files))
  {
    SortAscendingSorted(ParsedIds(files));
    SortAscending(ParsedIds(files))
  }

  /** `ids` holds exactly the ids that some file name parses to. */
  lemma IdsExactly(files: seq<string>)
    ensures forall id :: id in Ids(files) <==> exists f :: f in files && ParseIdFromName(f) == Some(id)
  {
    var ids := Ids(files);
    ParsedIdsExactly(files);
    assert forall id :: id in ids <==> id in multiset(ParsedIds(files));
  }

  /** `ids` holds each id once per file naming it. */
  lemma IdsCounts(files: seq<string>)
    ensures forall id :: multiset(Ids(files))[id] == CountParsesTo(files, id)
  {
    ParsedIdsCounts(files);
  }

  /** The row span of the ids: `minRow`, `maxRow` and `rowCount = maxRow - minRow + 1`. */
  datatype Bounds = Bounds(minRow: nat, maxRow: nat, rowCount: nat)

  /** `Math.min(...rows)` */
  function MinRow(ids: seq<nat>): (m: nat)
    requires |ids| > 0
    ensures forall id :: id in ids ==> m <= Row(id)
  {
    if |ids| == 1 then Row(ids[0])
    else
      assert ids == [ids[0]] + ids[1..];
      var m := MinRow(ids[1..]);
      if Row(ids[0]) <= m then Row(ids[0]) else m
  }

  /** `Math.max(...rows)` */
  function MaxRow(ids: seq<nat>): (m: nat)
    requires |ids| > 0
    ensures forall id :: id in ids ==> Row(id) <= m
  {
    if |ids| == 1 then Row(ids[0])
    else
      assert ids == [ids[0]] + ids[1..];
      var m := MaxRow(ids[1..]);
      if m <= Row(ids[0]) then Row(ids[0]) else m
  }

  /** The minimum is the row of one of the ids. */
  lemma {:induction false} MinRowAttained(ids: seq<nat>)
    requires |ids| > 0
    ensures exists id :: id in ids && Row(id) == MinRow(ids)
  {
    if MinRow(ids) == Row(ids[0]) {
      assert ids[0] in ids;
    } else {
      MinRowAttained(ids[1..]);
      var id :| id in ids[1..] && Row(id) == MinRow(ids[1..]);
      assert id in ids;
    }
  }

  /** The maximum is the row of one of the ids. */
  lemma {:induction false} MaxRowAttained(ids: seq<nat>)
    requires |ids| > 0
    ensures exists id :: id in ids && Row(id) == MaxRow(ids)
  {
    if MaxRow(ids) == Row(ids[0]) {
      assert ids[0] in ids;
    } else {
      MaxRowAttained(ids[1..]);
      var id :| id in ids[1..] && Row(id) == MaxRow(ids[1..]);
      assert id in ids;
    }
  }

  /** The bounds of a non-empty id list (the scripts compute them only after `ids.length`
      or the probe has ruled the empty list out). */
  function RowBounds(ids: seq<nat>): (b: Bounds)
    requires |ids| > 0
    ensures b.minRow <= b.maxRow && b.rowCount == b.maxRow - b.minRow + 1 >= 1
    ensures forall id :: id in ids ==> b.minRow <= Row(id) <= b.maxRow
  {
    var lo, hi := MinRow(ids), MaxRow(ids);
    Bounds(lo, hi, hi - lo + 1)
  }

  lemma RowMonotone(a: nat, b: nat)
    requires a <= b
    ensures Row(a) <= Row(b)
  {
  }

  lemma {:induction false} SortedMinRow(ids: seq<nat>)
    requires |ids| > 0 && Sorted(ids)
    ensures MinRow(ids) == Row(ids[0])
  {
    if |ids| > 1 {
      assert Sorted(ids[1..]);
      SortedMinRow(ids[1..]);
      RowMonotone(ids[0], ids[1]);
    }
  }

  lemma {:induction false} SortedMaxRow(ids: seq<nat>)
    requires |ids| > 0 && Sorted(ids)
    ensures MaxRow(ids) == Row(ids[|ids| - 1])
  {
    if |ids| > 1 {
      assert Sorted(ids[1..]);
      SortedMaxRow(ids[1..]);
      RowMonotone(ids[0], ids[|ids| - 1]);
    }
  }

  /** For ascending ids the span runs from the first id's row to the last id's row. */
  lemma SortedBounds(ids: seq<nat>)
    requires |ids| > 0 && Sorted(ids)
    ensures RowBounds(ids).minRow == Row(ids[0])
    ensures RowBounds(ids).maxRow == Row(ids[|ids| - 1])
  {
    SortedMinRow(ids);
    SortedMaxRow(ids);
  }


  /** The name of the tile file for cell `id`: `${id}_${SUFFIX}.jpg`. */
  function TileFileName(id: nat): string {
    DecimalString(id) + "_" + SUFFIX + EXT
  }

  /** A tile file name passes the filter and parses back to its id, so the tiles one
      script writes are the tiles the other script scans. */
  lemma TileFileNameScans(id: nat)
    ensures IsCandidate(TileFileName(id))
    ensures ParseIdFromName(TileFileName(id)) == Some(id)
  {
    var digits := DecimalString(id);
    var name := TileFileName(id);
    assert name == digits + ("_" + SUFFIX + EXT);
    assert name[|digits|..|digits| + 7] == "_" + SUFFIX;
    assert OccursAt(name, "_" + SUFFIX, |digits|);
    assert name[|name| - 4..] == EXT;
    assert '_' !in digits by {
      forall i | 0 <= i < |digits| ensures digits[i] != '_' {
        assert IsDigit(digits[i]);
      }
    }
    BeforeFirstAppend(digits, "_" + SUFFIX + EXT, '_');
    NumberOfDecimal(id);
  }

  /** Worked name: "504_l11sd2.jpg" names cell 504. */
  lemma ParseExample()
    ensures ParseIdFromName("504_l11sd2.jpg") == Some(504)
  {
    assert "504_l11sd2.jpg" == "504" + "_l11sd2.jpg";
    BeforeFirstAppend("504", "_l11sd2.jpg", '_');
    assert "504"[..2] == "50" && "50"[..1] == "5" && "5"[..0] == "";
  }

  /** Only the text before the first "_" counts: "5_x_l11sd2.jpg" also names cell 5,
      so the id list can hold the same id twice. */
  lemma ParseSecondUnderscore()
    ensures ParseIdFromName("5_x_l11sd2.jpg") == Some(5)
  {
    assert "5_x_l11sd2.jpg" == "5" + "_x_l11sd2.jpg";
    BeforeFirstAppend("5", "_x_l11sd2.jpg", '_');
    assert "5"[..0] == "";
  }

  /** A prefix that is not a number parses to nothing and is filtered out. */
  lemma ParseNonNumeric()
    ensures ParseIdFromName("abc_l11sd2.jpg") == None
  {
    assert "abc_l11sd2.jpg" == "abc" + "_l11sd2.jpg";
    BeforeFirstAppend("abc", "_l11sd2.jpg", '_');
    NumberOfNonDigit("abc", 0);
  }

  /** `Number("")` is 0, so a name that starts with "_" counts as cell 0. */
  lemma ParseEmptyPrefix()
    ensures ParseIdFromName("_l11sd2.jpg") == Some(0)
  {
    BeforeFirstAppend("", "_l11sd2.jpg", '_');
  }

  /** Two names of the same cell both stay in the id list. */
  lemma DuplicateIdsKept()
    ensures Ids(["5_l11sd2.jpg", "5_x_l11sd2.jpg"]) == [5, 5]
  {
    ParseSecondUnderscore();
    assert "5_l11sd2.jpg" == "5" + "_l11sd2.jpg";
    BeforeFirstAppend("5", "_l11sd2.jpg", '_');
    assert "5"[..0] == "";
    var files := ["5_l11sd2.jpg", "5_x_l11sd2.jpg"];
    assert files[1..][1..] == [];
    assert ParsedIds(files) == [5, 5];
    var ids := Ids(files);
    assert |ids| == |multiset(ids)| == 2;
    assert ids[0] in multiset(ids) && ids[1] in multiset(ids);
  }
}
