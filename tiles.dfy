/** Per-tile state, the click guard and the effect of the preview on tiles.
    A tile is Hidden (face down), Flipped (face up, waiting to be compared)
    or Matched (its pair was found). */
module Tiles {

  datatype TileState = Hidden | Flipped | Matched

  function MatchedWeight(t: TileState): (w: nat)
  {
    if t == Matched then 1 else 0
  }

  /** Number of matched tiles. */
  function CountMatched(tiles: seq<TileState>): (n: nat)
    ensures n <= |tiles|
    ensures n == |tiles| <==> forall k :: 0 <= k < |tiles| ==> tiles[k] == Matched
    ensures n == 0 <==> forall k :: 0 <= k < |tiles| ==> tiles[k] != Matched
  {
    if tiles == [] then 0
    else
      var rest := CountMatched(tiles[1..]);
      assert forall k :: 1 <= k < |tiles| ==> tiles[k] == tiles[1..][k - 1];
      MatchedWeight(tiles[0]) + rest
  }

  /** Changing one tile changes the count by what that tile contributed
      before and after. */
  lemma {:induction false} CountMatchedUpdate(tiles: seq<TileState>, i: nat, t: TileState)
    requires i < |tiles|
    ensures CountMatched(tiles[i := t]) == CountMatched(tiles) - MatchedWeight(tiles[i]) + MatchedWeight(t)
  {
    if i == 0 {
      assert tiles[i := t][1..] == tiles[1..];
    } else {
      assert tiles[i := t][1..] == tiles[1..][i - 1 := t];
      CountMatchedUpdate(tiles[1..], i - 1, t);
    }
  }

  /** Two tile lists that agree on which tiles are matched have the same
      matched count. */
  lemma {:induction false} SameMatched(a: seq<TileState>, b: seq<TileState>)
    requires |a| == |b|
    requires forall k :: 0 <= k < |a| ==> (a[k] == Matched <==> b[k] == Matched)
    ensures CountMatched(a) == CountMatched(b)
  {
    if a != [] {
      assert forall k :: 0 <= k < |a| - 1 ==> a[1..][k] == a[k + 1] && b[1..][k] == b[k + 1];
      SameMatched(a[1..], b[1..]);
    }
  }

  /** A click on tile `index` is taken only when no comparison is pending
      (`locked` is false), fewer than two tiles are selected, and the tile
      is neither flipped nor matched. */
  predicate ClickAccepted(locked: bool, selection: seq<nat>, tiles: seq<TileState>, index: nat)
    ensures ClickAccepted(locked, selection, tiles, index) <==>
      !locked && |selection| < 2 && index < |tiles| && tiles[index] != Flipped && tiles[index] != Matched
  {
    !locked && |selection| < 2 && index < |tiles| && tiles[index] == Hidden
  }

  /** Every selected index names a flipped tile. */
  predicate SelectionFlipped(selection: seq<nat>, tiles: seq<TileState>)
  {
    forall j :: 0 <= j < |selection| ==> selection[j] < |tiles| && tiles[selection[j]] == Flipped
  }

  /** While the selected tiles are face up, a click the guard takes is on
      a tile outside the selection, so the selection never repeats an index. */
  lemma AcceptedClickIsNew(locked: bool, selection: seq<nat>, tiles: seq<TileState>, index: nat)
    requires SelectionFlipped(selection, tiles)
    requires ClickAccepted(locked, selection, tiles, index)
    ensures index !in selection
  {
  }

  /** Tile states when the preview ends, as the code does it: every tile
      that is not matched is turned face down, the selected ones included. */
  function SettleAfterPreviewAsWritten(tiles: seq<TileState>): (settled: seq<TileState>)
    ensures |settled| == |tiles|
    ensures forall k :: 0 <= k < |tiles| ==> (settled[k] == Matched <==> tiles[k] == Matched)
    ensures forall k :: 0 <= k < |tiles| ==> settled[k] != Flipped
  {
    seq(|tiles|, k requires 0 <= k < |tiles| => if tiles[k] == Matched then Matched else Hidden)
  }

  /** Tile states when the preview ends, corrected: tiles of the pending
      selection stay face up, every other unmatched tile is turned face down. */
  function SettleAfterPreview(tiles: seq<TileState>, selection: seq<nat>): (settled: seq<TileState>)
    ensures |settled| == |tiles|
    ensures forall k :: 0 <= k < |tiles| ==> (settled[k] == Matched <==> tiles[k] == Matched)
    ensures forall k :: 0 <= k < |tiles| && k in selection ==> settled[k] == tiles[k]
    ensures forall k :: 0 <= k < |tiles| && k !in selection ==> settled[k] != Flipped
  {
    seq(|tiles|, k requires 0 <= k < |tiles| => if tiles[k] == Matched || k in selection then tiles[k] else Hidden)
  }

  /** The defect of the preview as written: with exactly one tile selected
      and no comparison pending, the end of the preview turns that tile face
      down while it stays selected, so a second click on the same tile is
      taken; the selection becomes [i, i], a "pair" whose icons trivially
      agree. */
  lemma PreviewAsWrittenReopensSelectedTile(tiles: seq<TileState>, i: nat)
    requires SelectionFlipped([i], tiles)
    ensures ClickAccepted(false, [i], SettleAfterPreviewAsWritten(tiles), i)
    ensures !ClickAccepted(false, [i], tiles, i)
  {
    assert tiles[[i][0]] == Flipped;
  }

  /** The corrected preview keeps matched tiles matched, turns every other
      tile outside the selection face down, and leaves the selected tiles
      unclickable. When the only face-up unmatched tiles are the selected
      ones, it leaves the tiles exactly as they were. */
  lemma SettleAfterPreviewKeepsSelection(tiles: seq<TileState>, selection: seq<nat>, locked: bool)
    requires SelectionFlipped(selection, tiles)
    ensures var settled := SettleAfterPreview(tiles, selection);
      |settled| == |tiles| &&
      SelectionFlipped(selection, settled) &&
      (forall k :: 0 <= k < |tiles| ==> (settled[k] == Matched <==> tiles[k] == Matched)) &&
      (forall k :: 0 <= k < |tiles| && k !in selection && tiles[k] != Matched ==> settled[k] == Hidden) &&
      (forall k :: k in selection ==> !ClickAccepted(locked, selection, settled, k))
    ensures (forall k :: 0 <= k < |tiles| && tiles[k] == Flipped ==> k in selection) ==>
      SettleAfterPreview(tiles, selection) == tiles
  {
    var settled := SettleAfterPreview(tiles, selection);
    forall j | 0 <= j < |selection|
      ensures selection[j] < |settled| && settled[selection[j]] == Flipped
    {
      assert selection[j] in selection;
    }
  }
}
