/** The invariant of a game session, stated over the values of its fields,
    and its preservation by each transition: a click, the resolution of a
    pair (match or mismatch) and the undo of the last match. */
module Session {
  import opened Themes
  import opened BoardGen
  import opened Tiles

  /** A recorded match: two different tiles of the board, same icon, both
      matched. */
  predicate IsMatchedPair(board: seq<Icon>, tiles: seq<TileState>, p: (nat, nat))
  {
    p.0 != p.1 && p.0 < |board| && p.1 < |board| && |tiles| == |board| &&
    board[p.0] == board[p.1] && tiles[p.0] == Matched && tiles[p.1] == Matched
  }

  /** Two recorded matches share no tile. */
  predicate Disjoint(p: (nat, nat), q: (nat, nat))
  {
    p.0 != q.0 && p.0 != q.1 && p.1 != q.0 && p.1 != q.1
  }

  /** The pending selection: at most two distinct face-up tiles, exactly
      the face-up ones, and input is locked exactly when there are two. */
  predicate SelectionInvariant(tiles: seq<TileState>, selection: seq<nat>, locked: bool)
  {
    |selection| <= 2 &&
    SelectionFlipped(selection, tiles) &&
    (|selection| == 2 ==> selection[0] != selection[1]) &&
    (forall i :: 0 <= i < |tiles| && tiles[i] == Flipped ==> i in selection) &&
    (locked <==> |selection| == 2)
  }

  /** The history of matches: disjoint pairs of equal icons that account
      for every matched tile. */
  predicate HistoryInvariant(board: seq<Icon>, tiles: seq<TileState>, history: seq<(nat, nat)>)
  {
    (forall k :: 0 <= k < |history| ==> IsMatchedPair(board, tiles, history[k])) &&
    (forall k, l :: 0 <= k < l < |history| ==> Disjoint(history[k], history[l])) &&
    CountMatched(tiles) == 2 * |history|
  }

  /** Turning an unmatched tile face up or down keeps the history valid. */
  lemma HistoryAfterTurn(board: seq<Icon>, tiles: seq<TileState>, history: seq<(nat, nat)>, i: nat, t: TileState)
    requires |tiles| == |board| && HistoryInvariant(board, tiles, history)
    requires i < |tiles| && tiles[i] != Matched && t != Matched
    ensures HistoryInvariant(board, tiles[i := t], history)
  {
    CountMatchedUpdate(tiles, i, t);
    forall k | 0 <= k < |history| ensures IsMatchedPair(board, tiles[i := t], history[k]) {
      assert IsMatchedPair(board, tiles, history[k]);
    }
  }

  /** Matching two distinct face-up tiles of equal icon and pushing them
      keeps the history valid. */
  lemma HistoryAfterMatch(board: seq<Icon>, tiles: seq<TileState>, history: seq<(nat, nat)>, i1: nat, i2: nat)
    requires |tiles| == |board| && HistoryInvariant(board, tiles, history)
    requires i1 < |tiles| && i2 < |tiles| && i1 != i2
    requires tiles[i1] == Flipped && tiles[i2] == Flipped && board[i1] == board[i2]
    ensures HistoryInvariant(board, tiles[i1 := Matched][i2 := Matched], history + [(i1, i2)])
  {
    var tiles' := tiles[i1 := Matched][i2 := Matched];
    var history' := history + [(i1, i2)];
    CountMatchedUpdate(tiles, i1, Matched);
    CountMatchedUpdate(tiles[i1 := Matched], i2, Matched);
    forall k | 0 <= k < |history'| ensures IsMatchedPair(board, tiles', history'[k]) {
      if k < |history| {
        assert history'[k] == history[k];
        assert IsMatchedPair(board, tiles, history[k]);
      }
    }
    forall k, l | 0 <= k < l < |history'| ensures Disjoint(history'[k], history'[l]) {
      if l < |history| {
        assert history'[k] == history[k] && history'[l] == history[l];
      } else {
        assert history'[k] == history[k];
        assert IsMatchedPair(board, tiles, history[k]);
      }
    }
  }

  /** Popping the last match and turning its tiles face down keeps the
      history valid. */
  lemma HistoryAfterUndo(board: seq<Icon>, tiles: seq<TileState>, history: seq<(nat, nat)>)
    requires |tiles| == |board| && HistoryInvariant(board, tiles, history) && history != []
    ensures var last := history[|history| - 1];
      last.0 < |tiles| && last.1 < |tiles| &&
      HistoryInvariant(board, tiles[last.0 := Hidden][last.1 := Hidden], history[..|history| - 1])
  {
    var n := |history| - 1;
    var last := history[n];
    var (i1, i2) := last;
    assert IsMatchedPair(board, tiles, last);
    var tiles' := tiles[i1 := Hidden][i2 := Hidden];
    var history' := history[..n];
    CountMatchedUpdate(tiles, i1, Hidden);
    CountMatchedUpdate(tiles[i1 := Hidden], i2, Hidden);
    forall k | 0 <= k < |history'| ensures IsMatchedPair(board, tiles', history'[k]) {
      assert history'[k] == history[k];
      assert IsMatchedPair(board, tiles, history[k]);
      assert Disjoint(history[k], history[n]);
    }
    forall k, l | 0 <= k < l < |history'| ensures Disjoint(history'[k], history'[l]) {
      assert history'[k] == history[k] && history'[l] == history[l];
    }
  }

  /** An accepted click flips a face-down tile and appends it; the
      selection then locks input exactly when it holds two. */
  lemma SelectionAfterClick(tiles: seq<TileState>, selection: seq<nat>, index: nat)
    requires SelectionInvariant(tiles, selection, false)
    requires ClickAccepted(false, selection, tiles, index)
    ensures SelectionInvariant(tiles[index := Flipped], selection + [index], |selection| + 1 == 2)
  {
    AcceptedClickIsNew(false, selection, tiles, index);
    var tiles', selection' := tiles[index := Flipped], selection + [index];
    forall j | 0 <= j < |selection'| ensures selection'[j] < |tiles'| && tiles'[selection'[j]] == Flipped {
      if j < |selection| {
        assert selection'[j] == selection[j];
      }
    }
    forall i | 0 <= i < |tiles'| && tiles'[i] == Flipped ensures i in selection' {
      if i != index {
        assert tiles[i] == Flipped;
      }
    }
  }

  /** Resolving turns both selected tiles to `t` (matched or face down) and
      clears the selection, which unlocks input. */
  lemma SelectionAfterResolve(tiles: seq<TileState>, selection: seq<nat>, t: TileState)
    requires SelectionInvariant(tiles, selection, true) && t != Flipped
    ensures selection[0] < |tiles| && selection[1] < |tiles|
    ensures SelectionInvariant(tiles[selection[0] := t][selection[1] := t], [], false)
  {
    assert selection[0] < |tiles| && tiles[selection[0]] == Flipped;
    assert selection[1] < |tiles| && tiles[selection[1]] == Flipped;
    assert selection == [selection[0], selection[1]];
  }

  /** Turning two matched tiles face down leaves the selection valid. */
  lemma SelectionAfterUndo(tiles: seq<TileState>, selection: seq<nat>, locked: bool, i1: nat, i2: nat)
    requires SelectionInvariant(tiles, selection, locked)
    requires i1 < |tiles| && i2 < |tiles| && tiles[i1] == Matched && tiles[i2] == Matched
    ensures SelectionInvariant(tiles[i1 := Hidden][i2 := Hidden], selection, locked)
  {
    var tiles' := tiles[i1 := Hidden][i2 := Hidden];
    forall j | 0 <= j < |selection| ensures selection[j] < |tiles'| && tiles'[selection[j]] == Flipped {
      assert tiles[selection[j]] == Flipped;
    }
  }

  /** The defect of the preview as written, carried on: clicking the
      reopened tile `i` again makes the selection [i, i], which breaks the
      selection invariant; resolving that selection as a match (its two
      icons are trivially equal) marks one tile and pushes (i, i), which is
      not a pair of two different tiles, so the history invariant breaks
      too. */
  lemma PreviewAsWrittenBreaksInvariants(board: seq<Icon>, tiles: seq<TileState>, history: seq<(nat, nat)>, i: nat)
    requires i < |tiles| && tiles[i] == Flipped
    ensures var clicked := SettleAfterPreviewAsWritten(tiles)[i := Flipped];
      !SelectionInvariant(clicked, [i, i], true) &&
      !HistoryInvariant(board, clicked[i := Matched][i := Matched], history + [(i, i)])
  {
    var clicked := SettleAfterPreviewAsWritten(tiles)[i := Flipped];
    var pushed := history + [(i, i)];
    assert pushed[|history|] == (i, i);
    assert !IsMatchedPair(board, clicked[i := Matched][i := Matched], pushed[|history|]);
  }

  /** What the defect does to the counts: from a valid history, the
      as-written preview end, a second click on the lone selected tile `i`
      and its resolution as a match leave an odd number of matched tiles,
      one more than twice the recorded matches before it. The pair counter
      goes up by one, so it now claims one more matched tile than there is. */
  lemma PreviewAsWrittenMiscounts(board: seq<Icon>, tiles: seq<TileState>, history: seq<(nat, nat)>, i: nat)
    requires HistoryInvariant(board, tiles, history)
    requires i < |tiles| && tiles[i] == Flipped
    ensures var clicked := SettleAfterPreviewAsWritten(tiles)[i := Flipped];
      CountMatched(clicked[i := Matched][i := Matched]) == 2 * |history| + 1
  {
    var settled := SettleAfterPreviewAsWritten(tiles);
    SameMatched(settled, tiles);
    CountMatchedUpdate(settled, i, Flipped);
    var clicked := settled[i := Flipped];
    CountMatchedUpdate(clicked, i, Matched);
    CountMatchedUpdate(clicked[i := Matched], i, Matched);
  }

  /** A shuffle of the paired icons holds each of the first `pairs` icons
      of the theme exactly twice and nothing else. */
  lemma DealtBoardContents(theme: Theme, pairs: nat, board: seq<Icon>)
    requires pairs <= |ThemeIcons(theme)|
    requires multiset(board) == multiset(PairedIcons(theme, pairs))
    ensures |board| == 2 * pairs
    ensures forall x :: multiset(board)[x] == if x in ThemeIcons(theme)[..pairs] then 2 else 0
  {
    forall x ensures multiset(board)[x] == if x in ThemeIcons(theme)[..pairs] then 2 else 0 {
      PairedIconsEachTwice(theme, pairs, x);
    }
    PairedIconsEachTwice(theme, pairs, []);
    assert |board| == |multiset(board)|;
  }

  /** A session with nothing started: all tiles face down (or no board at
      all), nothing selected, no history, zero counters, timer stopped.
      It satisfies the invariant. */
  lemma FreshSession(board: seq<Icon>, tiles: seq<TileState>, totalPairs: nat)
    requires tiles == seq(|board|, _ => Hidden)
    requires board == [] || |board| == 2 * totalPairs
    ensures SessionInvariant(board, tiles, [], false, [], 0, totalPairs, 0, 0, false, false)
  {
    assert CountMatched(tiles) == 0;
  }

  /** Everything that holds of a session between two events: the board and
      the tile states line up; the selection and the history are valid; the
      pair counter is the length of the history and never exceeds the pair
      total; every recorded match and the pending pair were counted as
      moves; the timer only runs once the game has started, and before that
      nothing has happened. */
  predicate SessionInvariant(board: seq<Icon>, tiles: seq<TileState>, selection: seq<nat>, locked: bool,
                             history: seq<(nat, nat)>, matchedPairs: int, totalPairs: nat, moves: int,
                             seconds: nat, timerRunning: bool, gameStarted: bool)
  {
    |tiles| == |board| &&
    (board == [] || |board| == 2 * totalPairs) &&
    SelectionInvariant(tiles, selection, locked) &&
    HistoryInvariant(board, tiles, history) &&
    matchedPairs == |history| &&
    matchedPairs <= totalPairs &&
    moves >= matchedPairs + (if |selection| == 2 then 1 else 0) &&
    (timerRunning ==> gameStarted) &&
    (!gameStarted ==> selection == [] && history == [] && moves == 0 && seconds == 0)
  }

  /** An accepted click keeps the invariant: the tile turns face up and
      joins the selection, the game counts as started with the timer
      running, and completing a pair counts one move and locks input. */
  lemma ClickKeepsInvariant(board: seq<Icon>, tiles: seq<TileState>, selection: seq<nat>,
                            history: seq<(nat, nat)>, matchedPairs: int, totalPairs: nat, moves: int,
                            seconds: nat, timerRunning: bool, gameStarted: bool, index: nat)
    requires SessionInvariant(board, tiles, selection, false, history, matchedPairs, totalPairs, moves,
                              seconds, timerRunning, gameStarted)
    requires ClickAccepted(false, selection, tiles, index)
    ensures var selection' := selection + [index];
      SessionInvariant(board, tiles[index := Flipped], selection', |selection'| == 2, history,
                       matchedPairs, totalPairs, moves + (if |selection'| == 2 then 1 else 0),
                       seconds, timerRunning || !gameStarted, true)
  {
    SelectionAfterClick(tiles, selection, index);
    HistoryAfterTurn(board, tiles, history, index, Flipped);
  }

  /** Resolving a pending pair of equal icons keeps the invariant: both
      tiles become matched, the pair is pushed, the counter goes up by one
      and still does not exceed the pair total, input is unlocked. */
  lemma MatchKeepsInvariant(board: seq<Icon>, tiles: seq<TileState>, i1: nat, i2: nat,
                            history: seq<(nat, nat)>, matchedPairs: int, totalPairs: nat, moves: int,
                            seconds: nat, timerRunning: bool, gameStarted: bool)
    requires SessionInvariant(board, tiles, [i1, i2], true, history, matchedPairs, totalPairs, moves,
                              seconds, timerRunning, gameStarted)
    requires i1 < |board| && i2 < |board| && board[i1] == board[i2]
    ensures SessionInvariant(board, tiles[i1 := Matched][i2 := Matched], [], false, history + [(i1, i2)],
                             matchedPairs + 1, totalPairs, moves, seconds, timerRunning, gameStarted)
  {
    SelectionAfterResolve(tiles, [i1, i2], Matched);
    HistoryAfterMatch(board, tiles, history, i1, i2);
  }

  /** Resolving a pending pair of different icons keeps the invariant: both
      tiles turn face down, counters and history stay, input is unlocked. */
  lemma MismatchKeepsInvariant(board: seq<Icon>, tiles: seq<TileState>, i1: nat, i2: nat,
                               history: seq<(nat, nat)>, matchedPairs: int, totalPairs: nat, moves: int,
                               seconds: nat, timerRunning: bool, gameStarted: bool)
    requires SessionInvariant(board, tiles, [i1, i2], true, history, matchedPairs, totalPairs, moves,
                              seconds, timerRunning, gameStarted)
    ensures SessionInvariant(board, tiles[i1 := Hidden][i2 := Hidden], [], false, history,
                             matchedPairs, totalPairs, moves, seconds, timerRunning, gameStarted)
  {
    SelectionAfterResolve(tiles, [i1, i2], Hidden);
    assert tiles[i1] == Flipped;
    HistoryAfterTurn(board, tiles, history, i1, Hidden);
    HistoryAfterTurn(board, tiles[i1 := Hidden], history, i2, Hidden);
  }

  /** Undoing the last match keeps the invariant, whatever the selection
      and the lock: its two tiles turn face down, the history shrinks by
      one, and both the pair counter and the move counter drop by one
      without going below zero. */
  lemma UndoKeepsInvariant(board: seq<Icon>, tiles: seq<TileState>, selection: seq<nat>, locked: bool,
                           history: seq<(nat, nat)>, matchedPairs: int, totalPairs: nat, moves: int,
                           seconds: nat, timerRunning: bool, gameStarted: bool, i1: nat, i2: nat)
    requires SessionInvariant(board, tiles, selection, locked, history, matchedPairs, totalPairs, moves,
                              seconds, timerRunning, gameStarted)
    requires history != [] && history[|history| - 1] == (i1, i2)
    ensures i1 < |tiles| && i2 < |tiles|
    ensures SessionInvariant(board, tiles[i1 := Hidden][i2 := Hidden], selection, locked,
                       history[..|history| - 1], matchedPairs - 1, totalPairs, moves - 1,
                       seconds, timerRunning, gameStarted)
    ensures matchedPairs - 1 >= 0 && moves - 1 >= 0
  {
    assert IsMatchedPair(board, tiles, history[|history| - 1]);
    HistoryAfterUndo(board, tiles, history);
    SelectionAfterUndo(tiles, selection, locked, i1, i2);
  }
}
