/** The game session object: the board, the state of each tile, the
    pending selection, the history of matched pairs and the counters, all
    updated in place by the player's events. */
module MemoryGame {
  import opened Themes
  import opened BoardGen
  import opened Tiles
  import opened Session

  class Game {
    var board: seq<Icon>
    /** State of each tile, indexed like `board`. */
    var tiles: seq<TileState>
    /** The pending selection, in click order. */
    var flippedTiles: seq<nat>
    var matchedPairs: int
    var totalPairs: nat
    var moves: int
    var seconds: nat
    /** Whether the one-second timer is scheduled. */
    var timerRunning: bool
    /** Input lock while a selection of two waits to be resolved. */
    var isAnimating: bool
    var gameStarted: bool
    var theme: Theme
    var difficulty: Difficulty
    /** Stack of matched pairs, most recent last. */
    var matchHistory: seq<(nat, nat)>

    ghost predicate Valid()
      reads this
    {
      SessionInvariant(board, tiles, flippedTiles, isAnimating, matchHistory, matchedPairs, totalPairs,
                       moves, seconds, timerRunning, gameStarted)
    }

    /** A fresh session: empty board, zero counters, emoji theme, easy. */
    constructor ()
      ensures Valid()
      ensures board == [] && tiles == [] && flippedTiles == [] && matchHistory == []
      ensures matchedPairs == 0 && totalPairs == 0 && moves == 0 && seconds == 0
      ensures !timerRunning && !isAnimating && !gameStarted
      ensures theme == Emojis && difficulty == Easy
    {
      board := [];
      tiles := [];
      flippedTiles := [];
      matchedPairs := 0;
      totalPairs := 0;
      moves := 0;
      seconds := 0;
      timerRunning := false;
      isAnimating := false;
      gameStarted := false;
      theme := Emojis;
      difficulty := Easy;
      matchHistory := [];
    }

    /** Clears the session and stops the timer. The pair total, theme and
        difficulty are kept. */
    method Reset()
      modifies this
      ensures Valid()
      ensures board == [] && tiles == [] && flippedTiles == [] && matchHistory == []
      ensures matchedPairs == 0 && moves == 0 && seconds == 0
      ensures !isAnimating && !gameStarted && !timerRunning
      ensures totalPairs == old(totalPairs) && theme == old(theme) && difficulty == old(difficulty)
    {
      board := [];
      tiles := [];
      flippedTiles := [];
      matchedPairs := 0;
      moves := 0;
      seconds := 0;
      isAnimating := false;
      gameStarted := false;
      matchHistory := [];
      timerRunning := false;
      FreshSession([], [], totalPairs);
    }

    /** Starts a game: resets, then deals a shuffled board holding each of
        the first `PairCount(difficulty)` icons of the theme exactly twice
        and nothing else, all face down. */
    method Init(theme: Theme, difficulty: Difficulty)
      modifies this
      ensures Valid()
      ensures this.theme == theme && this.difficulty == difficulty
      ensures totalPairs == PairCount(difficulty) && |board| == GridSize(difficulty)
      ensures forall x :: multiset(board)[x] == if x in ThemeIcons(theme)[..totalPairs] then 2 else 0
      ensures tiles == seq(|board|, _ => Hidden)
      ensures flippedTiles == [] && matchHistory == [] && matchedPairs == 0 && moves == 0 && seconds == 0
      ensures !isAnimating && !gameStarted && !timerRunning
    {
      Reset();
      this.theme := theme;
      this.difficulty := difficulty;
      totalPairs := GridSize(difficulty) / 2;
      var dealt := ShuffleArray(PairedIcons(theme, totalPairs));
      var faceDown := seq(|dealt|, _ => Hidden);
      DealtBoardContents(theme, totalPairs, dealt);
      FreshSession(dealt, faceDown, totalPairs);
      board := dealt;
      tiles := faceDown;
    }

    /** Deals a new board with the same theme and difficulty. */
    method Restart()
      modifies this
      ensures Valid()
      ensures theme == old(theme) && difficulty == old(difficulty)
      ensures totalPairs == PairCount(difficulty) && |board| == GridSize(difficulty)
      ensures forall x :: multiset(board)[x] == if x in ThemeIcons(theme)[..totalPairs] then 2 else 0
      ensures tiles == seq(|board|, _ => Hidden)
      ensures flippedTiles == [] && matchHistory == [] && matchedPairs == 0 && moves == 0 && seconds == 0
      ensures !isAnimating && !gameStarted && !timerRunning
    {
      Init(theme, difficulty);
    }

    /** A click on tile `index`. Ignored while locked, while two tiles are
        selected, or when the tile is face up or matched. Otherwise the tile
        is flipped and selected; the first accepted click of a game starts
        the timer, and the click that completes a pair counts a move and
        locks input until `Resolve`. The code looks the tile up only after
        the first two checks pass, and that lookup fails beyond the dealt
        tiles: hence the precondition. */
    method HandleTileClick(index: nat)
      requires Valid()
      requires isAnimating || |flippedTiles| >= 2 || index < |tiles|
      modifies this
      ensures Valid()
      ensures !old(ClickAccepted(isAnimating, flippedTiles, tiles, index)) ==> unchanged(this)
      ensures old(ClickAccepted(isAnimating, flippedTiles, tiles, index)) ==>
        tiles == old(tiles)[index := Flipped] &&
        flippedTiles == old(flippedTiles) + [index] &&
        gameStarted && timerRunning == (old(timerRunning) || !old(gameStarted)) &&
        moves == old(moves) + (if |flippedTiles| == 2 then 1 else 0) &&
        isAnimating == (|flippedTiles| == 2) &&
        board == old(board) && matchHistory == old(matchHistory) &&
        matchedPairs == old(matchedPairs) && seconds == old(seconds) &&
        totalPairs == old(totalPairs) && theme == old(theme) && difficulty == old(difficulty)
    {
      if isAnimating { return; }
      if |flippedTiles| >= 2 { return; }
      if tiles[index] == Flipped || tiles[index] == Matched { return; }

      ClickKeepsInvariant(board, tiles, flippedTiles, matchHistory, matchedPairs, totalPairs, moves,
                          seconds, timerRunning, gameStarted, index);
      if !gameStarted {
        timerRunning := true;
        gameStarted := true;
      }
      tiles := tiles[index := Flipped];
      flippedTiles := flippedTiles + [index];

      if |flippedTiles| == 2 {
        moves := moves + 1;
        isAnimating := true;
      }
    }

    /** Resolution of a selection of two, once its delay has passed. Equal
        icons: both tiles become matched, the pair is pushed on the history
        and the win is checked. Different icons: both tiles are turned face
        down. Either way the selection is cleared and input unlocked. */
    method Resolve() returns (won: bool)
      requires Valid() && isAnimating && |flippedTiles| == 2
      modifies this
      ensures Valid()
      ensures flippedTiles == [] && !isAnimating
      ensures var i1, i2 := old(flippedTiles[0]), old(flippedTiles[1]);
        if old(board)[i1] == old(board)[i2] then
          tiles == old(tiles)[i1 := Matched][i2 := Matched] &&
          matchedPairs == old(matchedPairs) + 1 &&
          matchHistory == old(matchHistory) + [(i1, i2)] &&
          (won <==> matchedPairs == totalPairs) &&
          timerRunning == (old(timerRunning) && !won)
        else
          tiles == old(tiles)[i1 := Hidden][i2 := Hidden] &&
          matchedPairs == old(matchedPairs) && matchHistory == old(matchHistory) &&
          !won && timerRunning == old(timerRunning)
      ensures board == old(board) && moves == old(moves) && seconds == old(seconds)
      ensures gameStarted == old(gameStarted) && totalPairs == old(totalPairs)
      ensures theme == old(theme) && difficulty == old(difficulty)
    {
      var i1, i2 := flippedTiles[0], flippedTiles[1];
      assert flippedTiles == [i1, i2];
      if board[i1] == board[i2] {
        MatchKeepsInvariant(board, tiles, i1, i2, matchHistory, matchedPairs, totalPairs, moves,
                            seconds, timerRunning, gameStarted);
        tiles := tiles[i1 := Matched][i2 := Matched];
        matchedPairs := matchedPairs + 1;
        matchHistory := matchHistory + [(i1, i2)];
        flippedTiles := [];
        isAnimating := false;
        won := CheckWin();
      } else {
        MismatchKeepsInvariant(board, tiles, i1, i2, matchHistory, matchedPairs, totalPairs, moves,
                               seconds, timerRunning, gameStarted);
        tiles := tiles[i1 := Hidden][i2 := Hidden];
        flippedTiles := [];
        isAnimating := false;
        won := false;
      }
    }

    /** Reports a win when every pair is matched, and then stops the timer. */
    method CheckWin() returns (won: bool)
      requires Valid()
      modifies this`timerRunning
      ensures Valid()
      ensures won <==> matchedPairs == totalPairs
      ensures timerRunning == (old(timerRunning) && !won)
    {
      won := matchedPairs == totalPairs;
      if won {
        timerRunning := false;
      }
    }

    /** Takes back the most recent match: both of its tiles are turned face
        down and unmatched, and the match and move counters drop by one.
        Does nothing when no match is recorded. The lock is not consulted. */
    method Undo()
      requires Valid()
      modifies this
      ensures Valid()
      ensures old(matchHistory) == [] ==> unchanged(this)
      ensures old(matchHistory) != [] ==>
        var last := old(matchHistory)[|old(matchHistory)| - 1];
        matchHistory == old(matchHistory)[..|old(matchHistory)| - 1] &&
        tiles == old(tiles)[last.0 := Hidden][last.1 := Hidden] &&
        matchedPairs == old(matchedPairs) - 1 && moves == old(moves) - 1 &&
        board == old(board) && flippedTiles == old(flippedTiles) &&
        isAnimating == old(isAnimating) && gameStarted == old(gameStarted) &&
        timerRunning == old(timerRunning) && seconds == old(seconds) &&
        totalPairs == old(totalPairs) && theme == old(theme) && difficulty == old(difficulty)
    {
      if |matchHistory| == 0 { return; }

      var (i1, i2) := matchHistory[|matchHistory| - 1];
      UndoKeepsInvariant(board, tiles, flippedTiles, isAnimating, matchHistory, matchedPairs, totalPairs,
                         moves, seconds, timerRunning, gameStarted, i1, i2);
      matchHistory := matchHistory[..|matchHistory| - 1];
      tiles := tiles[i1 := Hidden][i2 := Hidden];
      matchedPairs := matchedPairs - 1;
      moves := moves - 1;
    }

    /** One second of the interval timer: counted only while it runs. */
    method Tick()
      requires Valid()
      modifies this`seconds
      ensures Valid()
      ensures seconds == old(seconds) + (if timerRunning then 1 else 0)
    {
      if timerRunning {
        seconds := seconds + 1;
      }
    }

    /** Net effect of the preview on the tiles once it ends (corrected: the
        pending selection stays face up). Matched tiles stay matched and
        every other unselected tile ends face down, which every such tile
        already is: the tiles come out as they went in. */
    method Preview()
      requires Valid()
      modifies this`tiles
      ensures Valid()
      ensures tiles == SettleAfterPreview(old(tiles), flippedTiles)
      ensures tiles == old(tiles)
    {
      SettleAfterPreviewKeepsSelection(tiles, flippedTiles, isAnimating);
      tiles := SettleAfterPreview(tiles, flippedTiles);
    }
  }

  /** In a dealt game, the pair counter reaches the pair total exactly when
      every tile is matched. */
  lemma WonIffAllMatched(g: Game)
    requires g.Valid() && g.board != []
    ensures g.matchedPairs == g.totalPairs <==> forall k :: 0 <= k < |g.tiles| ==> g.tiles[k] == Matched
  {
  }

  /** Once won, no click is taken until a match is undone or a new game is
      dealt. */
  lemma NoClickAfterWin(g: Game, index: nat)
    requires g.Valid() && g.board != [] && g.matchedPairs == g.totalPairs
    ensures !ClickAccepted(g.isAnimating, g.flippedTiles, g.tiles, index)
  {
    WonIffAllMatched(g);
  }
}
