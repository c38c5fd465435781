# Memory match game: a verified model of the game session

This project models, in Dafny, the core of a browser memory ("concentration")
game. The board holds each of the first 6, 8 or 10 icons of a theme twice,
shuffled. The player turns two tiles face up at a time. Equal icons stay
matched. Different icons turn back face down after a delay. The game keeps
a move counter, a pair counter, a running timer and an undo stack of matched
pairs, and ends when every pair is matched.

Modules:

- `Themes`: the three icon sets and the grid size of each difficulty.
- `BoardGen`: the Fisher-Yates shuffle and the list of paired icons a board
  is dealt from.
- `TimeFormat`: the "MM:SS" timer text.
- `Tiles`: the state of one tile (face down, face up, matched), the click
  guard and the effect of the preview on the tiles.
- `Session`: the invariant of a game session, stated over plain values, and
  one preservation lemma per transition.
- `MemoryGame`: the `Game` class. Its fields are the session state and its
  methods update them in place.

The page keeps the face-up and matched state of each tile in the CSS
classes of the tile elements. The model keeps it as the field `tiles` of
`Game`, one `TileState` per board position. The interval timer is the field
`timerRunning` together with the method `Tick`, one call per elapsed second.
Each `setTimeout` body of the pair check is the method `Resolve`, called
once its delay has passed.

The central invariant is `Session.SessionInvariant`. It says:

- the selection holds at most two distinct face-up tiles, and exactly the
  face-up ones;
- input is locked exactly while two tiles are selected;
- every recorded match is two different tiles with the same icon, both
  matched, and no two recorded matches share a tile;
- the number of matched tiles is twice the number of recorded matches;
- the pair counter equals the number of recorded matches and never exceeds
  the pair total;
- the move counter is never below the pair counter, plus one while a pair
  is pending.

Every method of `Game` keeps it.

## Model

| member | source | states |
|---|---|---|
| Themes.ThemeIcons | script.js:1-5 | Each theme's icon list, in order: twelve icons, which covers the largest grid of ten pairs. |
| Themes.ThemeIconsDistinct | script.js:1-5 | No theme lists an icon twice. |
| Themes.GridSize | script.js:106-112 | Easy, medium and hard deal 12, 16 and 20 tiles: always even, between 12 and 20. |
| Themes.PairCount | script.js:112-113 | The pair total is half the grid size, between 6 and 10. |
| BoardGen.ShuffleArray | script.js:7-14 | For every choice of the random index, the Fisher-Yates loop on a copy returns a permutation of its input: same length, same multiset. |
| BoardGen.PairedIcons | script.js:115-117 | The board before shuffling: 2·pairs icons. Position k and position pairs + k both hold the theme's k-th icon, for every k below pairs. |
| BoardGen.DistinctMultiplicity | script.js:115-117 | In a list without repeats, each value occurs once if present and otherwise not at all. |
| BoardGen.PairedIconsEachTwice | script.js:115-117 | The theme's first `pairs` icons listed twice give a list of length 2·pairs. Each of those icons occurs exactly twice in it, and no other icon occurs. |
| TimeFormat.DecimalString | script.js:19 | `String(n)` for a whole number: at least one digit, only digits, one digit exactly below 10, at most two below 100. |
| TimeFormat.DecimalNoLeadingZero | script.js:19 | The decimal text of a number starts with '0' only for zero itself. |
| TimeFormat.DecimalRoundTrip | script.js:19 | Reading the decimal text of n gives back n. |
| TimeFormat.PadStart2 | script.js:19 | `padStart(2, '0')`: length is max(length, 2), the original text is the suffix, and every added character is '0'. |
| TimeFormat.PadKeepsValue | script.js:19 | Zero padding keeps digit text all digits and keeps its value. |
| TimeFormat.PaddedDecimal | script.js:19 | A padded field reads back as the number it was made from. |
| TimeFormat.FormatTime | script.js:16-20 | `formatTime`: padded minutes, ':', padded seconds. The text is at least five characters long; its fields and round trip are stated by the three lemmas below. |
| TimeFormat.FormatTimeFields | script.js:16-20 | The timer text is minutes, ':' and a two-digit seconds field. The fields read as seconds / 60 and seconds % 60, and the latter is below 60. |
| TimeFormat.FormatTimeRoundTrip | script.js:16-20 | Parsing the timer text back yields exactly the elapsed seconds, so no two times share a text. |
| TimeFormat.FormatTimeFiveChars | script.js:16-20 | Below 6000 seconds the timer text is exactly five characters, with ':' in the middle. |
| Tiles.CountMatched | script.js:224-234 | The matched-tile count is at most the tile count. It equals the tile count iff every tile is matched, and is zero iff none is. |
| Tiles.CountMatchedUpdate | script.js:224-234 | Changing one tile changes the count by exactly what that tile contributed before and after. |
| Tiles.ClickAccepted | script.js:167-171 | The click guard: a click is taken exactly when input is not locked, fewer than two tiles are selected, and the tile exists and is neither flipped nor matched. |
| Tiles.AcceptedClickIsNew | script.js:166-179 | While the selected tiles are face up, a click that passes the guard is on a tile outside the selection. |
| Tiles.SettleAfterPreviewAsWritten | script.js:280-287 | The preview's end as the code does it: same number of tiles, matched tiles stay matched, unmatched tiles stay unmatched, and no tile is left face up, selected ones included. |
| Tiles.SettleAfterPreview | script.js:280-287 | The corrected preview end: same number of tiles, matched tiles stay matched and unmatched ones unmatched, selected tiles keep their state, and no unselected tile is left face up. |
| Tiles.PreviewAsWrittenReopensSelectedTile | script.js:273-288 | As written, with one tile selected, the end of the preview turns that tile face down. A second click on the same tile is then accepted, although it was refused before the preview. |
| Tiles.SettleAfterPreviewKeepsSelection | script.js:280-287 | Corrected preview end: matched tiles stay matched, every other unselected tile ends face down, and selected tiles stay face up and unclickable. If only selected tiles were face up, the tiles come out unchanged. |
| Session.HistoryAfterTurn | script.js:188-196 | Turning an unmatched tile face up or down keeps every recorded match valid and the matched count at twice the history length. |
| Session.HistoryAfterMatch | script.js:206-208 | Marking two distinct face-up tiles with equal icons as matched and pushing them keeps the history valid, disjoint and fully counted. |
| Session.HistoryAfterUndo | script.js:297-298 | Popping the last match and turning its two tiles face down keeps the rest of the history valid, disjoint and fully counted. |
| Session.SelectionAfterClick | script.js:178-182 | An accepted click flips the tile and appends it. The selection stays distinct and face up, and input locks exactly when it holds two. |
| Session.SelectionAfterResolve | script.js:206-219 | Turning both selected tiles matched or face down and clearing the selection leaves no face-up tile, and input unlocked. |
| Session.SelectionAfterUndo | script.js:297-298 | Turning the tiles of a recorded match face down leaves the pending selection and the lock valid. |
| Session.PreviewAsWrittenBreaksInvariants | script.js:198-208 | After the as-written preview end and a second click on the lone selected tile i, the selection [i, i] breaks the selection invariant. Resolving it as a match marks one tile and pushes (i, i), which breaks the history invariant. |
| Session.PreviewAsWrittenMiscounts | script.js:198-208 | Starting from a valid history, the as-written preview end, a second click on the lone selected tile i, and its resolution as a match leave 2·(matches recorded before) + 1 matched tiles. The pair counter, one higher, then claims one more matched tile than there is. |
| Session.DealtBoardContents | script.js:115-118 | A shuffle of the paired icons has length 2·pairs and holds each of the first `pairs` theme icons exactly twice, and nothing else. |
| Session.FreshSession | script.js:124-134 | An all face-down (or empty) board with no selection, no history, zero counters and a stopped timer satisfies the session invariant. |
| Session.ClickKeepsInvariant | script.js:166-186 | An accepted click keeps the invariant. The state after it is: tile face up and appended, game started, timer running if it was running or the game had not started, and, when a pair is complete, one more move with input locked. |
| Session.MatchKeepsInvariant | script.js:204-213 | Resolving an equal pair keeps the invariant: both tiles matched, pair pushed, counter up by one (still at most the total), input unlocked. |
| Session.MismatchKeepsInvariant | script.js:214-221 | Resolving a different pair keeps the invariant: both tiles face down, history and counters unchanged, input unlocked. |
| Session.UndoKeepsInvariant | script.js:294-302 | Undoing the last match keeps the invariant in any selection or lock state. Its tiles turn face down, and the pair and move counters both drop by one without going negative. |
| MemoryGame.Game.constructor | script.js:86-99 | A new session: empty board, no selection or history, zero counters, stopped timer, emoji theme, easy difficulty. |
| MemoryGame.Game.Reset | script.js:124-134 | Clears board, selection, history and counters, unlocks input and stops the timer. Keeps pair total, theme and difficulty. |
| MemoryGame.Game.Init | script.js:101-122 | Records theme and difficulty and sets the pair total to half the grid size. Deals a board with each of the first that-many theme icons exactly twice, all face down, with every other counter cleared. |
| MemoryGame.Game.Restart | script.js:290-292 | Deals a new board with the same theme and difficulty, with the same guarantees as `Init`. |
| MemoryGame.Game.HandleTileClick | script.js:166-186 | A refused click (input locked, two selected, or tile face up or matched) changes nothing. An accepted click gives exactly the new state of `ClickKeepsInvariant`, and nothing else changes. |
| MemoryGame.Game.Resolve | script.js:198-222 | Equal icons: tiles matched, counter +1, pair pushed, and won iff all pairs are found, in which case the timer stops. Different icons: tiles face down. Either way the selection is cleared and input unlocked. |
| MemoryGame.Game.CheckWin | script.js:236-243 | Reports a win exactly when the pair counter reaches the total, and then stops the timer. |
| MemoryGame.Game.Undo | script.js:294-302 | No recorded match: nothing changes. Otherwise the last match is popped, its tiles turned face down, and pair and move counters drop by one; nothing else changes. |
| MemoryGame.Game.Tick | script.js:252-257 | The timer adds one second exactly while it runs. |
| MemoryGame.Game.Preview | script.js:273-288 | With the corrected preview end, the tiles after a preview are exactly the tiles before it. |
| MemoryGame.WonIffAllMatched | script.js:236-237 | On a dealt board the pair counter equals the total exactly when every tile is matched. |
| MemoryGame.NoClickAfterWin | script.js:166-171 | Once every pair is found, no click is accepted. |

## Left out

- Rendering (`renderBoard`, `updateUI`, `showWinModal`), the `Confetti` animation and the `App` screen and button wiring are user interface, not game state. They are not part of this model.
- The 500 ms delay before the win dialog, the 400 ms and 800 ms pair-check delays and the 1500 ms preview delay are not modelled as time. `Resolve` stands for the moment the pair-check delay expires.
- Real timers: `setInterval` is the field `timerRunning` plus one call of `Tick` per second, and `timerInterval` is reduced to that flag.
- A pair-check callback still scheduled when `reset` or `restart` runs fires later against the new board. The model has no pending callbacks, so `Resolve` is only called on a locked pending pair.
- BoardGen.ShuffleArray: the uniform distribution of `Math.random` is not modelled. The random index is an arbitrary choice in the allowed range, and the contract holds for every choice.
- Unknown theme or difficulty names: the model uses enumerations, so neither can occur. In the code, an unknown theme makes `THEMES[theme]` undefined, and the `slice` call on it throws. An unknown difficulty makes the grid size undefined and the pair total NaN. `slice(0, NaN)` then returns an empty list, so the code deals an empty board with a NaN pair total and reports no error.
- Themes.ThemeIcons: icons are modelled as sequences of Unicode code points rather than JavaScript strings of UTF-16 units. Equality between icons is the same either way.
- MemoryGame.Game.Reset: the code leaves the old tile elements on the page until the next render. The model empties `tiles` together with `board`.
- MemoryGame.Game.HandleTileClick: a click on a position beyond the dealt tiles makes the code fail on the missing element. The model instead requires the index to be in range whenever the click gets past the first two checks.
- The page's 'flipped' and 'matched' classes are independent flags on each tile. The model folds them into three states: neither is face down, 'flipped' alone is face up, and 'matched' is matched. The code can also produce 'matched' without 'flipped'. To get it, click a tile a, start the preview and let it end, which removes 'flipped' from a while a stays selected. Then click a tile b with the same icon: the match marks both a and b, and a never had 'flipped' back. This is a second consequence of the preview defect under Findings. Folding it into Matched loses nothing, because every place the code reads the classes (the click guard and the preview's end) treats 'matched' the same with or without 'flipped'.
- MemoryGame.Game.Preview: the transient phase, in which every tile is face up under an overlay, is not modelled. Only the net effect on the tiles when the preview ends is modelled, using the corrected definition described under Findings.
- MemoryGame.Game.Undo: the code does not consult the input lock, and neither does the model. After an undo of the final pair, a later match can report a win again. That is kept as is.

## Findings

| source | as written | input that shows it | evidently intended | confidence | as-written member | corrected member |
|---|---|---|---|---|---|---|
| script.js:273-288 | When the preview ends, every unmatched tile is turned face down (`Tiles.SettleAfterPreviewAsWritten`), including a tile that is still selected and waiting for its partner. | Click tile i, start the preview, wait for it to end, then click tile i again. The click is accepted and the selection becomes [i, i]. Both entries share one icon, so it resolves as a match: the pair counter goes up and (i, i) is pushed with only one tile matched, so the matched tiles number one more than twice the matches recorded before it (`Session.PreviewAsWrittenMiscounts`). | A selected tile stays face up when the preview ends, so it cannot be clicked a second time (`Tiles.SettleAfterPreview`). | not executed | Tiles.PreviewAsWrittenReopensSelectedTile | Tiles.SettleAfterPreviewKeepsSelection |
