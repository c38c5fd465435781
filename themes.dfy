/** Configuration of the game: the icon sets of the three themes and the
    grid size of each difficulty. */
module Themes {

  /** An icon is the text shown on the face of a tile (usually one emoji),
      written as its sequence of Unicode code points. */
  type Icon = seq<int>

  datatype Theme = Emojis | Animals | Shapes

  datatype Difficulty = Easy | Medium | Hard

  /** No element of `s` occurs twice. */
  predicate Distinct<T(==)>(s: seq<T>)
  {
    forall i, j :: 0 <= i < j < |s| ==> s[i] != s[j]
  }

  /** The ordered icon list of each theme: twelve distinct icons, enough
      for the largest grid (ten pairs). */
  function ThemeIcons(theme: Theme): (icons: seq<Icon>)
    ensures |icons| == 12
  {
    match theme
    case Emojis =>
      [[0x1F600], [0x1F606], [0x1F607], [0x1F60E], [0x1F624], [0x1F925],
       [0x1F911], [0x1F631], [0x1F973], [0x1F972], [0x2639, 0xFE0F], [0x1F614]]
    case Animals =>
      [[0x1F436], [0x1F431], [0x1F98A], [0x1F43C], [0x1F435], [0x1F981],
       [0x1F438], [0x1F437], [0x1F43B], [0x1F984], [0x1F422], [0x1F419]]
    case Shapes =>
      [[0x25B2], [0x25CF], [0x25A0], [0x25C6], [0x2605], [0x2663],
       [0x2665], [0x2666], [0x2660], [0x25B6], [0x2726], [0x2736]]
  }

  /** No theme lists an icon twice, so the pairs of a board are told apart
      by their icons. */
  lemma ThemeIconsDistinct(theme: Theme)
    ensures Distinct(ThemeIcons(theme))
  {
  }

  /** Number of tiles on the board for each difficulty. */
  function GridSize(difficulty: Difficulty): (size: nat)
    ensures size % 2 == 0 && 12 <= size <= 20
  {
    match difficulty
    case Easy => 12
    case Medium => 16
    case Hard => 20
  }

  /** Number of pairs to find: half the grid, so at most ten, which every
      theme can supply. */
  function PairCount(difficulty: Difficulty): (pairs: nat)
    ensures 2 * pairs == GridSize(difficulty)
    ensures 6 <= pairs <= 10
  {
    GridSize(difficulty) / 2
  }
}
