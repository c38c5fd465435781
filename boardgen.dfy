/** Board generation: the first `pairs` icons of a theme, each twice, in an
    order produced by a Fisher-Yates shuffle. */
module BoardGen {
  import opened Themes

  /** Fisher-Yates shuffle on a copy of `items`. Walking `i` down from the
      last index to 1, element `i` is swapped with some element `j` in
      `[0, i]`. The random choice of `j` is left arbitrary, so the contract
      holds for every choice the random source could make: the result is a
      permutation of the input, and the caller's sequence is a value that
      the shuffle cannot alter. */
  method ShuffleArray<T>(items: seq<T>) returns (shuffled: seq<T>)
    ensures |shuffled| == |items|
    ensures multiset(shuffled) == multiset(items)
  {
    var arr := new T[|items|](k requires 0 <= k < |items| => items[k]);
    assert arr[..] == items;
    var i := arr.Length - 1;
    while i > 0
      invariant -1 <= i < arr.Length
      invariant arr.Length > 0 ==> 0 <= i
      invariant multiset(arr[..]) == multiset(items)
    {
      var j :| 0 <= j <= i;
      arr[i], arr[j] := arr[j], arr[i];
      i := i - 1;
    }
    shuffled := arr[..];
  }

  /** The icons of a board before shuffling: the first `pairs` icons of the
      theme, followed by the same icons again. */
  function PairedIcons(theme: Theme, pairs: nat): (icons: seq<Icon>)
    requires pairs <= |ThemeIcons(theme)|
    ensures |icons| == 2 * pairs
    ensures forall k :: 0 <= k < pairs ==> icons[k] == icons[pairs + k] == ThemeIcons(theme)[k]
  {
    var selected := ThemeIcons(theme)[..pairs];
    selected + selected
  }

  /** In a sequence without repetitions every value occurs once or not at all. */
  lemma {:induction false} DistinctMultiplicity<T>(s: seq<T>, x: T)
    requires Distinct(s)
    ensures multiset(s)[x] == if x in s then 1 else 0
  {
    if s != [] {
      assert s == [s[0]] + s[1..];
      assert Distinct(s[1..]) by {
        forall i, j | 0 <= i < j < |s[1..]| ensures s[1..][i] != s[1..][j] {
          assert s[1..][i] == s[i + 1] && s[1..][j] == s[j + 1];
        }
      }
      DistinctMultiplicity(s[1..], x);
      if x == s[0] {
        assert x !in s[1..] by {
          forall k | 0 <= k < |s[1..]| ensures s[1..][k] != x {
            assert s[1..][k] == s[k + 1];
          }
        }
      }
    }
  }

  /** A prefix of a sequence without repetitions has none either. */
  lemma DistinctPrefix<T>(s: seq<T>, n: nat)
    requires Distinct(s) && n <= |s|
    ensures Distinct(s[..n])
  {
  }

  /** Every one of the first `pairs` icons of the theme appears exactly
      twice among the paired icons, and no other icon appears. */
  lemma PairedIconsEachTwice(theme: Theme, pairs: nat, x: Icon)
    requires pairs <= |ThemeIcons(theme)|
    ensures |PairedIcons(theme, pairs)| == 2 * pairs
    ensures multiset(PairedIcons(theme, pairs))[x] == if x in ThemeIcons(theme)[..pairs] then 2 else 0
  {
    var selected := ThemeIcons(theme)[..pairs];
    ThemeIconsDistinct(theme);
    DistinctPrefix(ThemeIcons(theme), pairs);
    DistinctMultiplicity(selected, x);
  }
}
