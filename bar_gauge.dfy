/** The text gauge drawn for one axis: a bracketed bar with a centre marker,
    filled leftward from the centre for a negative reading and rightward
    otherwise. The fill count, which the renderer derives from the clamped
    reading by float arithmetic, enters as a number together with the sign. */
module BarGauge {

  /** BAR_WIDTH: the number of cells on the two sides of the centre together. */
  const BarWidth: nat := 40
  const HalfWidth: nat := BarWidth / 2
  /** The length of every gauge whose fill fits in one half. */
  const BarLength: nat := 2 * HalfWidth + 3
  /** The index of the centre marker. */
  const Center: nat := HalfWidth + 1

  const EmptyChar: char := ' '
  const FillChar: char := '='
  const CenterChar: char := '|'

  /** `n` copies of `c`, appended one at a time as the renderer pushes them. */
  function Repeat(c: char, n: nat): (r: string)
    ensures |r| == n
    ensures forall i :: 0 <= i < n ==> r[i] == c
  {
    if n == 0 then [] else Repeat(c, n - 1) + [c]
  }

  /** `usize::saturating_sub`. */
  function SaturatingSub(x: nat, y: nat): (r: nat)
  {
    if y <= x then x - y else 0
  }

  /** What `draw_bar` returns, run by run. */
  function Bar(fillCount: nat, negative: bool): (bar: string)
  {
    var spaces := SaturatingSub(HalfWidth, fillCount);
    if negative then
      "[" + Repeat(EmptyChar, spaces) + Repeat(FillChar, fillCount) + [CenterChar] + Repeat(EmptyChar, HalfWidth) + "]"
    else
      "[" + Repeat(EmptyChar, HalfWidth) + [CenterChar] + Repeat(FillChar, fillCount) + Repeat(EmptyChar, spaces) + "]"
  }

  /** The intended look of the gauge, cell by cell: brackets at both ends, the
      centre marker in the middle, and `fillCount` fill cells adjacent to the
      centre on the side of the sign; every other cell is empty. */
  function Cell(fillCount: nat, negative: bool, i: nat): (c: char)
  {
    if i == 0 then '['
    else if i == BarLength - 1 then ']'
    else if i == Center then CenterChar
    else if negative && Center - fillCount <= i < Center then FillChar
    else if !negative && Center < i <= Center + fillCount then FillChar
    else EmptyChar
  }

  /** `draw_bar` with the fill count given: push '[', then in the sign's branch
      the runs of empty, fill and centre characters, then ']'. */
  method DrawBar(fillCount: nat, negative: bool) returns (bar: string)
    ensures bar == Bar(fillCount, negative)
    ensures bar[0] == '[' && bar[|bar| - 1] == ']'
    ensures fillCount <= HalfWidth ==> |bar| == BarLength
    ensures fillCount <= HalfWidth ==> forall i :: 0 <= i < BarLength ==> bar[i] == Cell(fillCount, negative, i)
  {
    bar := "[";
    if negative {
      var spaces := SaturatingSub(HalfWidth, fillCount);
      for k := 0 to spaces
        invariant bar == "[" + Repeat(EmptyChar, k)
      {
        bar := bar + [EmptyChar];
      }
      for k := 0 to fillCount
        invariant bar == "[" + Repeat(EmptyChar, spaces) + Repeat(FillChar, k)
      {
        bar := bar + [FillChar];
      }
      bar := bar + [CenterChar];
      ghost var left := bar;
      for k := 0 to HalfWidth
        invariant bar == left + Repeat(EmptyChar, k)
      {
        bar := bar + [EmptyChar];
      }
    } else {
      for k := 0 to HalfWidth
        invariant bar == "[" + Repeat(EmptyChar, k)
      {
        bar := bar + [EmptyChar];
      }
      bar := bar + [CenterChar];
      ghost var left := bar;
      for k := 0 to fillCount
        invariant bar == left + Repeat(FillChar, k)
      {
        bar := bar + [FillChar];
      }
      var spaces := SaturatingSub(HalfWidth, fillCount);
      ghost var filled := bar;
      for k := 0 to spaces
        invariant bar == filled + Repeat(EmptyChar, k)
      {
        bar := bar + [EmptyChar];
      }
    }
    bar := bar + "]";
    if fillCount <= HalfWidth {
      BarCells(fillCount, negative);
    }
  }

  /** When the fill fits in one half, the gauge has the same length for every
      fill and sign, and each cell is as `Cell` describes. */
  lemma BarCells(fillCount: nat, negative: bool)
    requires fillCount <= HalfWidth
    ensures |Bar(fillCount, negative)| == BarLength
    ensures forall i :: 0 <= i < BarLength ==> Bar(fillCount, negative)[i] == Cell(fillCount, negative, i)
  {
  }

  /** The number of occurrences of `c` in `s`. */
  function Count(s: string, c: char): (n: nat)
    ensures n <= |s|
  {
    if s == [] then 0 else Count(s[..|s| - 1], c) + (if s[|s| - 1] == c then 1 else 0)
  }

  lemma {:induction false} CountAppend(s: string, t: string, c: char)
    ensures Count(s + t, c) == Count(s, c) + Count(t, c)
  {
    if t != [] {
      assert (s + t)[..|s + t| - 1] == s + t[..|t| - 1];
      CountAppend(s, t[..|t| - 1], c);
    } else {
      assert s + t == s;
    }
  }

  lemma {:induction false} CountRepeat(d: char, n: nat, c: char)
    ensures Count(Repeat(d, n), c) == if d == c then n else 0
  {
    if n > 0 {
      assert Repeat(d, n)[..n - 1] == Repeat(d, n - 1);
      CountRepeat(d, n - 1, c);
    }
  }

  /** The counts of the gauge's characters for any fill and sign: exactly
      `fillCount` fill characters (none for a zero fill), exactly one centre
      marker, one bracket at each end. */
  lemma {:induction false} BarCounts(fillCount: nat, negative: bool)
    ensures Count(Bar(fillCount, negative), FillChar) == fillCount
    ensures Count(Bar(fillCount, negative), CenterChar) == 1
    ensures Count(Bar(fillCount, negative), '[') == 1 && Count(Bar(fillCount, negative), ']') == 1
  {
    var spaces := SaturatingSub(HalfWidth, fillCount);
    var e1 := Repeat(EmptyChar, spaces);
    var f := Repeat(FillChar, fillCount);
    var e2 := Repeat(EmptyChar, HalfWidth);
    forall c | c in {FillChar, CenterChar, '[', ']'}
      ensures Count(Bar(fillCount, negative), c) == (if c == FillChar then fillCount else 1)
    {
      CountRepeat(EmptyChar, spaces, c);
      CountRepeat(FillChar, fillCount, c);
      CountRepeat(EmptyChar, HalfWidth, c);
      assert Count("[", c) == (if c == '[' then 1 else 0) by { assert "["[..0] == []; }
      assert Count("]", c) == (if c == ']' then 1 else 0) by { assert "]"[..0] == []; }
      assert Count([CenterChar], c) == (if c == CenterChar then 1 else 0) by { assert [CenterChar][..0] == []; }
      if negative {
        CountAppend("[", e1, c);
        CountAppend("[" + e1, f, c);
        CountAppend("[" + e1 + f, [CenterChar], c);
        CountAppend("[" + e1 + f + [CenterChar], e2, c);
        CountAppend("[" + e1 + f + [CenterChar] + e2, "]", c);
      } else {
        CountAppend("[", e2, c);
        CountAppend("[" + e2, [CenterChar], c);
        CountAppend("[" + e2 + [CenterChar], f, c);
        CountAppend("[" + e2 + [CenterChar] + f, e1, c);
        CountAppend("[" + e2 + [CenterChar] + f + e1, "]", c);
      }
    }
  }

  /** Where the fill goes, when it fits in one half: the fill cells are exactly
      the `fillCount` cells next to the centre on the sign's side, and the
      other half is blank. */
  lemma FillPlacement(fillCount: nat, negative: bool)
    requires fillCount <= HalfWidth
    ensures var bar := Bar(fillCount, negative);
      |bar| == BarLength &&
      (forall i :: 0 <= i < BarLength ==>
        (bar[i] == FillChar <==>
          if negative then Center - fillCount <= i < Center else Center < i <= Center + fillCount)) &&
      (!negative ==> forall i :: 0 < i < Center ==> bar[i] == EmptyChar) &&
      (negative ==> forall i :: Center < i < BarLength - 1 ==> bar[i] == EmptyChar)
  {
    BarCells(fillCount, negative);
  }

  /** The centre marker appears once, always at `Center`, whatever the fill and sign. */
  lemma CenterMarkerOnce(fillCount: nat, negative: bool)
    requires fillCount <= HalfWidth
    ensures Count(Bar(fillCount, negative), CenterChar) == 1
    ensures Bar(fillCount, negative)[Center] == CenterChar
  {
    BarCells(fillCount, negative);
    BarCounts(fillCount, negative);
  }
}
