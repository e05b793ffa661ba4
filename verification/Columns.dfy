/**
 * ANSI-aware column arithmetic of the terminal client. A line is a sequence of runes, offsets count runes, and `w`
 * gives the number of terminal columns of a rune.
 */
module Columns {
  const ESC: char := 0x1b as char

  type Width = char -> nat

  ghost predicate RuneWidths(w: Width) { w(' ') == 1 && forall r :: w(r) <= 2 }

  /** Whether the scan is inside an escape sequence after `s`. */
  predicate InEscape(s: string) {
    s != [] && (s[|s| - 1] == ESC || (InEscape(s[..|s| - 1]) && s[|s| - 1] != 'm'))
  }

  /** Rune number `i` takes part in the visible text. */
  predicate Visible(s: string, i: nat)
    requires i < |s|
  {
    s[i] != ESC && !InEscape(s[..i])
  }

  function Cols(w: Width, s: string): nat {
    if s == [] then 0 else Cols(w, s[..|s| - 1]) + if Visible(s, |s| - 1) then w(s[|s| - 1]) else 0
  }

  /** An escape lasts from ESC up to the next 'm'. */
  lemma {:induction false} InEscapeIff(s: string)
    ensures InEscape(s) <==> exists j: nat :: EscapeFrom(s, j)
  {
    if s != [] {
      var front, last := s[..|s| - 1], s[|s| - 1];
      InEscapeIff(front);
      if last == ESC {
        assert EscapeFrom(s, |front|);
      }
      if j: nat :| EscapeFrom(front, j) && last != 'm' {
        forall k | j < k < |s| ensures s[k] != 'm' { assert k < |front| ==> front[k] == s[k]; }
        assert EscapeFrom(s, j);
      }
      if j: nat :| EscapeFrom(s, j) {
        if j < |front| {
          forall k | j < k < |front| ensures front[k] != 'm' { assert front[k] == s[k]; }
          assert EscapeFrom(front, j);
        }
      }
    }
  }

  ghost predicate EscapeFrom(s: string, j: nat) { j < |s| && s[j] == ESC && forall k :: j < k < |s| ==> s[k] != 'm' }

  lemma RuneCols(w: Width, c: char)
    requires c != ESC
    ensures Cols(w, [c]) == w(c) && !InEscape([c])
  {
    assert [c][..0] == [];
    assert Cols(w, []) == 0 && !InEscape([]);
  }

  lemma {:induction false} OpenEscape(w: Width, e: string)
    requires 'm' !in e
    ensures Cols(w, [ESC] + e) == 0 && InEscape([ESC] + e)
  {
    var s := [ESC] + e;
    if e == [] {
      assert s[..0] == [] && Cols(w, []) == 0;
    } else {
      assert s[..|s| - 1] == [ESC] + e[..|e| - 1];
      OpenEscape(w, e[..|e| - 1]);
    }
  }

  /** An escape sequence takes no columns and hides nothing of what follows it. */
  lemma EscapeInvisible(w: Width, e: string, t: string)
    requires 'm' !in e
    ensures Cols(w, [ESC] + e + ['m'] + t) == Cols(w, t) && InEscape([ESC] + e + ['m'] + t) == InEscape(t)
  {
    var s := [ESC] + e + ['m'];
    OpenEscape(w, e);
    assert s[..|s| - 1] == [ESC] + e;
    ConcatClosed(w, s, t);
  }

  method VisColWidth(w: Width, s: string) returns (cols: nat)
    ensures cols == Cols(w, s)
  {
    cols := 0;
    var inEsc := false;
    for i := 0 to |s|
      invariant cols == Cols(w, s[..i]) && inEsc == InEscape(s[..i])
    {
      assert s[..i + 1][..i] == s[..i];
      if s[i] == ESC {
        inEsc := true;
      } else if inEsc {
        if s[i] == 'm' {
          inEsc := false;
        }
      } else {
        cols := cols + w(s[i]);
      }
    }
    assert s[..|s|] == s;
  }

  /** `k` is the first visible rune that starts at column `col` or later, or the end of the line. */
  ghost predicate IsCut(w: Width, s: string, col: int, k: nat) {
    && k <= |s|
    && (k < |s| ==> Visible(s, k) && Cols(w, s[..k]) >= col)
    && (forall i :: 0 <= i < k && Visible(s, i) ==> Cols(w, s[..i]) < col)
  }

  /** The first such rune at or after `i`. */
  function CutFrom(w: Width, s: string, col: int, i: nat): (k: nat)
    requires i <= |s| && forall j :: 0 <= j < i && Visible(s, j) ==> Cols(w, s[..j]) < col
    ensures IsCut(w, s, col, k)
    decreases |s| - i
  {
    if i == |s| || (Visible(s, i) && Cols(w, s[..i]) >= col) then i else CutFrom(w, s, col, i + 1)
  }

  function Cut(w: Width, s: string, col: int): (k: nat)
    ensures k <= |s| && IsCut(w, s, col, k)
  {
    CutFrom(w, s, col, 0)
  }

  method OffsetForCol(w: Width, s: string, col: int) returns (k: nat)
    ensures k == Cut(w, s, col)
  {
    var cur := 0;
    var inEsc := false;
    for i := 0 to |s|
      invariant cur == Cols(w, s[..i]) && inEsc == InEscape(s[..i])
      invariant forall j :: 0 <= j < i && Visible(s, j) ==> Cols(w, s[..j]) < col
    {
      assert s[..i + 1][..i] == s[..i];
      if s[i] == ESC {
        inEsc := true;
      } else if inEsc {
        if s[i] == 'm' {
          inEsc := false;
        }
      } else {
        if cur >= col {
          CutMonotone(w, s, col, i, col, Cut(w, s, col));
          return i;
        }
        cur := cur + w(s[i]);
      }
    }
    k := |s|;
    CutMonotone(w, s, col, k, col, Cut(w, s, col));
  }

  /** The cut is determined by the column and moves right with it. */
  lemma CutMonotone(w: Width, s: string, col: int, k: nat, col2: int, k2: nat)
    requires col <= col2 && IsCut(w, s, col, k) && IsCut(w, s, col2, k2)
    ensures k <= k2 && (col == col2 ==> k == k2)
  {
  }

  lemma {:induction false} ConcatClosed(w: Width, a: string, b: string)
    requires !InEscape(a)
    ensures InEscape(a + b) == InEscape(b) && Cols(w, a + b) == Cols(w, a) + Cols(w, b)
  {
    if b == [] {
      assert a + b == a;
    } else {
      var n := |b| - 1;
      assert (a + b)[..|a| + n] == a + b[..n];
      ConcatClosed(w, a, b[..n]);
    }
  }

  lemma CutClosed(w: Width, s: string, col: int, k: nat)
    requires IsCut(w, s, col, k) && (k == |s| ==> !InEscape(s))
    ensures !InEscape(s[..k])
  {
    assert s[..|s|] == s;
  }

  /** Visible width is additive across a cut. */
  lemma CutAdditive(w: Width, s: string, col: int, k: nat)
    requires IsCut(w, s, col, k)
    ensures Cols(w, s) == Cols(w, s[..k]) + Cols(w, s[k..])
  {
    assert s == s[..k] + s[k..];
    if k < |s| {
      ConcatClosed(w, s[..k], s[k..]);
    } else {
      assert s[k..] == [] && s[..k] == s;
    }
  }

  lemma {:induction false} PrefixAtMost(w: Width, s: string, col: nat, k: nat, i: nat)
    requires RuneWidths(w) && IsCut(w, s, col, k) && i <= k
    ensures Cols(w, s[..i]) <= col + 1
  {
    if i > 0 {
      assert s[..i][..i - 1] == s[..i - 1];
      PrefixAtMost(w, s, col, k, i - 1);
      assert Visible(s[..i], i - 1) == Visible(s, i - 1);
    }
  }

  /** The prefix before the cut is as wide as the column asked for, or one more. */
  lemma CutWidth(w: Width, s: string, col: nat, k: nat)
    requires RuneWidths(w) && IsCut(w, s, col, k) && col <= Cols(w, s)
    ensures col <= Cols(w, s[..k]) <= col + 1
  {
    PrefixAtMost(w, s, col, k, k);
    if k == |s| {
      assert s[..k] == s;
    }
  }

  /** A wide rune covers the columns on both sides of the boundary `col`. */
  ghost predicate Straddles(w: Width, s: string, col: nat) {
    exists i :: 0 <= i < |s| && Visible(s, i) && Cols(w, s[..i]) < col < Cols(w, s[..i]) + w(s[i])
  }

  lemma PrefixStep(w: Width, s: string, i: nat)
    requires i < |s|
    ensures Cols(w, s[..i + 1]) == Cols(w, s[..i]) + if Visible(s, i) then w(s[i]) else 0
  {
    assert s[..i + 1][..i] == s[..i];
    assert Visible(s[..i + 1], i) == Visible(s, i);
  }

  lemma {:induction false} PrefixMonotone(w: Width, s: string, i: nat, j: nat)
    requires i <= j <= |s|
    ensures Cols(w, s[..i]) <= Cols(w, s[..j])
    decreases j
  {
    if i < j {
      PrefixMonotone(w, s, i, j - 1);
      PrefixStep(w, s, j - 1);
    }
  }

  /** A prefix wider than `col` that starts no wider has a rune crossing it or reaching it. */
  lemma {:induction false} Crossing(w: Width, s: string, col: nat, k: nat)
    requires IsCut(w, s, col, k) && Cols(w, s[..k]) > col
    ensures Straddles(w, s, col)
    decreases k
  {
    var j := k;
    while Cols(w, s[..j]) > col
      invariant 0 <= j <= k
      invariant j < k ==> Straddles(w, s, col) || Cols(w, s[..j]) > col
      decreases j
    {
      PrefixStep(w, s, j - 1);
      if Cols(w, s[..j - 1]) <= col {
        assert Visible(s, j - 1);
      }
      j := j - 1;
    }
  }

  /** The cut overshoots by one column exactly when a wide rune straddles the boundary. */
  lemma OvershootIff(w: Width, s: string, col: nat, k: nat)
    requires RuneWidths(w) && IsCut(w, s, col, k) && col <= Cols(w, s)
    ensures Cols(w, s[..k]) == col + if Straddles(w, s, col) then 1 else 0
  {
    CutWidth(w, s, col, k);
    if Cols(w, s[..k]) > col {
      Crossing(w, s, col, k);
    }
    if Straddles(w, s, col) {
      var i :| 0 <= i < |s| && Visible(s, i) && Cols(w, s[..i]) < col < Cols(w, s[..i]) + w(s[i]);
      PrefixStep(w, s, i);
      if i >= k {
        PrefixMonotone(w, s, k, i);
      } else {
        PrefixMonotone(w, s, i + 1, k);
      }
    }
  }

  function Spaces(n: nat): (r: string)
    ensures |r| == n
  {
    seq(n, _ => ' ')
  }

  lemma {:induction false} SpacesWidth(w: Width, n: nat)
    requires RuneWidths(w)
    ensures Cols(w, Spaces(n)) == n && !InEscape(Spaces(n))
  {
    if n > 0 {
      assert Spaces(n)[..n - 1] == Spaces(n - 1);
      SpacesWidth(w, n - 1);
    }
  }

  /** `line` with `over` drawn at column `x`. */
  function Drawn(w: Width, line: string, over: string, x: int): string {
    if x > Cols(w, line) then line + Spaces(x - Cols(w, line)) + over
    else line[..Cut(w, line, x)] + over + line[Cut(w, line, x + Cols(w, over))..]
  }

  /**
   * The overlay stands in the line unchanged: between the line up to its column and the line from the column behind it,
   * or behind the whole line and the spaces that fill the gap.
   */
  lemma DrawnContent(w: Width, line: string, over: string, x: int) returns (left: string, right: string)
    ensures Drawn(w, line, over, x) == left + over + right
    ensures x > Cols(w, line) ==> left == line + Spaces(x - Cols(w, line)) && right == ""
    ensures x <= Cols(w, line) ==>
              && left <= line && IsCut(w, line, x, |left|)
              && |right| <= |line| && right == line[|line| - |right|..]
              && IsCut(w, line, x + Cols(w, over), |line| - |right|)
    ensures RuneWidths(w) && 0 <= x <= Cols(w, line) ==> Cols(w, left) == x + if Straddles(w, line, x) then 1 else 0
  {
    if x > Cols(w, line) {
      left, right := line + Spaces(x - Cols(w, line)), "";
    } else {
      left, right := line[..Cut(w, line, x)], line[Cut(w, line, x + Cols(w, over))..];
      if RuneWidths(w) && 0 <= x {
        OvershootIff(w, line, x, Cut(w, line, x));
      }
    }
    hide Cols, Cut, IsCut, Straddles;
  }

  method DrawLine(w: Width, line: string, over: string, x: int) returns (r: string)
    ensures r == Drawn(w, line, over, x)
  {
    hide Cols, Cut;
    var cols := VisColWidth(w, line);
    var overCols := VisColWidth(w, over);
    if x > cols {
      r := line + Spaces(x - cols) + over;
    } else {
      var left := OffsetForCol(w, line, x);
      var right := OffsetForCol(w, line, x + overCols);
      r := line[..left] + over + line[right..];
    }
  }

  lemma DrawnWidth(w: Width, line: string, over: string, left: nat, right: nat)
    requires left <= |line| && right <= |line| && !InEscape(line[..left]) && !InEscape(over)
    ensures Cols(w, line[..left] + over + line[right..]) ==
            Cols(w, line[..left]) + Cols(w, over) + Cols(w, line[right..])
  {
    ConcatClosed(w, line[..left], over);
    ConcatClosed(w, line[..left] + over, line[right..]);
  }

  /**
   * An overlay that fits and ends outside an escape keeps the width of a line that ends outside an escape exactly when
   * both of its edges, or neither, fall inside a wide rune.
   */
  lemma OverlayKeepsWidthIff(w: Width, line: string, over: string, x: nat)
    requires RuneWidths(w) && !InEscape(line) && !InEscape(over) && x + Cols(w, over) <= Cols(w, line)
    ensures Cols(w, Drawn(w, line, over, x)) == Cols(w, line)
            <==> (Straddles(w, line, x) <==> Straddles(w, line, x + Cols(w, over)))
  {
    hide Cols, Cut, Straddles, InEscape, IsCut;
    var end := x + Cols(w, over);
    var left, right := Cut(w, line, x), Cut(w, line, end);
    CutClosed(w, line, x, left);
    DrawnWidth(w, line, over, left, right);
    CutAdditive(w, line, end, right);
    OvershootIff(w, line, x, left);
    OvershootIff(w, line, end, right);
  }

  /**
   * An overlay that sticks out past the end starts at its column, or one further when a wide rune covers that column.
   */
  lemma OverlayOverhang(w: Width, line: string, over: string, x: nat)
    requires RuneWidths(w) && !InEscape(line) && x <= Cols(w, line) < x + Cols(w, over)
    ensures Cols(w, Drawn(w, line, over, x)) == x + Cols(w, over) + if Straddles(w, line, x) then 1 else 0
  {
    var left, right := Cut(w, line, x), Cut(w, line, x + Cols(w, over));
    PrefixMonotone(w, line, right, |line|);
    assert line[..|line|] == line;
    assert right == |line|;
    hide Cols, Cut, Straddles, InEscape, IsCut;
    CutClosed(w, line, x, left);
    ConcatClosed(w, line[..left], over);
    OvershootIff(w, line, x, left);
    assert line[..left] + over + line[right..] == line[..left] + over;
  }

  /** Right of the line the gap is filled, so the overlay starts exactly at its column. */
  lemma OverlayPadded(w: Width, line: string, over: string, x: nat)
    requires RuneWidths(w) && !InEscape(line) && x > Cols(w, line)
    ensures Cols(w, Drawn(w, line, over, x)) == x + Cols(w, over)
  {
    var gap := x - Cols(w, line);
    SpacesWidth(w, gap);
    ConcatClosed(w, line, Spaces(gap));
    ConcatClosed(w, line + Spaces(gap), over);
  }

  /** The whole overlay: rows outside the screen are skipped, other rows keep their line. */
  method Placeover(w: Width, base: seq<string>, overlay: seq<string>, x: int, y: int) returns (result: seq<string>)
    ensures |result| == |base|
    ensures forall row :: 0 <= row < |base| ==>
      result[row] == if 0 <= row - y < |overlay| then Drawn(w, base[row], overlay[row - y], x) else base[row]
  {
    result := base;
    for i := 0 to |overlay|
      invariant |result| == |base|
      invariant forall row :: 0 <= row < |base| ==>
        result[row] == if 0 <= row - y < i then Drawn(w, base[row], overlay[row - y], x) else base[row]
    {
      var row := y + i;
      if 0 <= row < |result| {
        var line := DrawLine(w, result[row], overlay[i], x);
        result := result[row := line];
      }
    }
  }
}
