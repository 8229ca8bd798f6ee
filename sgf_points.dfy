/**
 * SGF point and move values: the letters a-z and A-Z for the coordinates
 * 0-51, a point as two letters (column then row), a move as a point, the
 * empty value or "tt" for a pass, and composed "lt:rb" rectangles.
 */
module SgfPoints {
  import opened Stones
  import opened Geometry
  import opened Wrappers

  predicate IsPointLetter(c: char) {
    ('a' <= c <= 'z') || ('A' <= c <= 'Z')
  }

  /** The coordinate a letter stands for: a-z are 0-25, A-Z are 26-51; anything else is an error. */
  function FromLetter(c: char): (r: Result<int>)
    ensures r.Success? <==> IsPointLetter(c)
    ensures r.Success? ==> 0 <= r.value <= 51 && (r.value < 26 <==> 'a' <= c <= 'z')
  {
    if 'a' <= c <= 'z' then Success(c as int - 'a' as int)
    else if 'A' <= c <= 'Z' then Success(c as int - 'A' as int + 26)
    else Failure("Invalid point character")
  }

  const OUT_OF_RANGE := "SGF coordinates out of range"

  /** The letter of a coordinate; coordinates outside 0-51 are an error. */
  function ToSGFPointLetter(n: int): (r: Result<char>)
    ensures r.Success? <==> 0 <= n <= 51
    ensures r.Success? ==> IsPointLetter(r.value)
  {
    if !(0 <= n <= 51) then Failure(OUT_OF_RANGE)
    else if n < 26 then Success((0x61 + n) as char)
    else Success((0x41 - 26 + n) as char)
  }

  /** Every coordinate 0-51 comes back from its letter. */
  lemma LetterRoundTrip(n: int)
    requires 0 <= n <= 51
    ensures ToSGFPointLetter(n).Success? && FromLetter(ToSGFPointLetter(n).value) == Success(n)
  {
  }

  /** Every letter comes back from its coordinate. */
  lemma CoordinateRoundTrip(c: char)
    requires IsPointLetter(c)
    ensures ToSGFPointLetter(FromLetter(c).value) == Success(c)
  {
  }

  /** A point as column letter then row letter. */
  function ToSGFPointXY(x: int, y: int): (r: Result<string>)
    ensures r.Success? <==> 0 <= x <= 51 && 0 <= y <= 51
    ensures r.Success? ==> |r.value| == 2
  {
    var cx :- ToSGFPointLetter(x);
    var cy :- ToSGFPointLetter(y);
    Success([cx, cy])
  }

  /**
   * The coordinates of a point value: the first two characters are letters
   * and the point is on the `w` x `h` board; characters after the second are
   * not looked at.
   */
  function ParseSGFPointXY(value: string, w: int, h: int): (r: Result<(int, int)>)
    ensures r.Success? <==>
      && |value| >= 2 && IsPointLetter(value[0]) && IsPointLetter(value[1])
      && FromLetter(value[0]).value < w && FromLetter(value[1]).value < h
    ensures r.Success? ==> r.value == (FromLetter(value[0]).value, FromLetter(value[1]).value)
  {
    if |value| == 0 then Failure("Invalid point character")
    else
      var x :- FromLetter(value[0]);
      if |value| == 1 then Failure("Invalid point character")
      else
        var y :- FromLetter(value[1]);
        if !(x >= 0 && y >= 0 && x < w && y < h) then Failure("Out of board")
        else Success((x, y))
  }

  /** A point on a board of at most 52 x 52 comes back from its two letters. */
  lemma PointRoundTrip(x: int, y: int, w: int, h: int)
    requires 0 <= x < w <= 52 && 0 <= y < h <= 52
    ensures ToSGFPointXY(x, y).Success? && ParseSGFPointXY(ToSGFPointXY(x, y).value, w, h) == Success((x, y))
  {
    LetterRoundTrip(x);
    LetterRoundTrip(y);
  }

  function ParseSGFPoint(value: string, w: int, h: int): (r: Result<int>)
    ensures r.Success? <==> ParseSGFPointXY(value, w, h).Success?
    ensures r.Success? ==> var (x, y) := ParseSGFPointXY(value, w, h).value; r.value == ToPosition(x, y, w)
  {
    var (x, y) :- ParseSGFPointXY(value, w, h);
    Success(ToPosition(x, y, w))
  }

  /** A move value: empty is a pass, so is "tt" on a 19 x 19 board only; otherwise a point. */
  function ParseSGFMove(value: string, w: int, h: int): (r: Result<int>)
    ensures value == "" ==> r == Success(POS_PASS)
    ensures value == "tt" && w == 19 && h == 19 ==> r == Success(POS_PASS)
    ensures value != "" && !(value == "tt" && w == 19 && h == 19) ==> r == ParseSGFPoint(value, w, h)
  {
    if value == "" || (value == "tt" && (w == 19 && h == 19)) then Success(POS_PASS)
    else ParseSGFPoint(value, w, h)
  }

  /** "tt" is the point (19, 19) on a board larger than 19 x 19 both ways, and an error on any other board but 19 x 19. */
  lemma TtIsPassOnlyOn19(w: int, h: int)
    ensures w == 19 && h == 19 ==> ParseSGFMove("tt", w, h) == Success(POS_PASS)
    ensures !(w == 19 && h == 19) && w > 19 && h > 19 ==> ParseSGFMove("tt", w, h) == Success(ToPosition(19, 19, w))
    ensures !(w == 19 && h == 19) && (w <= 19 || h <= 19) ==> ParseSGFMove("tt", w, h).Failure?
  {
    assert FromLetter('t') == Success(19);
  }

  /** A move on the board written as its point comes back, on any board of at most 52 x 52. */
  lemma MoveRoundTrip(x: int, y: int, w: int, h: int)
    requires 0 <= x < w <= 52 && 0 <= y < h <= 52
    ensures ParseSGFMove(ToSGFPointXY(x, y).value, w, h) == Success(ToPosition(x, y, w))
  {
    PointRoundTrip(x, y, w, h);
    var v := ToSGFPointXY(x, y).value;
    if v == "tt" {
      assert FromLetter(v[0]) == Success(19);
    }
  }

  function ToSGFColor(color: int): string {
    if color == BLACK then "B" else if color == WHITE then "W" else "E"
  }

  // ----- composed values -----

  /** The positions, from `i` on, of the colons that no backslash escapes; a backslash hides the character after it. */
  function UnescapedColons(v: string, i: nat): seq<int>
    decreases |v| - i
  {
    if i >= |v| then []
    else if v[i] == '\\' then UnescapedColons(v, i + 2)
    else if v[i] == ':' then [i] + UnescapedColons(v, i + 1)
    else UnescapedColons(v, i + 1)
  }

  /** The unescaped colons found from `i` on are colons of `v`, at or after `i`, in increasing order. */
  lemma UnescapedColonsAreColons(v: string, i: nat)
    ensures forall k :: 0 <= k < |UnescapedColons(v, i)| ==>
      i <= UnescapedColons(v, i)[k] < |v| && v[UnescapedColons(v, i)[k]] == ':'
    ensures forall k, l :: 0 <= k < l < |UnescapedColons(v, i)| ==> UnescapedColons(v, i)[k] < UnescapedColons(v, i)[l]
  {
    UnescapedColonsWithin(v, i);
    UnescapedColonsIncrease(v, i);
  }

  /** The unescaped colons are colons of `v` at or after `i`. */
  lemma {:induction false} UnescapedColonsWithin(v: string, i: nat)
    ensures forall k :: 0 <= k < |UnescapedColons(v, i)| ==>
      i <= UnescapedColons(v, i)[k] < |v| && v[UnescapedColons(v, i)[k]] == ':'
    decreases |v| - i
  {
    if i < |v| {
      if v[i] == '\\' {
        UnescapedColonsWithin(v, i + 2);
      } else if v[i] == ':' {
        UnescapedColonsWithin(v, i + 1);
        var cs, rest := UnescapedColons(v, i), UnescapedColons(v, i + 1);
        assert cs == [i] + rest;
        forall k | 0 <= k < |cs| ensures i <= cs[k] < |v| && v[cs[k]] == ':' {
          if k > 0 {
            assert cs[k] == rest[k - 1];
          }
        }
      } else {
        UnescapedColonsWithin(v, i + 1);
      }
    }
  }

  /** The unescaped colons come in increasing order. */
  lemma {:induction false} UnescapedColonsIncrease(v: string, i: nat)
    ensures forall k, l :: 0 <= k < l < |UnescapedColons(v, i)| ==> UnescapedColons(v, i)[k] < UnescapedColons(v, i)[l]
    decreases |v| - i
  {
    if i < |v| {
      if v[i] == '\\' {
        UnescapedColonsIncrease(v, i + 2);
      } else if v[i] == ':' {
        UnescapedColonsIncrease(v, i + 1);
        UnescapedColonsWithin(v, i + 1);
        var cs, rest := UnescapedColons(v, i), UnescapedColons(v, i + 1);
        assert cs == [i] + rest;
        forall k, l | 0 <= k < l < |cs| ensures cs[k] < cs[l] {
          assert cs[l] == rest[l - 1];
          if k > 0 {
            assert cs[k] == rest[k - 1];
          }
        }
      } else {
        UnescapedColonsIncrease(v, i + 1);
      }
    }
  }

  /**
   * Splits a composed value at its one unescaped colon; a value without
   * one is a single value, and a second unescaped colon is an error.
   */
  method SplitSGFCompose(value: string) returns (r: Result<seq<string>>)
    ensures var cs := UnescapedColons(value, 0);
      && (r.Failure? <==> |cs| >= 2)
      && (|cs| == 0 ==> r == Success([value]))
      && (|cs| == 1 ==> 0 <= cs[0] < |value| && value[cs[0]] == ':' && r == Success([value[..cs[0]], value[cs[0] + 1..]]))
    ensures r.Success? && |r.value| == 2 ==> r.value[0] + ":" + r.value[1] == value
  {
    var colonPos := -1;
    var i := 0;
    while i < |value|
      invariant 0 <= i <= |value| + 1
      invariant colonPos == -1 || 0 <= colonPos < |value|
      invariant UnescapedColons(value, 0) == (if colonPos == -1 then [] else [colonPos]) + UnescapedColons(value, i)
    {
      if value[i] == '\\' {
        i := i + 1;
      } else if value[i] == ':' {
        if colonPos != -1 {
          return Failure("Too many colon in compose value");
        }
        colonPos := i;
      }
      i := i + 1;
    }
    if colonPos == -1 {
      return Success([value]);
    }
    UnescapedColonsAreColons(value, 0);
    assert UnescapedColons(value, 0)[0] == colonPos;
    assert value == value[..colonPos] + [value[colonPos]] + value[colonPos + 1..];
    return Success([value[..colonPos], value[colonPos + 1..]]);
  }

  /** The positions of row `y` from column `x0` to column `x1`, left to right. */
  function RowPoints(x0: int, x1: int, y: int, w: int): (r: seq<int>)
    ensures |r| == if x1 < x0 then 0 else x1 - x0 + 1
  {
    if x1 < x0 then [] else seq(x1 - x0 + 1, i => ToPosition(x0 + i, y, w))
  }

  /** The positions of the rectangle (x0, y0)-(x1, y1), row by row from the top. */
  function RectPoints(x0: int, y0: int, x1: int, y1: int, w: int): seq<int>
    decreases y1 - y0
  {
    if y1 < y0 then [] else RectPoints(x0, y0, x1, y1 - 1, w) + RowPoints(x0, x1, y1, w)
  }

  /** Each point of the rectangle is listed. */
  lemma {:induction false} RectPointsCover(x0: int, y0: int, x1: int, y1: int, w: int)
    ensures forall x, y :: x0 <= x <= x1 && y0 <= y <= y1 ==> ToPosition(x, y, w) in RectPoints(x0, y0, x1, y1, w)
    decreases y1 - y0
  {
    if y1 >= y0 {
      RectPointsCover(x0, y0, x1, y1 - 1, w);
      var above, row := RectPoints(x0, y0, x1, y1 - 1, w), RowPoints(x0, x1, y1, w);
      forall x, y | x0 <= x <= x1 && y0 <= y <= y1
        ensures ToPosition(x, y, w) in RectPoints(x0, y0, x1, y1, w)
      {
        if y == y1 {
          assert row[x - x0] == ToPosition(x, y, w);
        }
      }
    }
  }

  /** Each listed position is a point of the rectangle: its column and row lie in the rectangle's ranges. */
  lemma {:induction false} RectPointsInside(x0: int, y0: int, x1: int, y1: int, w: int)
    requires 0 <= x0 && x1 < w && 0 <= y0 && w >= 1
    ensures forall k :: 0 <= k < |RectPoints(x0, y0, x1, y1, w)| ==>
      var p := RectPoints(x0, y0, x1, y1, w)[k]; x0 <= ToX(w, p) <= x1 && y0 <= ToY(w, p) <= y1
    decreases y1 - y0
  {
    if y1 >= y0 {
      RectPointsInside(x0, y0, x1, y1 - 1, w);
      var above, row := RectPoints(x0, y0, x1, y1 - 1, w), RowPoints(x0, x1, y1, w);
      forall i | 0 <= i < |row|
        ensures x0 <= ToX(w, row[i]) <= x1 && ToY(w, row[i]) == y1
      {
        assert x0 <= x1 && row[i] == ToPosition(x0 + i, y1, w);
        DivModUnique(w, row[i], y1, x0 + i);
      }
      assert RectPoints(x0, y0, x1, y1, w) == above + row;
    }
  }

  /** The rectangle lists (x1 - x0 + 1) * (y1 - y0 + 1) positions, or none when it is empty. */
  lemma {:induction false} RectPointsLength(x0: int, y0: int, x1: int, y1: int, w: int)
    ensures |RectPoints(x0, y0, x1, y1, w)| == if x1 < x0 || y1 < y0 then 0 else (x1 - x0 + 1) * (y1 - y0 + 1)
    decreases y1 - y0
  {
    if y1 >= y0 {
      RectPointsLength(x0, y0, x1, y1 - 1, w);
      if x1 >= x0 {
        calc {
          |RectPoints(x0, y0, x1, y1, w)|;
          (x1 - x0 + 1) * (y1 - 1 - y0 + 1) + (x1 - x0 + 1);
          (x1 - x0 + 1) * (y1 - y0 + 1);
        }
      }
    }
  }

  /**
   * A point list value: a single point, or a composed "lt:rb" rectangle
   * expanded row by row (empty when rb lies left of or above lt).
   */
  method ParseSGFComposedPoint(value: string, w: int, h: int) returns (r: Result<seq<int>>)
    ensures var cs := UnescapedColons(value, 0);
      && (|cs| >= 2 ==> r.Failure?)
      && (|cs| == 0 ==> r == (var p :- ParseSGFPoint(value, w, h); Success([p])))
      && (|cs| == 1 ==>
            && 0 <= cs[0] < |value|
            && var lt, rb := ParseSGFPointXY(value[..cs[0]], w, h), ParseSGFPointXY(value[cs[0] + 1..], w, h);
            && (r.Success? <==> lt.Success? && rb.Success?)
            && (r.Success? ==> r.value == RectPoints(lt.value.0, lt.value.1, rb.value.0, rb.value.1, w)))
  {
    UnescapedColonsAreColons(value, 0);
    var values :- SplitSGFCompose(value);
    if |values| == 1 {
      var p :- ParseSGFPoint(values[0], w, h);
      return Success([p]);
    }
    var lt :- ParseSGFPointXY(values[0], w, h);
    var rb :- ParseSGFPointXY(values[1], w, h);
    var points := ListRect(lt.0, lt.1, rb.0, rb.1, w);
    return Success(points);
  }

  /** The rectangle's positions, produced by the parser's row-by-row loop. */
  method ListRect(x0: int, y0: int, x1: int, y1: int, w: int) returns (points: seq<int>)
    ensures points == RectPoints(x0, y0, x1, y1, w)
  {
    points := [];
    var y := y0;
    while y <= y1
      invariant y == y0 || y0 < y <= y1 + 1
      invariant points == RectPoints(x0, y0, x1, y - 1, w)
    {
      points := AppendRow(points, x0, x1, y, w);
      y := y + 1;
    }
  }

  /** The inner loop: appends the positions of row `y` from column `x0` to column `x1`. */
  method AppendRow(points0: seq<int>, x0: int, x1: int, y: int, w: int) returns (points: seq<int>)
    ensures points == points0 + RowPoints(x0, x1, y, w)
  {
    points := points0;
    var x := x0;
    while x <= x1
      invariant x == x0 || x0 < x <= x1 + 1
      invariant points == points0 + RowPoints(x0, x - 1, y, w)
    {
      assert RowPoints(x0, x, y, w) == RowPoints(x0, x - 1, y, w) + [ToPosition(x, y, w)];
      points := points + [ToPosition(x, y, w)];
      x := x + 1;
    }
    assert RowPoints(x0, x - 1, y, w) == RowPoints(x0, x1, y, w);
  }
}
