/**
 * Day 17, rocks pushed by jets of gas and falling into a seven-wide chamber
 * (csharp/solvers/Problem17.cs). The chamber map is a list of rows, row 0 the
 * lowest; a rock is a boolean matrix whose row 0 is its lowest line.
 */
module Problem17 {
  import opened Wrappers
  import Numerics
  import Text

  /** Every row the map grows by is a `new bool[7]`. */
  const ChamberWidth := 7
  /** A new rock appears two cells from the left wall ... */
  const StartLeft := 2
  /** ... with its lowest row four above the highest filled row, leaving three empty rows. */
  const StartGap := 4

  type Row = seq<bool>

  function EmptyRow(): (r: Row)
    ensures |r| == ChamberWidth && true !in r
  {
    seq(ChamberWidth, _ => false)
  }

  /** Every row of the map is as wide as the chamber. */
  predicate Rectangular(rows: seq<Row>)
  {
    forall i :: 0 <= i < |rows| ==> |rows[i]| == ChamberWidth
  }

  // ---------------------------------------------------------------------------
  // Rock patterns

  /** `char.IsWhiteSpace` on the Latin-1 range. */
  predicate IsWhiteSpace(c: char)
  {
    c == ' ' || '\t' <= c <= '\r' || c == '\U{0085}' || c == '\U{00A0}'
  }

  /** `s.TrimEnd()`: `s` without its trailing white space. */
  function TrimEnd(s: string): (r: string)
    ensures r <= s
    ensures r == [] || !IsWhiteSpace(r[|r| - 1])
    ensures forall i :: |r| <= i < |s| ==> IsWhiteSpace(s[i])
  {
    if s != [] && IsWhiteSpace(s[|s| - 1]) then TrimEnd(s[..|s| - 1]) else s
  }

  lemma TrimEndPlain(s: string)
    requires s != [] && !IsWhiteSpace(s[|s| - 1])
    ensures TrimEnd(s) == s
  {
  }

  /** Pieces of text, each trimmed at the end, the last piece first. */
  function TrimmedReversed(pieces: seq<string>): (lines: seq<string>)
    ensures |lines| == |pieces|
    ensures forall r :: 0 <= r < |pieces| ==> lines[r] == TrimEnd(pieces[|pieces| - 1 - r])
  {
    seq(|pieces|, r requires 0 <= r < |pieces| => TrimEnd(pieces[|pieces| - 1 - r]))
  }

  /** The pattern's lines, each trimmed at the end, the last line first. */
  function RockLines(pattern: string): (lines: seq<string>)
    ensures |lines| == |Text.Split(pattern, '\n')| >= 1
  {
    TrimmedReversed(Text.Split(pattern, '\n'))
  }

  /** Cell (r, c) of the rock drawn by `lines`: set iff line r reaches column c with a `#`. */
  predicate PatternCell(lines: seq<string>, r: int, c: int)
    requires 0 <= r < |lines|
  {
    0 <= c < |lines[r]| && lines[r][c] == '#'
  }

  /** Some line is longer than the first, so filling the matrix sized by the first line runs off its side. */
  predicate Ragged(lines: seq<string>)
    requires |lines| >= 1
  {
    exists r :: 0 <= r < |lines| && |lines[r]| > |lines[0]|
  }

  /** A rock, the source's `bool[,]`: its two dimensions and its cells, row 0 lowest. */
  datatype Rock = Rock(height: nat, width: nat, cells: seq<seq<bool>>)
  {
    /** `rock[i, j]`, false outside the stored cells. */
    predicate At(i: int, j: int)
    {
      0 <= i < |cells| && 0 <= j < |cells[i]| && cells[i][j]
    }
  }

  /** `rock` is the `|lines|` by `|lines[0]|` matrix whose cells are the pattern's `#`s. */
  ghost predicate IsShape(rock: Rock, lines: seq<string>)
    requires |lines| >= 1
  {
    rock.height == |lines| && rock.width == |lines[0]| &&
    forall r, c :: rock.At(r, c) <==> 0 <= r < |lines| && c < rock.width && PatternCell(lines, r, c)
  }

  /** The contents of a filled matrix, which nothing writes to after `TranslateRock`. */
  function Frozen(a: array2<bool>): (rock: Rock)
    reads a
    ensures rock.height == a.Length0 && rock.width == a.Length1
    ensures forall i, j :: rock.At(i, j) <==> 0 <= i < a.Length0 && 0 <= j < a.Length1 && a[i, j]
  {
    Rock(a.Length0, a.Length1, seq(a.Length0, i requires 0 <= i < a.Length0 reads a =>
      seq(a.Length1, j requires 0 <= j < a.Length1 reads a => a[i, j])))
  }

  /** `rock` holds the cells of the first `rows` lines of the pattern, and nothing above them. */
  predicate FilledBelow(rock: array2<bool>, lines: seq<string>, rows: int)
    reads rock
    requires rock.Length0 == |lines|
  {
    forall i, c :: 0 <= i < rock.Length0 && 0 <= c < rock.Length1 ==> rock[i, c] == (i < rows && PatternCell(lines, i, c))
  }

  /** One pass of `TranslateRock`'s outer loop: row `row` gets the `#`s of its line, or false when the line runs past the matrix. */
  method FillRow(rock: array2<bool>, lines: seq<string>, row: nat) returns (fits: bool)
    requires rock.Length0 == |lines| && row < |lines| && FilledBelow(rock, lines, row)
    modifies rock
    ensures fits <==> |lines[row]| <= rock.Length1
    ensures fits ==> FilledBelow(rock, lines, row + 1)
  {
    for c := 0 to |lines[row]|
      invariant c <= rock.Length1
      invariant forall i, c' :: 0 <= i < rock.Length0 && i != row && 0 <= c' < rock.Length1 ==>
        rock[i, c'] == (i < row && PatternCell(lines, i, c'))
      invariant forall c' :: 0 <= c' < rock.Length1 ==> rock[row, c'] == (c' < c && PatternCell(lines, row, c'))
    {
      if c >= rock.Length1 {
        return false;
      }
      rock[row, c] := lines[row][c] == '#';
    }
    return true;
  }

  /** `TranslateRock`: the rock a pattern draws, or the exception thrown filling a line longer than the first. */
  method TranslateRock(pattern: string) returns (r: Result<Rock>)
    ensures r.Failure? <==> Ragged(RockLines(pattern))
    ensures r.Failure? ==> r.error == IndexOutOfRangeException
    ensures r.Success? ==> IsShape(r.value, RockLines(pattern))
  {
    var lines := RockLines(pattern);
    var rock := new bool[|lines|, |lines[0]|]((_, _) => false);
    for row := 0 to |lines|
      invariant forall i :: 0 <= i < row ==> |lines[i]| <= |lines[0]|
      invariant FilledBelow(rock, lines, row)
    {
      var fits := FillRow(rock, lines, row);
      if !fits {
        return Failure(IndexOutOfRangeException);
      }
    }
    return Success(Frozen(rock));
  }

  /** A pattern line that survives splitting and trimming unchanged. */
  predicate PlainLine(s: string)
  {
    s != [] && '\n' !in s && !IsWhiteSpace(s[|s| - 1])
  }

  /** The drawings of the five rocks `ExecuteCoreAsync` writes, top line first: each is a full rectangle at most four wide. */
  function Shape(i: nat): (lines: seq<string>)
    requires i < 5
    ensures |lines| >= 1 && |lines[0]| <= 4
    ensures forall k :: 0 <= k < |lines| ==> PlainLine(lines[k]) && |lines[k]| == |lines[0]|
  {
    if i == 0 then ["####"]
    else if i == 1 then [".#.", "###", ".#."]
    else if i == 2 then ["..#", "..#", "###"]
    else if i == 3 then ["#", "#", "#", "#"]
    else ["##", "##"]
  }

  /** The five patterns, in order. */
  function Pattern(i: nat): string
    requires i < 5
  {
    Text.Joined(Shape(i), '\n')
  }

  /** Plain lines joined by newlines are read back as the same lines, last first. */
  lemma JoinedLines(pieces: seq<string>)
    requires |pieces| >= 1
    requires forall k :: 0 <= k < |pieces| ==> PlainLine(pieces[k])
    ensures RockLines(Text.Joined(pieces, '\n')) == seq(|pieces|, r requires 0 <= r < |pieces| => pieces[|pieces| - 1 - r])
  {
    Text.SplitJoined(pieces, '\n');
    PlainLinesKept(pieces);
  }

  /** Trimming leaves plain lines as they are. */
  lemma PlainLinesKept(pieces: seq<string>)
    requires forall k :: 0 <= k < |pieces| ==> PlainLine(pieces[k])
    ensures TrimmedReversed(pieces) == seq(|pieces|, r requires 0 <= r < |pieces| => pieces[|pieces| - 1 - r])
  {
    var lines := TrimmedReversed(pieces);
    forall r | 0 <= r < |pieces|
      ensures lines[r] == pieces[|pieces| - 1 - r]
    {
      TrimEndPlain(pieces[|pieces| - 1 - r]);
    }
  }

  /** No rock pattern is ragged, and every rock leaves room at `StartLeft`. */
  lemma PatternsFit(i: nat)
    requires i < 5
    ensures !Ragged(RockLines(Pattern(i))) && |RockLines(Pattern(i))[0]| <= ChamberWidth - StartLeft
  {
    var shape := Shape(i);
    JoinedLines(shape);
    var lines := RockLines(Pattern(i));
    forall r | 0 <= r < |lines|
      ensures |lines[r]| == |shape[0]|
    {
      assert lines[r] == shape[|shape| - 1 - r];
    }
  }

  // ---------------------------------------------------------------------------
  // Placing a rock on the map

  /** The rock's columns at `left` lie between the chamber walls. */
  predicate InWalls(rock: Rock, left: int)
  {
    0 <= left <= ChamberWidth - rock.width
  }

  /** `TryOverlay`'s verdict: inside the walls, above the floor, and no set cell of the rock on a filled cell. */
  predicate Fits(rows: seq<Row>, rock: Rock, bottom: int, left: int)
    requires Rectangular(rows) && bottom + rock.height <= |rows|
  {
    InWalls(rock, left) && 0 <= bottom &&
    forall i, j :: 0 <= i < rock.height && 0 <= j < rock.width && rock.At(i, j) ==> !rows[bottom + i][left + j]
  }

  /** Whether the rock placed at (bottom, left) has a set cell on map cell (i, j). */
  predicate Covers(rock: Rock, bottom: int, left: int, i: int, j: int)
  {
    bottom <= i < bottom + rock.height && left <= j < left + rock.width && rock.At(i - bottom, j - left)
  }

  /**
   * On map coordinates: a rock fits exactly when it is inside the walls and
   * above the floor and every map cell it covers lies in the chamber and is empty.
   */
  lemma FitsOnMap(rows: seq<Row>, rock: Rock, bottom: int, left: int)
    requires Rectangular(rows) && bottom + rock.height <= |rows|
    ensures Fits(rows, rock, bottom, left) <==>
      && InWalls(rock, left) && 0 <= bottom
      && forall i, j :: Covers(rock, bottom, left, i, j) ==> 0 <= i < |rows| && 0 <= j < ChamberWidth && !rows[i][j]
  {
    if InWalls(rock, left) && 0 <= bottom {
      if Fits(rows, rock, bottom, left) {
        forall i, j | Covers(rock, bottom, left, i, j)
          ensures 0 <= i < |rows| && 0 <= j < ChamberWidth && !rows[i][j]
        {
          assert rock.At(i - bottom, j - left);
        }
      }
      if forall i, j :: Covers(rock, bottom, left, i, j) ==> 0 <= i < |rows| && 0 <= j < ChamberWidth && !rows[i][j] {
        forall i, j | 0 <= i < rock.height && 0 <= j < rock.width && rock.At(i, j)
          ensures !rows[bottom + i][left + j]
        {
          assert Covers(rock, bottom, left, bottom + i, left + j);
        }
      }
    }
  }

  /** The map with the cells the rock covers at (bottom, left) set to `v` and every other cell as it was. */
  function Paint(rows: seq<Row>, rock: Rock, bottom: int, left: int, v: bool): (r: seq<Row>)
    ensures |r| == |rows|
    ensures forall i :: 0 <= i < |r| ==> |r[i]| == |rows[i]|
    ensures forall i, j :: 0 <= i < |r| && 0 <= j < |r[i]| ==>
      r[i][j] == if Covers(rock, bottom, left, i, j) then v else rows[i][j]
  {
    seq(|rows|, i requires 0 <= i < |rows| =>
      seq(|rows[i]|, j requires 0 <= j < |rows[i]| => if Covers(rock, bottom, left, i, j) then v else rows[i][j]))
  }

  /** Clearing a rock that was placed where it fitted gives back the map it was placed on. */
  lemma {:induction false} OverlayUndone(rows: seq<Row>, rock: Rock, bottom: int, left: int)
    requires Rectangular(rows) && bottom + rock.height <= |rows|
    requires Fits(rows, rock, bottom, left)
    ensures Paint(Paint(rows, rock, bottom, left, true), rock, bottom, left, false) == rows
  {
    var back := Paint(Paint(rows, rock, bottom, left, true), rock, bottom, left, false);
    forall i | 0 <= i < |rows|
      ensures back[i] == rows[i]
    {
      forall j | 0 <= j < |rows[i]|
        ensures back[i][j] == rows[i][j]
      {
        if Covers(rock, bottom, left, i, j) {
          assert rock.At(i - bottom, j - left);
        }
      }
    }
  }

  /** A placed rock fills cells, so it no longer fits where it was placed. */
  lemma OverlayBlocks(rows: seq<Row>, rock: Rock, bottom: int, left: int, i: int, j: int)
    requires Rectangular(rows) && bottom + rock.height <= |rows|
    requires Fits(rows, rock, bottom, left)
    requires 0 <= i < rock.height && 0 <= j < rock.width && rock.At(i, j)
    ensures !Fits(Paint(rows, rock, bottom, left, true), rock, bottom, left)
  {
    assert Covers(rock, bottom, left, bottom + i, left + j);
  }

  // ---------------------------------------------------------------------------
  // Column tops and the height of the tower

  /**
   * The scan of `GetSignature` and `TrimMap` over the rows from `lo` up: the
   * highest row whose column `c` is filled, or 0 when there is none.
   */
  function TopFrom(rows: seq<Row>, c: int, lo: nat): (t: nat)
    requires Rectangular(rows) && 0 <= c < ChamberWidth && lo <= |rows|
    decreases |rows| - lo
    ensures t == 0 || (lo <= t < |rows| && rows[t][c])
    ensures forall r :: lo <= r < |rows| && t < r ==> !rows[r][c]
    ensures (exists r :: lo <= r < |rows| && rows[r][c]) ==> lo <= t && rows[t][c]
  {
    if lo == |rows| then 0
    else
      var above := TopFrom(rows, c, lo + 1);
      if above == 0 && rows[lo][c] then lo else above
  }

  /** The column tops `GetSignature` returns: seven zeros for an empty map. */
  function Tops(rows: seq<Row>): (tops: seq<int>)
    requires Rectangular(rows)
    ensures |tops| == ChamberWidth
  {
    if |rows| == 0 then seq(ChamberWidth, _ => 0)
    else seq(ChamberWidth, c requires 0 <= c < ChamberWidth => TopFrom(rows, c, 0))
  }

  /** `Enumerable.Min`. */
  function MinOf(xs: seq<int>): (m: int)
    requires |xs| >= 1
    ensures m in xs && forall x :: x in xs ==> m <= x
  {
    if |xs| == 1 then xs[0]
    else
      var rest := MinOf(xs[1..]);
      assert forall x :: x in xs[1..] ==> x in xs;
      assert forall x :: x in xs ==> x == xs[0] || x in xs[1..];
      if xs[0] <= rest then xs[0] else rest
  }

  /** The rows `TrimMap` removes: the lowest column top, 0 when a column is empty. */
  function TrimEdge(rows: seq<Row>): (edge: nat)
    requires Rectangular(rows)
    ensures edge == 0 || edge < |rows|
    ensures |rows| > 0 ==> forall c :: 0 <= c < ChamberWidth ==> edge <= TopFrom(rows, c, 0)
    ensures edge > 0 ==> forall c :: 0 <= c < ChamberWidth ==> rows[TopFrom(rows, c, 0)][c]
  {
    if |rows| == 0 then 0
    else
      var tops := Tops(rows);
      assert forall c :: 0 <= c < ChamberWidth ==> tops[c] == TopFrom(rows, c, 0);
      var m := MinOf(tops);
      assert forall c :: 0 <= c < ChamberWidth ==> tops[c] in tops;
      assert forall c :: 0 <= c < ChamberWidth ==> m <= tops[c];
      m
  }

  /** `map.FindLastIndex(row => row.Any(s => s))`: the highest row holding rock, or -1. */
  function LastFilled(rows: seq<Row>): (t: int)
    ensures -1 <= t < |rows|
    ensures t >= 0 ==> true in rows[t]
    ensures forall i :: t < i < |rows| ==> true !in rows[i]
  {
    if |rows| == 0 then -1
    else if true in rows[|rows| - 1] then |rows| - 1
    else LastFilled(rows[..|rows| - 1])
  }

  /** Any row index with rock in it and nothing above is the one `LastFilled` finds. */
  lemma LastFilledUnique(rows: seq<Row>, t: int)
    requires -1 <= t < |rows|
    requires t >= 0 ==> true in rows[t]
    requires forall i :: t < i < |rows| ==> true !in rows[i]
    ensures LastFilled(rows) == t
  {
    var l := LastFilled(rows);
    if t >= 0 {
      assert true in rows[t];
    }
    if l >= 0 {
      assert true in rows[l];
    }
  }

  /** Dropping rows below the highest filled one lowers it by as many. */
  lemma LastFilledSuffix(rows: seq<Row>, k: nat)
    requires k <= LastFilled(rows)
    ensures LastFilled(rows[k..]) == LastFilled(rows) - k
  {
    var l := LastFilled(rows);
    var rest := rows[k..];
    assert rest[l - k] == rows[l];
    assert forall i :: l - k < i < |rest| ==> rest[i] == rows[i + k];
    LastFilledUnique(rest, l - k);
  }

  /** Trimming keeps the tower's height: the removed rows are what `lost` adds back. */
  lemma TrimKeepsHeight(rows: seq<Row>)
    requires Rectangular(rows)
    ensures LastFilled(rows[TrimEdge(rows)..]) + TrimEdge(rows) == LastFilled(rows)
  {
    var edge := TrimEdge(rows);
    if edge == 0 {
      assert rows[edge..] == rows;
    } else {
      var top := TopFrom(rows, 0, 0);
      assert true in rows[top] by {
        assert rows[top][0];
      }
      LastFilledSuffix(rows, edge);
    }
  }

  /** Trimming removes no column's top block: in a column with rock (at row `r`, say) it survives, shifted down by the trim. */
  lemma TrimKeepsTops(rows: seq<Row>, c: int, r: int)
    requires Rectangular(rows) && 0 <= c < ChamberWidth
    requires 0 <= r < |rows| && rows[r][c]
    ensures TrimEdge(rows) <= TopFrom(rows, c, 0)
    ensures rows[TrimEdge(rows)..][TopFrom(rows, c, 0) - TrimEdge(rows)][c]
  {
    ShiftedCell(rows, TrimEdge(rows), TopFrom(rows, c, 0), c);
  }

  lemma ShiftedCell(rows: seq<Row>, edge: nat, top: nat, c: int)
    requires edge <= top < |rows| && 0 <= c < |rows[top]| && rows[top][c]
    ensures rows[edge..][top - edge][c]
  {
  }

  // ---------------------------------------------------------------------------
  // Jets and the fall of one rock

  /** The shift jet number `jet` gives: the `switch` on `line[iJet % line.Length]`. */
  function JetShift(line: string, jet: nat): (r: Result<int>)
    ensures r.Success? ==> r.value == -1 || r.value == 1
  {
    if |line| == 0 then Failure(DivideByZeroException)
    else if line[jet % |line|] == '<' then Success(-1)
    else if line[jet % |line|] == '>' then Success(1)
    else Failure(SwitchExpressionException)
  }

  /** The jets repeat with the line's length, which is why the signature keeps only `iJet % line.Length`. */
  lemma JetsRepeat(line: string, jet: nat)
    requires |line| > 0
    ensures JetShift(line, jet) == JetShift(line, jet % |line|)
  {
  }

  /**
   * Where the rock at (bottom, left) comes to rest, with the jet counter after it:
   * each step takes the next jet, shifts the rock if the shifted rock fits, then
   * drops it a row if it fits there and stops otherwise.
   */
  function Fall(rows: seq<Row>, rock: Rock, line: string, jet: nat, bottom: int, left: int): (r: Result<(int, int, nat)>)
    requires Rectangular(rows) && 0 <= bottom && bottom + rock.height <= |rows|
    decreases bottom
    ensures r.Failure? ==> r.error == DivideByZeroException || r.error == SwitchExpressionException
    ensures r.Success? ==> 0 <= r.value.0 <= bottom && r.value.2 == jet + (bottom - r.value.0) + 1
    ensures r.Success? && InWalls(rock, left) ==>
      InWalls(rock, r.value.1) && !Fits(rows, rock, r.value.0 - 1, r.value.1)
    ensures r.Success? && Fits(rows, rock, bottom, left) ==> Fits(rows, rock, r.value.0, r.value.1)
  {
    match JetShift(line, jet)
    case Failure(e) => Failure(e)
    case Success(d) =>
      var moved := if Fits(rows, rock, bottom, left + d) then left + d else left;
      if Fits(rows, rock, bottom - 1, moved) then Fall(rows, rock, line, jet + 1, bottom - 1, moved)
      else Success((bottom, moved, jet + 1))
  }

  /** Above the highest filled row a rock between the walls always fits. */
  lemma FitsAboveTower(rows: seq<Row>, rock: Rock, bottom: int, left: int)
    requires Rectangular(rows) && bottom + rock.height <= |rows|
    requires InWalls(rock, left) && 0 <= bottom && LastFilled(rows) < bottom
    ensures Fits(rows, rock, bottom, left)
  {
    forall i, j | 0 <= i < rock.height && 0 <= j < rock.width && rock.At(i, j)
      ensures !rows[bottom + i][left + j]
    {
      assert true !in rows[bottom + i];
    }
  }

  /** The row a new rock's position is counted from: the highest filled row, or the top row of a map with no rock. */
  function StartTop(rows: seq<Row>): (t: int)
    ensures -1 <= t
  {
    var t := LastFilled(rows);
    if t == -1 then |rows| - 1 else t
  }

  /** The map grown with empty rows until it has at least `n`. */
  function Grow(rows: seq<Row>, n: int): (r: seq<Row>)
    decreases n - |rows|
    ensures |r| >= n && |r| >= |rows| && r[..|rows|] == rows
    ensures forall i :: |rows| <= i < |r| ==> r[i] == EmptyRow()
    ensures Rectangular(rows) ==> Rectangular(r)
  {
    if |rows| >= n then rows else Grow(rows + [EmptyRow()], n)
  }

  /** Growing adds only empty rows, so the highest filled row stays where it was. */
  lemma GrowKeepsTop(rows: seq<Row>, n: int)
    ensures LastFilled(Grow(rows, n)) == LastFilled(rows)
  {
    var g := Grow(rows, n);
    var l := LastFilled(rows);
    assert forall i :: 0 <= i < |rows| ==> g[i] == rows[i] by {
      assert forall i :: 0 <= i < |rows| ==> g[..|rows|][i] == g[i];
    }
    LastFilledUnique(g, l);
  }

  /** The row a new rock's lowest line starts on. */
  function StartBottom(rows: seq<Row>): (b: int)
    ensures b >= StartGap - 1
  {
    StartTop(rows) + StartGap
  }

  /** The map grown so that the new rock's rows exist. */
  function Room(rows: seq<Row>, rock: Rock): (r: seq<Row>)
    ensures Rectangular(rows) ==> Rectangular(r)
    ensures StartBottom(rows) + rock.height <= |r|
    ensures LastFilled(r) == LastFilled(rows)
  {
    GrowKeepsTop(rows, StartBottom(rows) + rock.height);
    Grow(rows, StartBottom(rows) + rock.height)
  }

  /**
   * One rock's fall after trimming: it appears at `StartLeft` and `StartBottom`
   * in the map grown to hold it; gives where it rests and the jet counter after.
   */
  function Landing(rows: seq<Row>, rock: Rock, line: string, jet: nat): (r: Result<(int, int, nat)>)
    requires Rectangular(rows)
  {
    Fall(Room(rows, rock), rock, line, jet, StartBottom(rows), StartLeft)
  }

  /** Drawing a rock that rests at most one row above the tower keeps the tower and raises it by at most the rock's height. */
  lemma PaintRaises(rows: seq<Row>, rock: Rock, b: int, l: int)
    requires Rectangular(rows) && 0 <= b <= LastFilled(rows) + 1
    ensures LastFilled(rows) <= LastFilled(Paint(rows, rock, b, l, true)) <= LastFilled(rows) + rock.height
  {
    var top := LastFilled(rows);
    var placed := Paint(rows, rock, b, l, true);
    var high := LastFilled(placed);
    if top >= 0 {
      var c :| 0 <= c < |rows[top]| && rows[top][c];
      assert placed[top][c];
      assert true in placed[top];
    }
    if high >= 0 {
      var c :| 0 <= c < |placed[high]| && placed[high][c];
      if !Covers(rock, b, l, high, c) {
        assert rows[high][c];
        assert true in rows[high];
      }
    }
  }

  /** A rock between the walls comes to rest no higher than just above the tower. */
  lemma RestsOnTower(rows: seq<Row>, rock: Rock, line: string, jet: nat, bottom: int, left: int)
    requires Rectangular(rows) && 0 <= bottom && bottom + rock.height <= |rows| && InWalls(rock, left)
    requires Fall(rows, rock, line, jet, bottom, left).Success?
    ensures Fall(rows, rock, line, jet, bottom, left).value.0 <= LastFilled(rows) + 1
  {
    var (b, l, _) := Fall(rows, rock, line, jet, bottom, left).value;
    if b > LastFilled(rows) + 1 {
      FitsAboveTower(rows, rock, b - 1, l);
    }
  }

  /** A dropped rock never lowers the tower and raises it by at most the rock's height. */
  lemma DropRaises(rows: seq<Row>, rock: Rock, line: string, jet: nat)
    requires Rectangular(rows) && InWalls(rock, StartLeft)
    requires Landing(rows, rock, line, jet).Success?
    ensures var d := Landing(rows, rock, line, jet).value;
      LastFilled(rows) <= LastFilled(Paint(Room(rows, rock), rock, d.0, d.1, true)) <= LastFilled(rows) + rock.height
  {
    var grown := Room(rows, rock);
    RestsOnTower(grown, rock, line, jet, StartBottom(rows), StartLeft);
    var d := Landing(rows, rock, line, jet).value;
    PaintRaises(grown, rock, d.0, d.1);
    var high := LastFilled(Paint(grown, rock, d.0, d.1, true));
    assert high <= LastFilled(grown) + rock.height;
  }

  // ---------------------------------------------------------------------------
  // The map as the list the source mutates

  /** `List<bool[]> map`: the rows are replaced as the source sets cells, adds rows and removes them. */
  class Chamber {
    var rows: seq<Row>

    predicate Valid()
      reads this
    {
      Rectangular(rows)
    }

    constructor ()
      ensures rows == []
    {
      rows := [];
    }

    /** `TryOverlay`: whether the rock fits at (bottom, left); the list indexer needs the rock's rows to exist. */
    method TryOverlay(rock: Rock, bottom: int, left: int) returns (fits: bool)
      requires Valid() && 0 < |rows| && bottom + rock.height <= |rows|
      ensures fits == Fits(rows, rock, bottom, left)
    {
      if left < 0 {
        return false;
      }
      if left > |rows[0]| - rock.width {
        return false;
      }
      if bottom < 0 {
        return false;
      }
      for i := 0 to rock.height
        invariant forall a, b :: 0 <= a < i && 0 <= b < rock.width && rock.At(a, b) ==> !rows[bottom + a][left + b]
      {
        for j := 0 to rock.width
          invariant forall a, b :: ((0 <= a < i && 0 <= b < rock.width) || (a == i && 0 <= b < j)) && rock.At(a, b) ==>
            !rows[bottom + a][left + b]
        {
          if rock.At(i, j) && rows[bottom + i][left + j] {
            return false;
          }
        }
      }
      return true;
    }

    /** The loops `Overlay` and `DeOverlay` share: every cell the rock covers set to `v`. */
    method Stamp(rock: Rock, bottom: int, left: int, v: bool)
      modifies this
      requires Valid() && InWalls(rock, left) && 0 <= bottom && bottom + rock.height <= |rows|
      ensures rows == Paint(old(rows), rock, bottom, left, v)
    {
      ghost var start := rows;
      for i := 0 to rock.height
        invariant |rows| == |start| && Rectangular(rows)
        invariant forall a, b :: 0 <= a < |rows| && 0 <= b < ChamberWidth ==>
          rows[a][b] == if a < bottom + i && Covers(rock, bottom, left, a, b) then v else start[a][b]
      {
        for j := 0 to rock.width
          invariant |rows| == |start| && Rectangular(rows)
          invariant forall a, b :: 0 <= a < |rows| && 0 <= b < ChamberWidth ==>
            rows[a][b] == if (a < bottom + i || (a == bottom + i && b < left + j)) && Covers(rock, bottom, left, a, b)
              then v else start[a][b]
        {
          if rock.At(i, j) {
            rows := rows[bottom + i := rows[bottom + i][left + j := v]];
          }
        }
      }
      ghost var painted := Paint(start, rock, bottom, left, v);
      assert forall a :: 0 <= a < |rows| ==> rows[a] == painted[a];
    }

    /** `Overlay`: the rock drawn into the map at (bottom, left), nothing else changed. */
    method Overlay(rock: Rock, bottom: int, left: int)
      modifies this
      requires Valid() && InWalls(rock, left) && 0 <= bottom && bottom + rock.height <= |rows|
      ensures rows == Paint(old(rows), rock, bottom, left, true)
    {
      Stamp(rock, bottom, left, true);
    }

    /** `DeOverlay`: the rock's cells at (bottom, left) cleared, nothing else changed. */
    method DeOverlay(rock: Rock, bottom: int, left: int)
      modifies this
      requires Valid() && InWalls(rock, left) && 0 <= bottom && bottom + rock.height <= |rows|
      ensures rows == Paint(old(rows), rock, bottom, left, false)
    {
      Stamp(rock, bottom, left, false);
    }

    /** The scan `GetSignature` and `TrimMap` both make, top row first. */
    method ScanTops() returns (tops: array<int>)
      requires Valid() && 0 < |rows|
      ensures fresh(tops) && tops[..] == Tops(rows)
    {
      tops := new int[|rows[0]|](_ => 0);
      var r := |rows| - 1;
      while r >= 0
        invariant -1 <= r < |rows| && tops.Length == ChamberWidth
        invariant forall c :: 0 <= c < ChamberWidth ==> tops[c] == TopFrom(rows, c, r + 1)
      {
        for c := 0 to tops.Length
          invariant forall c' :: 0 <= c' < c ==> tops[c'] == TopFrom(rows, c', r)
          invariant forall c' :: c <= c' < ChamberWidth ==> tops[c'] == TopFrom(rows, c', r + 1)
        {
          if rows[r][c] && tops[c] == 0 {
            tops[c] := r;
          }
        }
        r := r - 1;
      }
    }

    /** `GetSignature`: the top of every column, seven zeros for an empty map. */
    method GetSignature() returns (tops: array<int>)
      requires Valid()
      ensures fresh(tops) && tops[..] == Tops(rows)
    {
      if |rows| == 0 {
        tops := new int[ChamberWidth](_ => 0);
        return;
      }
      tops := ScanTops();
    }

    /** `TrimMap`: drops the rows below the lowest column top and returns how many. */
    method TrimMap() returns (edge: int)
      modifies this
      requires Valid()
      ensures edge == TrimEdge(old(rows)) && rows == old(rows)[edge..]
      ensures Valid()
    {
      if |rows| == 0 {
        return 0;
      }
      var tops := ScanTops();
      edge := MinOf(tops[..]);
      if edge > 0 {
        rows := rows[edge..];
      }
    }

    /** Where the next rock starts: the map grown with empty rows until the rock's rows exist. */
    method MakeRoom(rock: Rock) returns (bottom: int)
      modifies this
      requires Valid()
      ensures Valid() && rows == Room(old(rows), rock) && bottom == StartBottom(old(rows))
    {
      var top := LastFilled(rows);
      if top == -1 {
        top := |rows| - 1;
      }
      ghost var start := rows;
      while |rows| < top + StartGap + rock.height
        invariant Valid()
        invariant Grow(rows, top + StartGap + rock.height) == Grow(start, top + StartGap + rock.height)
        decreases top + StartGap + rock.height - |rows|
      {
        rows := rows + [EmptyRow()];
      }
      bottom := top + StartGap;
    }

    /**
     * One pass of the fall loop: the next jet's shift, kept if the shifted rock
     * fits, then whether the rock can drop a row.
     */
    method Push(rock: Rock, line: string, next: nat, bottom: int, left: int)
      returns (moved: int, dropped: bool, error: Option<Exception>)
      requires Valid() && 0 < |rows| && InWalls(rock, left) && 0 <= bottom && bottom + rock.height <= |rows|
      ensures error.Some? <==> JetShift(line, next).Failure?
      ensures error.Some? ==> Fall(rows, rock, line, next, bottom, left) == Failure(error.value)
      ensures error.None? ==> InWalls(rock, moved)
      ensures error.None? && dropped ==>
        1 <= bottom && Fall(rows, rock, line, next, bottom, left) == Fall(rows, rock, line, next + 1, bottom - 1, moved)
      ensures error.None? && !dropped ==> Fall(rows, rock, line, next, bottom, left) == Success((bottom, moved, next + 1))
    {
      if |line| == 0 {
        return left, false, Some(DivideByZeroException);
      }
      var shift;
      match line[next % |line|] {
        case '<' => shift := -1;
        case '>' => shift := 1;
        case _ => return left, false, Some(SwitchExpressionException);
      }
      var tryLeft := left + shift;
      var fits := TryOverlay(rock, bottom, tryLeft);
      moved := if fits then tryLeft else left;
      dropped := TryOverlay(rock, bottom - 1, moved);
      error := None;
    }

    /** The fall loop: passes until the rock cannot drop, then the rock drawn where it rests. */
    method Settle(rock: Rock, line: string, jet: nat, bottom: int, left: int) returns (next: nat, error: Option<Exception>)
      modifies this
      requires Valid() && 0 < |rows| && InWalls(rock, left) && 0 <= bottom && bottom + rock.height <= |rows|
      ensures Valid()
      ensures var f := Fall(old(rows), rock, line, jet, bottom, left);
        if error.None? then f.Success? && rows == Paint(old(rows), rock, f.value.0, f.value.1, true) && next == f.value.2
        else f == Failure(error.value) && rows == old(rows)
    {
      var (b, l) := (bottom, left);
      next := jet;
      ghost var rest := Fall(rows, rock, line, jet, bottom, left);
      while true
        invariant rows == old(rows)
        invariant InWalls(rock, l) && 0 <= b && b + rock.height <= |rows|
        invariant Fall(rows, rock, line, next, b, l) == rest
        decreases b
      {
        var moved, dropped;
        moved, dropped, error := Push(rock, line, next, b, l);
        if error.Some? {
          return;
        }
        if !dropped {
          Overlay(rock, b, moved);
          next := next + 1;
          return;
        }
        b, l, next := b - 1, moved, next + 1;
      }
    }

    /** The body of the loop over rocks after trimming: the map grown, then the rock's fall from its start. */
    method Drop(rock: Rock, line: string, jet: nat) returns (next: nat, error: Option<Exception>)
      modifies this
      requires Valid() && InWalls(rock, StartLeft)
      ensures Valid()
      ensures var d := Landing(old(rows), rock, line, jet);
        if error.None? then d.Success? && rows == Paint(Room(old(rows), rock), rock, d.value.0, d.value.1, true) && next == d.value.2
        else d == Failure(error.value) && rows == Room(old(rows), rock)
    {
      var bottom := MakeRoom(rock);
      next, error := Settle(rock, line, jet, bottom, StartLeft);
    }

    /** One turn of the loop over rocks: the map trimmed, then the rock dropped. */
    method Place(rock: Rock, line: string, jet: nat) returns (next: nat, trimmed: int, error: Option<Exception>)
      modifies this
      requires Valid() && InWalls(rock, StartLeft)
      ensures Valid() && trimmed == TrimEdge(old(rows))
      ensures error.Some? ==> error.value == DivideByZeroException || error.value == SwitchExpressionException
      ensures error.None? ==>
        LastFilled(old(rows)) <= LastFilled(rows) + trimmed <= LastFilled(old(rows)) + rock.height
    {
      ghost var start := rows;
      trimmed := TrimMap();
      TrimKeepsHeight(start);
      ghost var kept := rows;
      next, error := Drop(rock, line, jet);
      if error.None? {
        DropRaises(kept, rock, line, jet);
      }
    }
  }

  /** `Signature`: column tops, rock index and jet index, equal when all three are. */
  datatype Signature = Signature(heights: seq<int>, rockIndex: int, jetIndex: int)

  /** The height of the tower: the highest filled row, plus one, plus the rows no longer kept in the map. */
  function TowerHeight(rows: seq<Row>, lost: int): int
  {
    LastFilled(rows) + 1 + lost
  }

  /**
   * Rocks to skip when rock `i` repeats the signature seen `period` rocks
   * earlier: whole cycles, leaving at least one rock for the rest of this turn.
   */
  function Skip(i: int, period: int, iterations: int): (skip: int)
    requires 0 < period && i < iterations
    ensures 0 <= skip && i + skip < iterations && iterations <= i + skip + period
    ensures skip % period == 0
  {
    Numerics.DivNat(iterations - 1 - i, period);
    var cycles := (iterations - 1 - i) / period;
    WholeCycles(cycles, period);
    cycles * period
  }

  /** A whole number of cycles leaves no remainder. */
  lemma WholeCycles(q: nat, d: int)
    requires d > 0
    ensures q * d >= 0 && (q * d) % d == 0
  {
    Numerics.DivNat(q * d, d);
    Numerics.MulDivCancel(q, d);
  }

  /** The skip as lines 105 and 108 compute it: whole cycles up to `iterations` itself. */
  function SkipAsWritten(i: int, period: int, iterations: int): (skip: int)
    requires 0 < period && i < iterations
    ensures 0 <= skip && skip % period == 0
    ensures i + skip <= iterations < i + skip + period
  {
    Numerics.DivNat(iterations - i, period);
    var cycles := (iterations - i) / period;
    WholeCycles(cycles, period);
    cycles * period
  }

  /**
   * The skip as written reaches `iterations` exactly when the rocks left are a
   * whole number of cycles; the turn then still drops rock number `iterations`.
   */
  lemma SkipOvershoots(i: int, period: int, iterations: int)
    requires 0 < period && i < iterations
    ensures i + SkipAsWritten(i, period, iterations) == iterations <==> (iterations - i) % period == 0
    ensures i + SkipAsWritten(i, period, iterations) <= iterations
  {
    Numerics.DivNat(iterations - i, period);
  }

  /** Rock 5 repeating the signature of rock 0, with 10 rocks wanted: the skip as written leaves none, yet one more falls. */
  lemma SkipOvershootsExample()
    ensures 5 + SkipAsWritten(5, 5, 10) == 10
    ensures 5 + Skip(5, 5, 10) == 5
  {
  }

  /**
   * The repeat check at the top of a turn, while repeats are still tracked:
   * the signature of rock `i`, and the cycles to skip if it was seen before.
   */
  method Recall(chamber: Chamber, rocks: seq<Rock>, line: string, iterations: int, i: int, jet: nat,
                height: int, seen: map<Signature, (int, int)>)
    returns (skip: int, rise: int, remembered: Option<map<Signature, (int, int)>>, error: Option<Exception>)
    requires chamber.Valid() && 0 <= i < iterations
    requires forall s :: s in seen ==> seen[s].0 < i && seen[s].1 <= height
    ensures error.Some? <==> |rocks| == 0 || |line| == 0
    ensures error.Some? ==> error.value == DivideByZeroException
    ensures error.None? ==>
      var sig := Signature(Tops(chamber.rows), i % |rocks|, jet % |line|);
      if sig in seen then
        var period := i - seen[sig].0;
        remembered.None? && skip == Skip(i, period, iterations) && rise == (skip / period) * (height - seen[sig].1)
      else
        remembered == Some(seen[sig := (i, height)]) && skip == 0 && rise == 0
    ensures error.None? ==> 0 <= skip && i + skip < iterations && 0 <= rise
  {
    var tops := chamber.GetSignature();
    if |rocks| == 0 || |line| == 0 {
      return 0, 0, None, Some(DivideByZeroException);
    }
    var sig := Signature(tops[..], i % |rocks|, jet % |line|);
    error := None;
    if sig in seen {
      var (at, earlier) := seen[sig];
      var period := i - at;
      skip := Skip(i, period, iterations);
      var cycles := skip / period;
      rise := cycles * (height - earlier);
      remembered := None;
    } else {
      skip, rise := 0, 0;
      remembered := Some(seen[sig := (i, height)]);
    }
  }

  /**
   * `RunExecution`: drops `iterations` rocks in turn, fast-forwarding by whole
   * cycles the first time a signature repeats, and returns the tower's height.
   */
  method Run(chamber: Chamber, rocks: seq<Rock>, line: string, iterations: int) returns (r: Result<int>, ghost dropped: nat, ghost skipped: nat, ghost removed: int)
    modifies chamber
    requires chamber.Valid() && forall i :: 0 <= i < |rocks| ==> InWalls(rocks[i], StartLeft)
    ensures r.Failure? ==> r.error == DivideByZeroException || r.error == SwitchExpressionException
    ensures r.Success? ==> r.value >= TowerHeight(old(chamber.rows), 0)
    ensures r.Success? ==> removed >= 0 && r.value == TowerHeight(chamber.rows, removed)
    ensures r.Success? && iterations >= 0 ==> dropped + skipped == iterations
    ensures (|line| == 0 || |rocks| == 0) && iterations > 0 ==> r == Failure(DivideByZeroException)
  {
    ghost var floor := TowerHeight(chamber.rows, 0);
    dropped, skipped := 0, 0;
    var jet: nat := 0;
    var lost := 0;
    var repeats: Option<map<Signature, (int, int)>> := Some(map[]);
    var i := 0;
    while i < iterations
      invariant chamber.Valid() && TowerHeight(chamber.rows, lost) >= floor && lost >= 0
      invariant repeats.Some? ==> forall s :: s in repeats.value ==>
        repeats.value[s].0 < i && repeats.value[s].1 <= TowerHeight(chamber.rows, lost)
      invariant 0 <= i && dropped + skipped == i && (iterations >= 0 ==> i <= iterations)
      invariant |line| == 0 || |rocks| == 0 ==> i == 0 && repeats.Some?
      decreases iterations - i
    {
      if repeats.Some? {
        var skip, rise, remembered, error := Recall(chamber, rocks, line, iterations, i, jet, TowerHeight(chamber.rows, lost), repeats.value);
        if error.Some? {
          return Failure(error.value), dropped, skipped, lost;
        }
        i, lost, repeats := i + skip, lost + rise, remembered;
        skipped := skipped + skip;
      }
      if |rocks| == 0 {
        return Failure(DivideByZeroException), dropped, skipped, lost;
      }
      var next, trimmed, error := chamber.Place(rocks[i % |rocks|], line, jet);
      if error.Some? {
        return Failure(error.value), dropped, skipped, lost;
      }
      jet, lost := next, lost + trimmed;
      i, dropped := i + 1, dropped + 1;
    }
    return Success(TowerHeight(chamber.rows, lost)), dropped, skipped, lost;
  }

  /**
   * `ExecuteCoreAsync`: the first input line is the jet pattern; the five
   * rocks are translated and a trillion of them dropped into an empty
   * chamber. No input line is `FirstAsync`'s exception, an empty jet line a
   * division by zero.
   */
  method ExecuteCore(data: seq<string>) returns (r: Result<int>)
    ensures data == [] ==> r == Failure(InvalidOperationException)
    ensures data != [] && data[0] == [] ==> r == Failure(DivideByZeroException)
    ensures r.Failure? ==> r.error == InvalidOperationException || r.error == DivideByZeroException || r.error == SwitchExpressionException
    ensures r.Success? ==> r.value >= 0
  {
    if data == [] {
      return Failure(InvalidOperationException);
    }
    var line := data[0];
    var rocks: seq<Rock> := [];
    for i := 0 to 5
      invariant |rocks| == i && forall k :: 0 <= k < i ==> InWalls(rocks[k], StartLeft)
    {
      PatternsFit(i);
      var rock := TranslateRock(Pattern(i));
      rocks := rocks + [rock.value];
    }
    var chamber := new Chamber();
    var height, _, _, _ := Run(chamber, rocks, line, 1_000_000_000_000);
    return height;
  }
}
