/** `AsciiMazeLoader.ParseAsciiMaze`: a text of `#`, space and `B` lines
    becomes a block grid (`true` is a wall) and the cell the ball starts on.
    The text is cut into lines by a pure pipeline (drop every `'\r'`, split
    on `'\n'`, drop the lines that are only white space); the grid is then
    filled cell by cell. */
module AsciiMaze {
  import opened Geometry

  // ---------------------------------------------------------------------
  // Lines of the text.

  /** `text.Replace("\r", "")`: the text with every carriage return left
      out and every other character kept, in order. */
  function RemoveCarriageReturns(text: string): (r: string)
    ensures '\r' !in r
    ensures forall ch :: ch in r <==> ch in text && ch != '\r'
    ensures '\r' !in text ==> r == text
    ensures |r| == |text| - multiset(text)['\r']
  {
    if text == [] then []
    else
      assert text == [text[0]] + text[1..];
      if text[0] == '\r' then RemoveCarriageReturns(text[1..])
      else [text[0]] + RemoveCarriageReturns(text[1..])
  }

  /** Carriage returns are dropped piece by piece: the kept characters of
      `a + b` are those of `a` followed by those of `b`, so with the
      single-character case above the order of the text is kept. */
  lemma {:induction false} RemoveCarriageReturnsAppend(a: string, b: string)
    ensures RemoveCarriageReturns(a + b) == RemoveCarriageReturns(a) + RemoveCarriageReturns(b)
  {
    if a == [] {
      assert a + b == b;
    } else {
      assert (a + b)[0] == a[0];
      assert (a + b)[1..] == a[1..] + b;
      RemoveCarriageReturnsAppend(a[1..], b);
    }
  }

  /** `s.Split(sep)`: the pieces between the separators, one more piece
      than there are separators, empty pieces included. */
  function Split(s: string, sep: char): (parts: seq<string>)
    ensures |parts| > 0
    ensures forall k :: 0 <= k < |parts| ==> sep !in parts[k]
  {
    if s == [] then [[]]
    else
      var rest := Split(s[1..], sep);
      if s[0] == sep then [[]] + rest
      else [[s[0]] + rest[0]] + rest[1..]
  }

  /** Every character of a piece comes from the text. */
  lemma {:induction false} SplitPieceChars(s: string, sep: char, k: int, ch: char)
    requires 0 <= k < |Split(s, sep)| && ch in Split(s, sep)[k]
    ensures ch in s
  {
    if s != [] {
      var rest := Split(s[1..], sep);
      if s[0] == sep {
        assert Split(s, sep)[k] == rest[k - 1];
        SplitPieceChars(s[1..], sep, k - 1, ch);
      } else if k == 0 {
        if ch != s[0] {
          assert ch in rest[0];
          SplitPieceChars(s[1..], sep, 0, ch);
        }
      } else {
        assert Split(s, sep)[k] == rest[k];
        SplitPieceChars(s[1..], sep, k, ch);
      }
    }
  }

  /** The pieces glued back together with `sep` between them. */
  function Join(parts: seq<string>, sep: char): string
    requires |parts| > 0
  {
    if |parts| == 1 then parts[0] else parts[0] + [sep] + Join(parts[1..], sep)
  }

  /** Splitting loses nothing: joining the pieces gives the text back. */
  lemma {:induction false} JoinSplit(s: string, sep: char)
    ensures Join(Split(s, sep), sep) == s
  {
    if s != [] {
      var rest := Split(s[1..], sep);
      JoinSplit(s[1..], sep);
      if s[0] == sep {
        assert Split(s, sep)[1..] == rest;
      } else {
        var parts := Split(s, sep);
        if |rest| == 1 {
          assert parts == [[s[0]] + rest[0]];
        } else {
          assert parts[1..] == rest[1..];
          assert Join(rest, sep) == rest[0] + [sep] + Join(rest[1..], sep);
        }
      }
    }
  }

  /** Splitting a text that starts with the separator: an empty first
      piece, then the pieces of the rest. */
  lemma SplitAfterSep(s: string, sep: char)
    ensures Split([sep] + s, sep) == [[]] + Split(s, sep)
  {
    assert ([sep] + s)[1..] == s;
  }

  /** Splitting a text that starts with another character: that character
      heads the first piece of the rest. */
  lemma SplitAfterChar(ch: char, s: string, sep: char)
    requires ch != sep
    ensures Split([ch] + s, sep) == [[ch] + Split(s, sep)[0]] + Split(s, sep)[1..]
  {
    assert ([ch] + s)[1..] == s;
  }

  /** Joining pieces whose first piece is empty: the separator, then the
      rest joined. */
  lemma JoinAfterEmpty(parts: seq<string>, sep: char)
    requires |parts| > 1 && parts[0] == []
    ensures Join(parts, sep) == [sep] + Join(parts[1..], sep)
  {
  }

  /** Joining pieces whose first piece is not empty: its first character,
      then the pieces with that character dropped, joined. */
  lemma JoinAfterChar(parts: seq<string>, sep: char)
    requires |parts| > 1 && parts[0] != []
    ensures Join(parts, sep) == [parts[0][0]] + Join([parts[0][1..]] + parts[1..], sep)
  {
    var shorter := [parts[0][1..]] + parts[1..];
    assert shorter[1..] == parts[1..];
    assert parts[0] == [parts[0][0]] + parts[0][1..];
  }

  /** Splitting finds the pieces again: pieces without the separator,
      joined, split back into the same pieces. */
  lemma {:induction false} SplitJoin(parts: seq<string>, sep: char)
    requires |parts| > 0 && forall k :: 0 <= k < |parts| ==> sep !in parts[k]
    ensures Split(Join(parts, sep), sep) == parts
    decreases |parts|, |parts[0]|
  {
    if |parts| == 1 {
      SplitPiece(parts[0], sep);
    } else if parts[0] == [] {
      SplitJoin(parts[1..], sep);
      JoinAfterEmpty(parts, sep);
      SplitAfterSep(Join(parts[1..], sep), sep);
      assert parts == [[]] + parts[1..];
    } else {
      var head := parts[0];
      var shorter := [head[1..]] + parts[1..];
      assert sep !in head[1..] by {
        assert forall ch :: ch in head[1..] ==> ch in head;
      }
      SplitJoin(shorter, sep);
      JoinAfterChar(parts, sep);
      SplitAfterChar(head[0], Join(shorter, sep), sep);
      assert parts == [[head[0]] + shorter[0]] + shorter[1..] by {
        assert head == [head[0]] + shorter[0];
        assert shorter[1..] == parts[1..];
      }
    }
  }

  /** A text without the separator is a single piece. */
  lemma {:induction false} SplitPiece(s: string, sep: char)
    requires sep !in s
    ensures Split(s, sep) == [s]
  {
    if s != [] {
      assert sep !in s[1..] by {
        assert forall ch :: ch in s[1..] ==> ch in s;
      }
      SplitPiece(s[1..], sep);
      assert s == [s[0]] + s[1..];
    }
  }

  /** .NET `char.IsWhiteSpace`: the space separators, the line and paragraph
      separators, the controls U+0009 to U+000D, and U+0085. */
  predicate IsWhiteSpace(ch: char) {
    ch == ' ' || ch == ' ' || ch == ' ' || (' ' <= ch <= ' ') ||
    ch == ' ' || ch == ' ' || ch == '　' ||
    ch == ' ' || ch == ' ' ||
    ('\U{9}' <= ch <= '\U{D}') || ch == '\U{85}'
  }

  /** `string.IsNullOrWhiteSpace` on a line: empty, or white space only. */
  predicate IsBlank(line: string) {
    forall k :: 0 <= k < |line| ==> IsWhiteSpace(line[k])
  }

  /** `rows.Where(row => !string.IsNullOrWhiteSpace(row))`: the lines that
      are not blank, in their order. */
  function NonBlank(rows: seq<string>): (kept: seq<string>)
    ensures |kept| <= |rows|
    ensures forall line :: line in kept <==> line in rows && !IsBlank(line)
  {
    if rows == [] then []
    else if IsBlank(rows[0]) then NonBlank(rows[1..])
    else [rows[0]] + NonBlank(rows[1..])
  }

  /** Filtering keeps the order: the lines kept from two stretches of text
      are those kept from the first followed by those kept from the second. */
  lemma {:induction false} NonBlankAppend(a: seq<string>, b: seq<string>)
    ensures NonBlank(a + b) == NonBlank(a) + NonBlank(b)
  {
    if a == [] {
      assert a + b == b;
    } else {
      assert (a + b)[0] == a[0];
      assert (a + b)[1..] == a[1..] + b;
      NonBlankAppend(a[1..], b);
    }
  }

  /** The lines of the maze text. */
  function MazeLines(text: string): (rows: seq<string>)
    ensures forall k :: 0 <= k < |rows| ==> !IsBlank(rows[k]) && '\r' !in rows[k] && '\n' !in rows[k]
  {
    var pieces := Split(RemoveCarriageReturns(text), '\n');
    var rows := NonBlank(pieces);
    assert forall k :: 0 <= k < |rows| ==> '\r' !in rows[k] by {
      forall k | 0 <= k < |rows| ensures '\r' !in rows[k] {
        assert rows[k] in rows;
        var j :| 0 <= j < |pieces| && pieces[j] == rows[k];
        if '\r' in rows[k] {
          SplitPieceChars(RemoveCarriageReturns(text), '\n', j, '\r');
        }
      }
    }
    assert forall k :: 0 <= k < |rows| ==> rows[k] in rows;
    rows
  }

  // ---------------------------------------------------------------------
  // The grid.

  /** Block `c` of `row` is a wall: past the end of a short row, or any
      character other than a space or `B`. */
  predicate CellIsWall(row: string, c: int) {
    c < 0 || c >= |row| || (row[c] != ' ' && row[c] != 'B')
  }

  /** `p` holds a `B` inside the first `numCols` columns. */
  predicate BallAt(rows: seq<string>, numCols: int, p: Pos) {
    0 <= p.x < |rows| && 0 <= p.y < numCols && p.y < |rows[p.x]| && rows[p.x][p.y] == 'B'
  }

  /** `p` comes before `q` in row-major order. */
  predicate Before(p: Pos, q: Pos) {
    p.x < q.x || (p.x == q.x && p.y < q.y)
  }

  /** `ball` is the last `B` before `q` in row-major order, or `None` when
      there is none. */
  ghost predicate LastBallBefore(rows: seq<string>, numCols: int, q: Pos, ball: Option<Pos>) {
    match ball
    case None => forall p :: BallAt(rows, numCols, p) ==> !Before(p, q)
    case Some(b) =>
      BallAt(rows, numCols, b) && Before(b, q) &&
      forall p :: BallAt(rows, numCols, p) && Before(p, q) ==> !Before(b, p)
  }

  /** Every block before `q` in row-major order is filled. */
  ghost predicate FilledBefore(rows: seq<string>, grid: array2<bool>, q: Pos)
    reads grid
  {
    forall i, j :: 0 <= i < grid.Length0 && 0 <= j < grid.Length1 && i < |rows| && Before(Pos(i, j), q) ==>
      grid[i, j] == CellIsWall(rows[i], j)
  }

  /** Visiting block `(r, c)` moves the last `B` seen on to that block when
      it holds one. */
  lemma LastBallStep(rows: seq<string>, numCols: int, r: int, c: int, ball: Option<Pos>)
    requires 0 <= r < |rows| && 0 <= c < numCols
    requires LastBallBefore(rows, numCols, Pos(r, c), ball)
    ensures LastBallBefore(rows, numCols, Pos(r, c + 1), if BallAt(rows, numCols, Pos(r, c)) then Some(Pos(r, c)) else ball)
  {
  }

  /** No `B` lies past the last column, so finishing a row changes nothing. */
  lemma LastBallRowEnd(rows: seq<string>, numCols: int, r: int, ball: Option<Pos>)
    requires LastBallBefore(rows, numCols, Pos(r, numCols), ball)
    ensures LastBallBefore(rows, numCols, Pos(r + 1, 0), ball)
  {
  }

  /** Writing block `(r, c)` as `CellIsWall` says extends the filled part
      by that block. */
  lemma FilledStep(rows: seq<string>, grid: array2<bool>, r: int, c: int)
    requires 0 <= r < grid.Length0 && r < |rows| && 0 <= c < grid.Length1
    requires FilledBefore(rows, grid, Pos(r, c)) && grid[r, c] == CellIsWall(rows[r], c)
    ensures FilledBefore(rows, grid, Pos(r, c + 1))
  {
  }

  /** A row filled up to the last column is filled. */
  lemma FilledRowEnd(rows: seq<string>, grid: array2<bool>, r: int)
    requires FilledBefore(rows, grid, Pos(r, grid.Length1))
    ensures FilledBefore(rows, grid, Pos(r + 1, 0))
  {
  }

  /** The body of the parser's inner loop: block `(r, c)` is written from
      the character under it, and a `B` becomes the ball cell. */
  method FillBlock(rows: seq<string>, blockGrid: array2<bool>, r: int, c: int, ball: Option<Pos>)
    returns (ballInitialCell: Option<Pos>)
    requires 0 <= r < blockGrid.Length0 == |rows| && 0 <= c < blockGrid.Length1
    requires FilledBefore(rows, blockGrid, Pos(r, c))
    requires LastBallBefore(rows, blockGrid.Length1, Pos(r, c), ball)
    modifies blockGrid
    ensures FilledBefore(rows, blockGrid, Pos(r, c + 1))
    ensures LastBallBefore(rows, blockGrid.Length1, Pos(r, c + 1), ballInitialCell)
  {
    LastBallStep(rows, blockGrid.Length1, r, c, ball);
    ballInitialCell := ball;
    if c >= |rows[r]| {
      blockGrid[r, c] := true;
    } else {
      var cellChar := rows[r][c];
      match cellChar {
        case ' ' =>
          blockGrid[r, c] := false;
        case '#' =>
          blockGrid[r, c] := true;
        case 'B' =>
          blockGrid[r, c] := false;
          ballInitialCell := Some(Pos(r, c));
        case _ =>
          blockGrid[r, c] := true;
      }
    }
    FilledStep(rows, blockGrid, r, c);
  }

  /** With no text, or nothing but blank lines, the result is an empty grid
      and no ball.  Otherwise there is one grid row per non-blank line and
      as many columns as the first line is long; each block is a wall
      exactly when `CellIsWall` says so, and the ball starts on the last `B`
      in row-major order, always a floor block. */
  method ParseAsciiMaze(asciiFile: Option<string>)
    returns (blockGrid: array2<bool>, numRows: int, numCols: int, ballInitialCell: Option<Pos>)
    ensures asciiFile.None? || |MazeLines(asciiFile.value)| == 0 ==>
      numRows == 0 && numCols == 0 && blockGrid.Length0 == 0 && blockGrid.Length1 == 0 && ballInitialCell.None?
    ensures asciiFile.Some? && |MazeLines(asciiFile.value)| > 0 ==>
      var rows := MazeLines(asciiFile.value);
      numRows == |rows| == blockGrid.Length0 && numCols == |rows[0]| == blockGrid.Length1 &&
      (forall r, c :: 0 <= r < numRows && 0 <= c < numCols ==> blockGrid[r, c] == CellIsWall(rows[r], c)) &&
      LastBallBefore(rows, numCols, Pos(numRows, 0), ballInitialCell)
    ensures ballInitialCell.Some? ==>
      var b := ballInitialCell.value;
      0 <= b.x < numRows && 0 <= b.y < numCols && !blockGrid[b.x, b.y]
  {
    ballInitialCell := None;
    if asciiFile.None? {
      return new bool[0, 0], 0, 0, None;
    }
    var rows := MazeLines(asciiFile.value);
    if |rows| == 0 {
      return new bool[0, 0], 0, 0, None;
    }
    numRows := |rows|;
    numCols := |rows[0]|;
    blockGrid := new bool[numRows, numCols]((r, c) => false);
    for r := 0 to numRows
      invariant FilledBefore(rows, blockGrid, Pos(r, 0))
      invariant LastBallBefore(rows, numCols, Pos(r, 0), ballInitialCell)
    {
      for c := 0 to numCols
        invariant FilledBefore(rows, blockGrid, Pos(r, c))
        invariant LastBallBefore(rows, numCols, Pos(r, c), ballInitialCell)
      {
        ballInitialCell := FillBlock(rows, blockGrid, r, c, ballInitialCell);
      }
      FilledRowEnd(rows, blockGrid, r);
      LastBallRowEnd(rows, numCols, r, ballInitialCell);
    }
  }
}
