/** The 3x3 board rules that GameSession and HitCreator share: the winner rule,
    the line rule and the colour-inverting cell copy.  A board is read as
    b[x][y], the way the source indexes its `[x, y]` arrays. */
module TicTacToe {
  import opened Wrappers

  /** The outcome of a position (GameSession.Winner / FrmSample.Winner). */
  datatype Winner = USER | BOT | STANDOFF | NOBODY

  predicate IsBoard<T>(b: seq<seq<T>>) {
    |b| == 3 && forall x :: 0 <= x < 3 ==> |b[x]| == 3
  }

  /** The eight checks of the source's local IsLine, in its order:
      three rows (y fixed), three columns (x fixed), the diagonal and the
      anti-diagonal. */
  predicate IsLine<T(==)>(b: seq<seq<T>>, sv: T)
    requires IsBoard(b)
  {
    (b[0][0] == sv && b[1][0] == sv && b[2][0] == sv) ||
    (b[0][1] == sv && b[1][1] == sv && b[2][1] == sv) ||
    (b[0][2] == sv && b[1][2] == sv && b[2][2] == sv) ||
    (b[0][0] == sv && b[0][1] == sv && b[0][2] == sv) ||
    (b[1][0] == sv && b[1][1] == sv && b[1][2] == sv) ||
    (b[2][0] == sv && b[2][1] == sv && b[2][2] == sv) ||
    (b[0][0] == sv && b[1][1] == sv && b[2][2] == sv) ||
    (b[0][2] == sv && b[1][1] == sv && b[2][0] == sv)
  }

  // An independent description of a line: some row, column or diagonal
  // whose three cells all hold the mark.

  ghost predicate RowFull<T>(b: seq<seq<T>>, y: int, sv: T)
    requires IsBoard(b) && 0 <= y < 3
  {
    forall x :: 0 <= x < 3 ==> b[x][y] == sv
  }

  ghost predicate ColumnFull<T>(b: seq<seq<T>>, x: int, sv: T)
    requires IsBoard(b) && 0 <= x < 3
  {
    forall y :: 0 <= y < 3 ==> b[x][y] == sv
  }

  ghost predicate DiagonalFull<T>(b: seq<seq<T>>, sv: T)
    requires IsBoard(b)
  {
    forall i :: 0 <= i < 3 ==> b[i][i] == sv
  }

  ghost predicate AntiDiagonalFull<T>(b: seq<seq<T>>, sv: T)
    requires IsBoard(b)
  {
    forall i :: 0 <= i < 3 ==> b[i][2 - i] == sv
  }

  ghost predicate ThreeInARow<T>(b: seq<seq<T>>, sv: T)
    requires IsBoard(b)
  {
    (exists y :: 0 <= y < 3 && RowFull(b, y, sv)) ||
    (exists x :: 0 <= x < 3 && ColumnFull(b, x, sv)) ||
    DiagonalFull(b, sv) || AntiDiagonalFull(b, sv)
  }

  /** IsLine holds exactly when one of the 3 rows, 3 columns or 2 diagonals
      is all `sv`. */
  lemma IsLineIsThreeInARow<T>(b: seq<seq<T>>, sv: T)
    requires IsBoard(b)
    ensures IsLine(b, sv) <==> ThreeInARow(b, sv)
  {
    if IsLine(b, sv) {
      if b[0][0] == sv && b[1][0] == sv && b[2][0] == sv {
        assert RowFull(b, 0, sv);
      } else if b[0][1] == sv && b[1][1] == sv && b[2][1] == sv {
        assert RowFull(b, 1, sv);
      } else if b[0][2] == sv && b[1][2] == sv && b[2][2] == sv {
        assert RowFull(b, 2, sv);
      } else if b[0][0] == sv && b[0][1] == sv && b[0][2] == sv {
        assert ColumnFull(b, 0, sv);
      } else if b[1][0] == sv && b[1][1] == sv && b[1][2] == sv {
        assert ColumnFull(b, 1, sv);
      } else if b[2][0] == sv && b[2][1] == sv && b[2][2] == sv {
        assert ColumnFull(b, 2, sv);
      } else if b[0][0] == sv && b[1][1] == sv && b[2][2] == sv {
        assert DiagonalFull(b, sv);
      } else {
        assert AntiDiagonalFull(b, sv);
      }
    }
    if ThreeInARow(b, sv) {
      if y :| 0 <= y < 3 && RowFull(b, y, sv) {
        assert b[0][y] == sv && b[1][y] == sv && b[2][y] == sv;
      } else if x :| 0 <= x < 3 && ColumnFull(b, x, sv) {
        assert b[x][0] == sv && b[x][1] == sv && b[x][2] == sv;
      } else if DiagonalFull(b, sv) {
        assert b[0][0] == sv && b[1][1] == sv && b[2][2] == sv;
      } else {
        assert b[0][2] == sv && b[1][1] == sv && b[2][0] == sv;
      }
    }
  }

  ghost predicate HasEmpty<T>(b: seq<seq<T>>, empty: T)
    requires IsBoard(b)
  {
    exists x, y :: 0 <= x < 3 && 0 <= y < 3 && b[x][y] == empty
  }

  /** The winner rule: both sides have a line is a standoff, one side's line
      wins, otherwise the game goes on while a cell is empty and is a
      standoff once the board is full. */
  ghost function WinnerOf<T>(b: seq<seq<T>>, user: T, bot: T, empty: T): Winner
    requires IsBoard(b)
  {
    var bu := IsLine(b, user);
    var bb := IsLine(b, bot);
    if bu && bb then STANDOFF
    else if bu then USER
    else if bb then BOT
    else if HasEmpty(b, empty) then NOBODY
    else STANDOFF
  }

  /** One cell of GameFieldCopy / MapCopy: without `invert` every value is
      kept; with it the empty mark is kept, the two players' marks swap, and
      any other value is refused (the source throws). */
  function CopyMark<T(==)>(v: T, invert: bool, user: T, bot: T, empty: T): Option<T> {
    if !invert || v == empty then Some(v)
    else if v == bot then Some(user)
    else if v != user then None
    else Some(bot)
  }

  predicate DistinctMarks<T(==)>(user: T, bot: T, empty: T) {
    user != bot && user != empty && bot != empty
  }

  /** Inverting twice gives back every mark the copy accepts. */
  lemma CopyMarkInvolution<T>(v: T, user: T, bot: T, empty: T)
    requires DistinctMarks(user, bot, empty)
    ensures CopyMark(v, true, user, bot, empty).Some? <==> v in {user, bot, empty}
    ensures CopyMark(v, true, user, bot, empty).Some? ==>
              CopyMark(CopyMark(v, true, user, bot, empty).value, true, user, bot, empty) == Some(v)
  {
  }

  predicate KnownMarks<T(==)>(b: seq<seq<T>>, user: T, bot: T, empty: T)
    requires IsBoard(b)
  {
    forall x, y :: 0 <= x < 3 && 0 <= y < 3 ==> b[x][y] in {user, bot, empty}
  }

  function Inverted<T(==)>(b: seq<seq<T>>, user: T, bot: T, empty: T): (r: seq<seq<T>>)
    requires IsBoard(b) && DistinctMarks(user, bot, empty) && KnownMarks(b, user, bot, empty)
    ensures IsBoard(r)
  {
    seq(3, x requires 0 <= x < 3 =>
      seq(3, y requires 0 <= y < 3 => CopyMark(b[x][y], true, user, bot, empty).value))
  }

  function Swapped(w: Winner): Winner {
    match w
    case USER => BOT
    case BOT => USER
    case other => other
  }

  /** Inverting the colours of a board swaps the winner: this is what lets the
      bot's search reuse the user's point of view. */
  lemma WinnerOfInverted<T>(b: seq<seq<T>>, user: T, bot: T, empty: T)
    requires IsBoard(b) && DistinctMarks(user, bot, empty) && KnownMarks(b, user, bot, empty)
    ensures WinnerOf(Inverted(b, user, bot, empty), user, bot, empty) == Swapped(WinnerOf(b, user, bot, empty))
  {
    var r := Inverted(b, user, bot, empty);
    forall x, y | 0 <= x < 3 && 0 <= y < 3
      ensures (r[x][y] == user <==> b[x][y] == bot)
      ensures (r[x][y] == bot <==> b[x][y] == user)
      ensures (r[x][y] == empty <==> b[x][y] == empty)
    {
      assert b[x][y] in {user, bot, empty};
    }
    assert IsLine(r, user) == IsLine(b, bot);
    assert IsLine(r, bot) == IsLine(b, user);
    if HasEmpty(b, empty) {
      var x, y :| 0 <= x < 3 && 0 <= y < 3 && b[x][y] == empty;
      assert r[x][y] == empty;
    }
    if HasEmpty(r, empty) {
      var x, y :| 0 <= x < 3 && 0 <= y < 3 && r[x][y] == empty;
      assert b[x][y] == empty;
    }
  }

  /** A mark placed on an empty cell never undoes an existing line. */
  lemma LineSurvivesHit<T>(b: seq<seq<T>>, b': seq<seq<T>>, x: int, y: int, sv: T, empty: T)
    requires IsBoard(b) && IsBoard(b') && 0 <= x < 3 && 0 <= y < 3
    requires b[x][y] == empty && sv != empty
    requires forall i, j :: 0 <= i < 3 && 0 <= j < 3 && (i != x || j != y) ==> b'[i][j] == b[i][j]
    ensures IsLine(b, sv) ==> IsLine(b', sv)
  {
    if IsLine(b, sv) {
      IsLineIsThreeInARow(b, sv);
      IsLineIsThreeInARow(b', sv);
      forall i, j | 0 <= i < 3 && 0 <= j < 3 && b[i][j] == sv
        ensures b'[i][j] == sv
      {
      }
    }
  }
}
