/** GameSession: a tic-tac-toe position over a 3x3 array of ints, changed in
    place by the user's and the bot's moves. */
module Game {
  import opened Wrappers
  import opened TicTacToe

  const UserHit: int := 0x7FFF_FFFF      // int.MaxValue
  const BotHit: int := -0x8000_0000      // int.MinValue
  const EmptySpace: int := 0

  /** Why a move or a copy was refused (the source throws). */
  datatype GameError = CellOccupied(x: int, y: int) | UnknownFieldValue(v: int)

  class GameSession {
    const gameField: array2<int>
    var lastHitX: int
    var lastHitY: int

    ghost predicate Valid()
      reads this
    {
      gameField.Length0 == 3 && gameField.Length1 == 3
    }

    /** The position as a board b[x][y]. */
    function Field(): (b: seq<seq<int>>)
      reads this, gameField
      requires Valid()
      ensures IsBoard(b)
      ensures forall x, y :: 0 <= x < 3 && 0 <= y < 3 ==> b[x][y] == gameField[x, y]
    {
      seq(3, x requires 0 <= x < 3 reads gameField =>
        seq(3, y requires 0 <= y < 3 reads gameField => gameField[x, y]))
    }

    /** A new session: every cell empty and no last hit. */
    constructor ()
      ensures Valid() && fresh(gameField)
      ensures forall x, y :: 0 <= x < 3 && 0 <= y < 3 ==> gameField[x, y] == EmptySpace
      ensures lastHitX == -1 && lastHitY == -1
    {
      gameField := new int[3, 3];
      new;
      var y := 0;
      while y < 3
        invariant 0 <= y <= 3
        invariant forall i, j :: 0 <= i < 3 && 0 <= j < y ==> gameField[i, j] == EmptySpace
      {
        var x := 0;
        while x < 3
          invariant 0 <= x <= 3
          invariant forall i, j :: 0 <= i < 3 && 0 <= j < y ==> gameField[i, j] == EmptySpace
          invariant forall i :: 0 <= i < x ==> gameField[i, y] == EmptySpace
        {
          gameField[x, y] := EmptySpace;
          x := x + 1;
        }
        y := y + 1;
      }
      lastHitX, lastHitY := -1, -1;
    }

    /** The winner of the current position, by the rule WinnerOf. */
    method CurrentWinner() returns (w: Winner)
      requires Valid()
      ensures w == WinnerOf(Field(), UserHit, BotHit, EmptySpace)
    {
      var bu := IsLine(Field(), UserHit);
      var bb := IsLine(Field(), BotHit);
      if bu && bb {
        return STANDOFF;
      } else if bu {
        return USER;
      } else if bb {
        return BOT;
      }
      var y := 0;
      while y < 3
        invariant 0 <= y <= 3
        invariant forall i, j :: 0 <= i < 3 && 0 <= j < y ==> gameField[i, j] != EmptySpace
      {
        var x := 0;
        while x < 3
          invariant 0 <= x <= 3
          invariant forall i, j :: 0 <= i < 3 && 0 <= j < y ==> gameField[i, j] != EmptySpace
          invariant forall i :: 0 <= i < x ==> gameField[i, y] != EmptySpace
        {
          if gameField[x, y] == EmptySpace {
            assert Field()[x][y] == EmptySpace;
            return NOBODY;
          }
          x := x + 1;
        }
        y := y + 1;
      }
      return STANDOFF;
    }

    /** The user's move: refused on an occupied cell, otherwise the cell takes
        the user's mark and becomes the last hit. */
    method MakeUserHit(x: int, y: int) returns (ok: bool)
      requires Valid() && 0 <= x < 3 && 0 <= y < 3
      modifies this, gameField
      ensures Valid()
      ensures ok <==> old(gameField[x, y]) == EmptySpace
      ensures ok ==> gameField[x, y] == UserHit && lastHitX == x && lastHitY == y
      ensures !ok ==> gameField[x, y] == old(gameField[x, y]) && lastHitX == old(lastHitX) && lastHitY == old(lastHitY)
      ensures forall i, j :: 0 <= i < 3 && 0 <= j < 3 && (i != x || j != y) ==> gameField[i, j] == old(gameField[i, j])
    {
      if gameField[x, y] != EmptySpace {
        return false;
      }
      gameField[x, y] := UserHit;
      lastHitX, lastHitY := x, y;
      return true;
    }

    /** The bot's move.  `next` is the cell the minimax search (BuildNextFrame)
        chose, or None when it found no next frame: then nothing changes and
        the result is false.  An occupied chosen cell is an internal error. */
    method MakeBotHit(next: Option<(int, int)>) returns (r: Result<bool, GameError>)
      requires Valid()
      requires next.Some? ==> 0 <= next.value.0 < 3 && 0 <= next.value.1 < 3
      modifies this, gameField
      ensures Valid()
      ensures next.None? ==> r == Ok(false)
      ensures next.Some? && old(gameField[next.value.0, next.value.1]) != EmptySpace ==>
                r == Err(CellOccupied(next.value.0, next.value.1))
      ensures next.Some? && old(gameField[next.value.0, next.value.1]) == EmptySpace ==>
                r == Ok(true) && gameField[next.value.0, next.value.1] == BotHit &&
                lastHitX == next.value.0 && lastHitY == next.value.1
      ensures !(r == Ok(true)) ==> lastHitX == old(lastHitX) && lastHitY == old(lastHitY)
      ensures forall i, j :: 0 <= i < 3 && 0 <= j < 3 && !(r == Ok(true) && next == Some((i, j))) ==>
                gameField[i, j] == old(gameField[i, j])
    {
      if next.None? {
        return Ok(false);
      }
      var (x, y) := next.value;
      if gameField[x, y] != EmptySpace {
        return Err(CellOccupied(x, y));
      }
      gameField[x, y] := BotHit;
      lastHitX, lastHitY := x, y;
      return Ok(true);
    }

    /** A copy of `field` into a new array of the same shape; with `invert` the
        two players' marks swap, and any value other than the three marks is
        refused. */
    static method GameFieldCopy(field: array2<int>, invert: bool) returns (r: Result<array2<int>, GameError>)
      ensures r.Ok? <==> forall x, y :: 0 <= x < field.Length0 && 0 <= y < field.Length1 ==>
                           CopyMark(field[x, y], invert, UserHit, BotHit, EmptySpace).Some?
      ensures r.Ok? ==> fresh(r.value) && r.value.Length0 == field.Length0 && r.value.Length1 == field.Length1
      ensures r.Ok? ==> forall x, y :: 0 <= x < field.Length0 && 0 <= y < field.Length1 ==>
                          Some(r.value[x, y]) == CopyMark(field[x, y], invert, UserHit, BotHit, EmptySpace)
    {
      var result := new int[field.Length0, field.Length1];
      var y := 0;
      while y < field.Length1
        invariant 0 <= y <= field.Length1
        invariant forall i, j :: 0 <= i < field.Length0 && 0 <= j < y ==>
                    Some(result[i, j]) == CopyMark(field[i, j], invert, UserHit, BotHit, EmptySpace)
      {
        var x := 0;
        while x < field.Length0
          invariant 0 <= x <= field.Length0
          invariant forall i, j :: 0 <= i < field.Length0 && 0 <= j < y ==>
                      Some(result[i, j]) == CopyMark(field[i, j], invert, UserHit, BotHit, EmptySpace)
          invariant forall i :: 0 <= i < x ==>
                      Some(result[i, y]) == CopyMark(field[i, y], invert, UserHit, BotHit, EmptySpace)
        {
          var v := field[x, y];
          if !invert || v == EmptySpace {
            result[x, y] := v;
          } else if v == BotHit {
            result[x, y] := UserHit;
          } else if v != UserHit {
            return Err(UnknownFieldValue(v));
          } else {
            result[x, y] := BotHit;
          }
          x := x + 1;
        }
        y := y + 1;
      }
      return Ok(result);
    }
  }
}
