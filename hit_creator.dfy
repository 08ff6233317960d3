/** HitCreator: the tic-tac-toe position behind the sample form, a 3x3 array
    of SignValue marks changed in place by the user's and the bot's moves. */
module Hits {
  import opened Wrappers
  import opened TicTacToe

  /** SignValue is an external type; the model keeps its three marks
      (FrmSample.EmptySpace, UserHit and BotHit), which are distinct, and any
      other value. */
  datatype SignValue = EmptySpace | UserHit | BotHit | OtherSign(value: int)

  datatype HitError = NoStepFound | CellOccupied(x: int, y: int) | UnknownFieldValue(v: SignValue)

  predicate IsBoardArray(p: array2<SignValue>) {
    p.Length0 == 3 && p.Length1 == 3
  }

  function BoardOf(p: array2<SignValue>): (b: seq<seq<SignValue>>)
    reads p
    requires IsBoardArray(p)
    ensures IsBoard(b)
    ensures forall x, y :: 0 <= x < 3 && 0 <= y < 3 ==> b[x][y] == p[x, y]
  {
    seq(3, x requires 0 <= x < 3 reads p =>
      seq(3, y requires 0 <= y < 3 reads p => p[x, y]))
  }

  class HitCreator {
    const mainProcessor: array2<SignValue>
    var lastHitX: int
    var lastHitY: int

    ghost predicate Valid()
      reads this
    {
      IsBoardArray(mainProcessor)
    }

    /** The winner of position `p`, by the rule WinnerOf. */
    static method GetWinner(p: array2<SignValue>) returns (w: Winner)
      requires IsBoardArray(p)
      ensures w == WinnerOf(BoardOf(p), UserHit, BotHit, EmptySpace)
    {
      var bu := IsLine(BoardOf(p), UserHit);
      var bb := IsLine(BoardOf(p), BotHit);
      if bu && bb {
        return STANDOFF;
      } else if bu {
        return USER;
      }
      if bb {
        return BOT;
      }
      var y := 0;
      while y < 3
        invariant 0 <= y <= 3
        invariant forall i, j :: 0 <= i < 3 && 0 <= j < y ==> p[i, j] != EmptySpace
      {
        var x := 0;
        while x < 3
          invariant 0 <= x <= 3
          invariant forall i, j :: 0 <= i < 3 && 0 <= j < y ==> p[i, j] != EmptySpace
          invariant forall i :: 0 <= i < x ==> p[i, y] != EmptySpace
        {
          if p[x, y] == EmptySpace {
            assert BoardOf(p)[x][y] == EmptySpace;
            return NOBODY;
          }
          x := x + 1;
        }
        y := y + 1;
      }
      return STANDOFF;
    }

    /** A copy of `field` into a new array of the same shape; with `invert` the
        two players' marks swap, the empty mark stays and any other value is
        refused. */
    static method MapCopy(field: array2<SignValue>, invert: bool) returns (r: Result<array2<SignValue>, HitError>)
      ensures r.Ok? <==> forall x, y :: 0 <= x < field.Length0 && 0 <= y < field.Length1 ==>
                           CopyMark(field[x, y], invert, UserHit, BotHit, EmptySpace).Some?
      ensures r.Ok? ==> fresh(r.value) && r.value.Length0 == field.Length0 && r.value.Length1 == field.Length1
      ensures r.Ok? ==> forall x, y :: 0 <= x < field.Length0 && 0 <= y < field.Length1 ==>
                          Some(r.value[x, y]) == CopyMark(field[x, y], invert, UserHit, BotHit, EmptySpace)
    {
      var sv := new SignValue[field.Length0, field.Length1];
      var y := 0;
      while y < field.Length1
        invariant 0 <= y <= field.Length1
        invariant forall i, j :: 0 <= i < field.Length0 && 0 <= j < y ==>
                    Some(sv[i, j]) == CopyMark(field[i, j], invert, UserHit, BotHit, EmptySpace)
      {
        var x := 0;
        while x < field.Length0
          invariant 0 <= x <= field.Length0
          invariant forall i, j :: 0 <= i < field.Length0 && 0 <= j < y ==>
                      Some(sv[i, j]) == CopyMark(field[i, j], invert, UserHit, BotHit, EmptySpace)
          invariant forall i :: 0 <= i < x ==>
                      Some(sv[i, y]) == CopyMark(field[i, y], invert, UserHit, BotHit, EmptySpace)
        {
          var v := field[x, y];
          if !invert || v == EmptySpace {
            sv[x, y] := v;
          } else if v == BotHit {
            sv[x, y] := UserHit;
          } else if v != UserHit {
            return Err(UnknownFieldValue(v));
          } else {
            sv[x, y] := BotHit;
          }
          x := x + 1;
        }
        y := y + 1;
      }
      return Ok(sv);
    }

    /** A new position: every cell empty and no last hit. */
    constructor ()
      ensures Valid() && fresh(mainProcessor)
      ensures forall x, y :: 0 <= x < 3 && 0 <= y < 3 ==> mainProcessor[x, y] == EmptySpace
      ensures lastHitX == -1 && lastHitY == -1
    {
      mainProcessor := new SignValue[3, 3];
      new;
      var y := 0;
      while y < 3
        invariant 0 <= y <= 3
        invariant forall i, j :: 0 <= i < 3 && 0 <= j < y ==> mainProcessor[i, j] == EmptySpace
      {
        var x := 0;
        while x < 3
          invariant 0 <= x <= 3
          invariant forall i, j :: 0 <= i < 3 && 0 <= j < y ==> mainProcessor[i, j] == EmptySpace
          invariant forall i :: 0 <= i < x ==> mainProcessor[i, y] == EmptySpace
        {
          mainProcessor[x, y] := EmptySpace;
          x := x + 1;
        }
        y := y + 1;
      }
      lastHitX, lastHitY := -1, -1;
    }

    /** The user's move: refused on an occupied cell, otherwise the cell takes
        the user's mark and becomes the last hit. */
    method MakeUserHit(x: int, y: int) returns (ok: bool)
      requires Valid() && 0 <= x < 3 && 0 <= y < 3
      modifies this, mainProcessor
      ensures Valid()
      ensures ok <==> old(mainProcessor[x, y]) == EmptySpace
      ensures ok ==> mainProcessor[x, y] == UserHit && lastHitX == x && lastHitY == y
      ensures !ok ==> lastHitX == old(lastHitX) && lastHitY == old(lastHitY)
      ensures forall i, j :: 0 <= i < 3 && 0 <= j < 3 && (i != x || j != y || !ok) ==>
                mainProcessor[i, j] == old(mainProcessor[i, j])
    {
      if mainProcessor[x, y] != EmptySpace {
        return false;
      }
      mainProcessor[x, y] := UserHit;
      lastHitX, lastHitY := x, y;
      return true;
    }

    /** The bot's move.  `step` is the cell chosen by the minimax search
        (StepByModelIndex(0)), None when it found none: that, and an occupied
        chosen cell, are internal errors and change nothing. */
    method MakeBotHit(step: Option<(int, int)>) returns (r: Result<(), HitError>)
      requires Valid()
      requires step.Some? ==> 0 <= step.value.0 < 3 && 0 <= step.value.1 < 3
      modifies this, mainProcessor
      ensures Valid()
      ensures step.None? ==> r == Err(NoStepFound)
      ensures step.Some? && old(mainProcessor[step.value.0, step.value.1]) != EmptySpace ==>
                r == Err(CellOccupied(step.value.0, step.value.1))
      ensures step.Some? && old(mainProcessor[step.value.0, step.value.1]) == EmptySpace ==>
                r.Ok? && mainProcessor[step.value.0, step.value.1] == BotHit &&
                lastHitX == step.value.0 && lastHitY == step.value.1
      ensures r.Err? ==> lastHitX == old(lastHitX) && lastHitY == old(lastHitY)
      ensures forall i, j :: 0 <= i < 3 && 0 <= j < 3 && !(r.Ok? && step == Some((i, j))) ==>
                mainProcessor[i, j] == old(mainProcessor[i, j])
    {
      if step.None? {
        return Err(NoStepFound);
      }
      var (x, y) := step.value;
      if mainProcessor[x, y] != EmptySpace {
        return Err(CellOccupied(x, y));
      }
      mainProcessor[x, y] := BotHit;
      lastHitX, lastHitY := x, y;
      return Ok(());
    }

    method CurrentWinner() returns (w: Winner)
      requires Valid()
      ensures w == WinnerOf(BoardOf(mainProcessor), UserHit, BotHit, EmptySpace)
    {
      w := GetWinner(mainProcessor);
    }
  }
}
