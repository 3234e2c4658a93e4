/** The game component: its state fields and the handlers that change them
    (placing a mark, growing a full board, starting over), and the status
    line it shows. */
module App {
  import opened Grid

  /** The notice shown when a full board cannot grow any further. */
  const MAX_SIZE_MESSAGE: string := "Maximum board size reached!"

  /** A board of n*n empty squares. */
  function EmptyBoard(n: nat): (squares: seq<Cell>)
    ensures |squares| == n * n
    ensures forall k | 0 <= k < |squares| :: squares[k] == None
  {
    seq(n * n, _ => None)
  }

  /** The status line: the winner when some row, column or diagonal is
      filled with one mark, otherwise the player to move. */
  function Status(squares: seq<Cell>, size: nat, xIsNext: bool): (status: string)
    requires |squares| == size * size
    ensures "Winner: " <= status <==> HasLine(squares, size, X) || HasLine(squares, size, O)
    ensures HasLine(squares, size, X) || HasLine(squares, size, O) ==>
              status == "Winner: X" || status == "Winner: O"
    ensures forall m :: status == "Winner: " + MarkText(m) ==> HasLine(squares, size, m)
    ensures !HasLine(squares, size, X) && !HasLine(squares, size, O) ==>
              status == "Next player: " + MarkText(PlayerMark(xIsNext))
  {
    WinnerIffLine(squares, size);
    match Winner(squares, size)
    case Some(m) =>
      assert forall m' :: "Winner: " + MarkText(m') == "Winner: " + MarkText(m) ==> m' == m by {
        forall m' | "Winner: " + MarkText(m') == "Winner: " + MarkText(m) ensures m' == m {
          assert ("Winner: " + MarkText(m'))[8] == ("Winner: " + MarkText(m))[8];
        }
      }
      "Winner: " + MarkText(m)
    case None =>
      var status := "Next player: " + MarkText(PlayerMark(xIsNext));
      assert status[0] != 'W';
      status
  }

  /** A move by mark p into an empty square, on a board where the other
      mark fills no line, keeps the other mark without a line; the game then
      reports p or nobody, reports nobody only when p fills no line, and a
      board that was already won stays won by the same mark. */
  lemma MoveKeepsSoleWinner(squares: seq<Cell>, n: nat, i: nat, p: Mark)
    requires |squares| == n * n && i < |squares| && squares[i] == None
    requires !HasLine(squares, n, Other(p))
    ensures !HasLine(squares[i := Some(p)], n, Other(p))
    ensures Winner(squares[i := Some(p)], n) == None || Winner(squares[i := Some(p)], n) == Some(p)
    ensures Winner(squares[i := Some(p)], n) == None ==> !HasLine(squares[i := Some(p)], n, p)
    ensures Winner(squares, n) != None ==> Winner(squares[i := Some(p)], n) == Winner(squares, n)
  {
    var next := squares[i := Some(p)];
    PlaceKeepsLines(squares, n, i, p);
    WinnerOfSoleMark(squares, n, p);
    WinnerOfSoleMark(next, n, p);
    var w, w0 := Winner(next, n), Winner(squares, n);
    assert w != None ==> w.value != Other(p);
    assert w0 != None ==> w0.value != Other(p);
  }

  class Game {
    var size: nat
    var squares: seq<Cell>
    var xIsNext: bool
    var expanding: bool
    var message: string

    /** The side stays between the initial and the largest size, the board
        has size*size squares, growth is pending only below the largest
        size, and no complete line belongs to the player who is not about
        to move. */
    ghost predicate Valid()
      reads this
    {
      && INITIAL_SIZE <= size <= MAX_SIZE
      && |squares| == size * size
      && (expanding ==> size < MAX_SIZE)
      && !HasLine(squares, size, Other(PlayerMark(xIsNext)))
    }

    /** The state of a new game. */
    ghost predicate IsInitial()
      reads this
    {
      && size == INITIAL_SIZE
      && squares == EmptyBoard(INITIAL_SIZE)
      && xIsNext
      && !expanding
      && message == ""
    }

    constructor ()
      ensures Valid() && IsInitial()
    {
      size := INITIAL_SIZE;
      squares := EmptyBoard(INITIAL_SIZE);
      xIsNext := true;
      expanding := false;
      message := "";
      new;
      NoLineWithoutMark(squares, size, O);
    }

    /** Under the invariant the game reports as winner, if anyone, the
        player about to move: a win never hands the turn over. */
    lemma WinnerIsPlayerToMove()
      requires Valid()
      ensures Winner(squares, size) == None || Winner(squares, size) == Some(PlayerMark(xIsNext))
      ensures Winner(squares, size) != Some(Other(PlayerMark(xIsNext)))
      ensures !(HasLine(squares, size, X) && HasLine(squares, size, O))
    {
      var m := PlayerMark(xIsNext);
      WinnerOfSoleMark(squares, size, m);
      var w := Winner(squares, size);
      assert w != None ==> w.value != Other(m);
    }

    /** A click on square i. It is ignored on an occupied square or while
        the board is growing; otherwise the current player's mark is
        written, and then a win ends the turn, a full board below the
        largest size starts growth, a full board of the largest size shows
        the notice, and in every other case the turn passes. */
    method HandlePlay(i: nat)
      requires Valid() && i < |squares|
      modifies this
      ensures Valid()
      ensures size == old(size)
      ensures old(squares[i] != None || expanding) ==> unchanged(this)
      ensures old(squares[i] == None && !expanding) ==>
        && squares == old(squares)[i := Some(PlayerMark(old(xIsNext)))]
        && (Winner(squares, size) != None ==>
              xIsNext == old(xIsNext) && !expanding && message == old(message))
        && (Winner(squares, size) == None && IsBoardFull(squares) && size < MAX_SIZE ==>
              xIsNext == old(xIsNext) && expanding && message == old(message))
        && (Winner(squares, size) == None && IsBoardFull(squares) && size == MAX_SIZE ==>
              xIsNext == old(xIsNext) && !expanding && message == MAX_SIZE_MESSAGE)
        && (Winner(squares, size) == None && !IsBoardFull(squares) ==>
              xIsNext == !old(xIsNext) && !expanding && message == old(message))
      ensures old(Winner(squares, size)) != None ==>
        Winner(squares, size) == old(Winner(squares, size)) && xIsNext == old(xIsNext)
    {
      if squares[i] != None || expanding {
        return;
      }
      var mark := PlayerMark(xIsNext);
      MoveKeepsSoleWinner(squares, size, i, mark);
      var nextSquares := squares[i := Some(mark)];
      squares := nextSquares;

      var winner := CalculateWinner(nextSquares, size);
      if winner != None {
        return;
      }

      if IsBoardFull(nextSquares) {
        if size < MAX_SIZE {
          expanding := true;
        } else {
          message := MAX_SIZE_MESSAGE;
        }
      } else {
        xIsNext := !xIsNext;
      }
    }

    /** Growth of a full board: when growth is pending below the largest
        size, the side grows by one, the old marks keep their rows and
        columns in the top-left corner, the new squares are empty, the turn
        passes and the notice is cleared. Otherwise nothing changes. */
    method ExpandBoard()
      requires Valid()
      modifies this
      ensures Valid()
      ensures !old(expanding && size < MAX_SIZE) ==> unchanged(this)
      ensures old(expanding && size < MAX_SIZE) ==>
        && size == old(size) + 1
        && squares == Expanded(old(squares), old(size))
        && xIsNext == !old(xIsNext)
        && !expanding
        && message == ""
    {
      if expanding && size < MAX_SIZE {
        var oldSize, oldSquares := size, squares;
        var newSize := oldSize + 1;
        var newSquares := new Cell[newSize * newSize](_ => None);
        for row := 0 to oldSize
          invariant CopiedUpTo(newSquares[..], oldSquares, oldSize, row, 0)
          modifies newSquares
        {
          for col := 0 to oldSize
            invariant CopiedUpTo(newSquares[..], oldSquares, oldSize, row, col)
            modifies newSquares
          {
            CopyStep(newSquares[..], oldSquares, oldSize, row, col);
            newSquares[row * newSize + col] := oldSquares[row * oldSize + col];
          }
          CopyNextRow(newSquares[..], oldSquares, oldSize, row);
        }
        CopyDone(newSquares[..], oldSquares, oldSize);
        ExpandedHasNoLine(oldSquares, oldSize, Other(PlayerMark(!xIsNext)));

        size := newSize;
        squares := newSquares[..];
        xIsNext := !xIsNext;
        expanding := false;
        message := "";
      }
    }

    /** Start over: a new game, whatever the state was. */
    method ResetGame()
      modifies this
      ensures Valid() && IsInitial()
    {
      size := INITIAL_SIZE;
      squares := EmptyBoard(INITIAL_SIZE);
      xIsNext := true;
      expanding := false;
      message := "";
      NoLineWithoutMark(squares, size, O);
    }

    /** A click as the player sees it: the move, followed at once by the
        growth it may have made pending. Between clicks no growth is
        pending. */
    method Click(i: nat)
      requires Valid() && !expanding && i < |squares|
      modifies this
      ensures Valid() && !expanding
      ensures old(squares[i]) != None ==> unchanged(this)
      ensures old(squares[i]) == None ==>
        var placed := old(squares)[i := Some(PlayerMark(old(xIsNext)))];
        var won := Winner(placed, old(size)) != None;
        && (won ==>
              size == old(size) && squares == placed && xIsNext == old(xIsNext) && message == old(message))
        && (!won && IsBoardFull(placed) && old(size) < MAX_SIZE ==>
              size == old(size) + 1 && squares == Expanded(placed, old(size))
              && xIsNext == !old(xIsNext) && message == "")
        && (!won && IsBoardFull(placed) && old(size) == MAX_SIZE ==>
              size == old(size) && squares == placed && xIsNext == old(xIsNext)
              && message == MAX_SIZE_MESSAGE)
        && (!won && !IsBoardFull(placed) ==>
              size == old(size) && squares == placed && xIsNext == !old(xIsNext)
              && message == old(message))
    {
      HandlePlay(i);
      if expanding {
        ExpandBoard();
      }
    }
  }
}
