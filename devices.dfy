/**
  One paired input device (device.py): its pen settings, the line being
  drawn, and the undo and redo stacks of committed strokes.

  `DeviceRec` is the value a device holds; the pure functions below are the
  specification of each operation, and the class `Device` performs them in
  place, each method promising the new record in terms of the old one.
*/
module DeviceState {
  import opened Strokes
  import opened Options

  /** The device name whose holder may erase and clear every device's strokes. */
  const Admin: string := "ImExPS/2 Generic Explorer Mouse"

  const Black: Color := Color(0, 0, 0)
  const Marker: string := "Marker"
  const Eraser: string := "Eraser"
  const DefaultSize: int := 5

  datatype DeviceRec = DeviceRec(
    name: string,
    position: Point,
    color: Color,
    tool: string,
    size: int,
    undoStack: seq<Stroke>,
    redoStack: seq<Stroke>,
    currentLine: seq<Point>)

  /** A freshly paired device: black marker of size 5, nothing drawn. */
  function NewRec(name: string, position: Point): DeviceRec
  {
    DeviceRec(name, position, Black, Marker, DefaultSize, [], [], [])
  }

  predicate IsAdminRec(d: DeviceRec)
  {
    d.name == Admin
  }

  /** Commits the line being drawn, even a single point, and forgets what could be redone. */
  function CommitLine(d: DeviceRec): DeviceRec
  {
    if d.currentLine != [] then
      d.(undoStack := d.undoStack + [Stroke(d.currentLine, d.color)], redoStack := [], currentLine := [])
    else d
  }

  /** Moves the newest committed stroke onto the redo stack, when there is one. */
  function UndoRec(d: DeviceRec): DeviceRec
  {
    if d.undoStack != [] then
      var n := |d.undoStack| - 1;
      d.(undoStack := d.undoStack[..n], redoStack := d.redoStack + [d.undoStack[n]])
    else d
  }

  /** Moves the newest undone stroke back onto the undo stack, when there is one. */
  function RedoRec(d: DeviceRec): DeviceRec
  {
    if d.redoStack != [] then
      var n := |d.redoStack| - 1;
      d.(undoStack := d.undoStack + [d.redoStack[n]], redoStack := d.redoStack[..n])
    else d
  }

  /** `remove_point`: every committed stroke is erased at `pos` and split. */
  function EraseRec(d: DeviceRec, pos: Point): DeviceRec
  {
    d.(undoStack := EraseStack(d.undoStack, pos))
  }

  function ClearRec(d: DeviceRec): DeviceRec
  {
    d.(undoStack := [], redoStack := [])
  }

  /** `get_undo_stack`: the undo stack, or nothing when it is empty. */
  function UndoView(d: DeviceRec): (r: Option<seq<Stroke>>)
    ensures r.Some? <==> d.undoStack != []
    ensures r.Some? ==> r.value == d.undoStack
  {
    if d.undoStack != [] then Some(d.undoStack) else None
  }

  // ---------------------------------------------------------------------
  // Properties of the device operations
  // ---------------------------------------------------------------------

  function Reversed<T>(s: seq<T>): (r: seq<T>)
    ensures |r| == |s|
    ensures forall k :: 0 <= k < |s| ==> r[k] == s[|s| - 1 - k]
  {
    if s == [] then [] else [s[|s| - 1]] + Reversed(s[..|s| - 1])
  }

  /**
    Every stroke the device could show by redoing everything: the undo stack
    followed by the redo stack from its top down.
  */
  function History(d: DeviceRec): seq<Stroke>
  {
    d.undoStack + Reversed(d.redoStack)
  }

  lemma ReversedPush<T>(s: seq<T>, x: T)
    ensures Reversed(s + [x]) == [x] + Reversed(s)
  {
    assert (s + [x])[..|s|] == s;
  }

  /** Undo and redo only move the boundary between done and undone strokes; none is lost or reordered. */
  lemma UndoRedoKeepHistory(d: DeviceRec)
    ensures History(UndoRec(d)) == History(d)
    ensures History(RedoRec(d)) == History(d)
  {
    UndoKeepsHistory(d);
    RedoKeepsHistory(d);
  }

  lemma UndoKeepsHistory(d: DeviceRec)
    ensures History(UndoRec(d)) == History(d)
  {
    if d.undoStack != [] {
      var n := |d.undoStack| - 1;
      var kept, x := d.undoStack[..n], d.undoStack[n];
      ReversedPush(d.redoStack, x);
      assert History(UndoRec(d)) == kept + ([x] + Reversed(d.redoStack));
      assert kept + [x] == d.undoStack;
      assert kept + ([x] + Reversed(d.redoStack)) == (kept + [x]) + Reversed(d.redoStack);
    }
  }

  lemma RedoKeepsHistory(d: DeviceRec)
    ensures History(RedoRec(d)) == History(d)
  {
    if d.redoStack != [] {
      var n := |d.redoStack| - 1;
      var kept, y := d.redoStack[..n], d.redoStack[n];
      assert kept + [y] == d.redoStack;
      ReversedPush(kept, y);
      assert History(RedoRec(d)) == (d.undoStack + [y]) + Reversed(kept);
      assert History(d) == d.undoStack + ([y] + Reversed(kept));
    }
  }

  /** Undo succeeds exactly when there is a committed stroke; otherwise nothing changes. */
  lemma UndoEffect(d: DeviceRec)
    ensures d.undoStack == [] ==> UndoRec(d) == d
    ensures d.undoStack != [] ==>
      && UndoRec(d).undoStack + [d.undoStack[|d.undoStack| - 1]] == d.undoStack
      && UndoRec(d).redoStack == d.redoStack + [d.undoStack[|d.undoStack| - 1]]
      && UndoRec(d).(undoStack := d.undoStack, redoStack := d.redoStack) == d
  {
  }

  /** Redo undoes an undo: both stacks are restored exactly. */
  lemma RedoAfterUndo(d: DeviceRec)
    requires d.undoStack != []
    ensures RedoRec(UndoRec(d)) == d
  {
    var n := |d.undoStack| - 1;
    assert d.undoStack[..n] + [d.undoStack[n]] == d.undoStack;
    assert (d.redoStack + [d.undoStack[n]])[..|d.redoStack|] == d.redoStack;
  }

  /** Undo undoes a redo. */
  lemma UndoAfterRedo(d: DeviceRec)
    requires d.redoStack != []
    ensures UndoRec(RedoRec(d)) == d
  {
    var n := |d.redoStack| - 1;
    assert d.redoStack[..n] + [d.redoStack[n]] == d.redoStack;
    assert (d.undoStack + [d.redoStack[n]])[..|d.undoStack|] == d.undoStack;
  }

  function UndoTimes(d: DeviceRec, k: nat): DeviceRec
    decreases k
  {
    if k == 0 then d else UndoTimes(UndoRec(d), k - 1)
  }

  function RedoTimes(d: DeviceRec, k: nat): DeviceRec
    decreases k
  {
    if k == 0 then d else RedoTimes(RedoRec(d), k - 1)
  }

  lemma {:induction false} UndoTimesShape(d: DeviceRec, k: nat)
    requires k <= |d.undoStack|
    ensures |UndoTimes(d, k).undoStack| == |d.undoStack| - k
    ensures |UndoTimes(d, k).redoStack| == |d.redoStack| + k
    decreases k
  {
    if k > 0 {
      UndoTimesShape(UndoRec(d), k - 1);
    }
  }

  /** Any number of undos, as long as there are strokes to undo, is reverted by as many redos. */
  lemma {:induction false} RedoTimesAfterUndoTimes(d: DeviceRec, k: nat)
    requires k <= |d.undoStack|
    ensures RedoTimes(UndoTimes(d, k), k) == d
    decreases k
  {
    if k > 0 {
      var u := UndoRec(d);
      RedoTimesAfterUndoTimes(u, k - 1);
      UndoTimesShape(u, k - 1);
      // the last redo reverts the first undo
      RedoTimesLast(UndoTimes(u, k - 1), k - 1);
      RedoAfterUndo(d);
    }
  }

  lemma {:induction false} RedoTimesLast(d: DeviceRec, k: nat)
    requires k < |d.redoStack|
    ensures RedoTimes(d, k + 1) == RedoRec(RedoTimes(d, k))
    decreases k
  {
    if k > 0 {
      RedoTimesLast(RedoRec(d), k - 1);
    }
  }

  /** Committing a non-empty line puts it on top of the history and discards what could be redone. */
  lemma CommitEffect(d: DeviceRec)
    ensures d.currentLine == [] ==> CommitLine(d) == d
    ensures d.currentLine != [] ==>
      && History(CommitLine(d)) == d.undoStack + [Stroke(d.currentLine, d.color)]
      && CommitLine(d).redoStack == []
      && CommitLine(d).currentLine == []
      && RedoRec(CommitLine(d)) == CommitLine(d)
  {
  }

  /** Undo right after a commit takes back exactly the committed stroke. */
  lemma UndoAfterCommit(d: DeviceRec)
    requires d.currentLine != []
    ensures UndoRec(CommitLine(d)).undoStack == d.undoStack
    ensures UndoRec(CommitLine(d)).redoStack == [Stroke(d.currentLine, d.color)]
  {
    assert (d.undoStack + [Stroke(d.currentLine, d.color)])[..|d.undoStack|] == d.undoStack;
  }

  /** After an erase every committed stroke has two points or more, none within the radius; redo stack and line are untouched. */
  lemma EraseRecSurvivors(d: DeviceRec, pos: Point)
    ensures forall k :: 0 <= k < |EraseRec(d, pos).undoStack| ==> Survivor(EraseRec(d, pos).undoStack[k], pos)
    ensures EraseRec(d, pos).redoStack == d.redoStack && EraseRec(d, pos).currentLine == d.currentLine
  {
    EraseStackSurvivors(d.undoStack, pos);
  }

  /** Erasing twice at one position is erasing once. */
  lemma EraseRecIdempotent(d: DeviceRec, pos: Point)
    ensures EraseRec(EraseRec(d, pos), pos) == EraseRec(d, pos)
  {
    EraseStackIdempotent(d.undoStack, pos);
  }

  /** Clearing empties both stacks and keeps the line, colour, tool and size; it cannot be undone or redone. */
  lemma ClearEffect(d: DeviceRec)
    ensures ClearRec(d).undoStack == [] && ClearRec(d).redoStack == []
    ensures ClearRec(d).(undoStack := d.undoStack, redoStack := d.redoStack) == d
    ensures UndoRec(ClearRec(d)) == ClearRec(d) && RedoRec(ClearRec(d)) == ClearRec(d)
  {
  }

  /**
    The inner walk of `remove_point` over one stroke: kept points extend
    the current segment, an erased point closes it, and only segments of
    two points or more are kept.
  */
  method SplitLine(line: seq<Point>, pos: Point) returns (segments: seq<seq<Point>>)
    ensures segments == Pieces(line, pos)
  {
    ghost var m := KeepMask(line, pos);
    segments := [];
    var current: seq<Point> := [];
    var j := 0;
    while j < |line|
      invariant 0 <= j <= |line|
      invariant ScanFrom(line, m, j, segments, current) == ScanFrom(line, m, 0, [], [])
    {
      var p := line[j];
      if (pos.x - p.x) * (pos.x - p.x) + (pos.y - p.y) * (pos.y - p.y) >= 10 * 10 {
        current := current + [p];
      } else {
        if |current| >= 2 {
          segments := segments + [current];
        }
        current := [];
      }
      j := j + 1;
    }
    if |current| >= 2 {
      segments := segments + [current];
    }
    ScanIsPieces(line, pos);
  }

  // ---------------------------------------------------------------------
  // The device object
  // ---------------------------------------------------------------------

  class Device {
    const deviceId: string
    const userId: string
    const name: string
    var position: Point
    var color: Color
    var tool: string
    var size: int
    var undoStack: seq<Stroke>
    var redoStack: seq<Stroke>
    var currentLine: seq<Point>

    /** The value this device holds. */
    function Rec(): DeviceRec
      reads this
    {
      DeviceRec(name, position, color, tool, size, undoStack, redoStack, currentLine)
    }

    constructor(deviceId: string, name: string, userId: string, position: Point)
      ensures this.deviceId == deviceId && this.userId == userId
      ensures Rec() == NewRec(name, position)
    {
      this.deviceId := deviceId;
      this.userId := userId;
      this.name := name;
      this.position := position;
      color := Black;
      tool := Marker;
      size := DefaultSize;
      undoStack := [];
      redoStack := [];
      currentLine := [];
    }

    predicate IsAdmin()
      reads this
    {
      name == Admin
    }

    function GetPosition(): (r: Point)
      reads this
      ensures r == Rec().position
    {
      position
    }

    function GetCurrentLine(): (r: seq<Point>)
      reads this
      ensures r == Rec().currentLine
    {
      currentLine
    }

    function GetColor(): (r: Color)
      reads this
      ensures r == Rec().color
    {
      color
    }

    function GetTool(): (r: string)
      reads this
      ensures r == Rec().tool
    {
      tool
    }

    function GetSize(): (r: int)
      reads this
      ensures r == Rec().size
    {
      size
    }

    method SetPosition(p: Point)
      modifies this
      ensures Rec() == old(Rec()).(position := p)
    {
      position := p;
    }

    method AddToCurrentLine(p: Point)
      modifies this
      ensures Rec() == old(Rec()).(currentLine := old(currentLine) + [p])
    {
      currentLine := currentLine + [p];
    }

    method ResetCurrentLine()
      modifies this
      ensures Rec() == old(Rec()).(currentLine := [])
    {
      currentLine := [];
    }

    method AddLine()
      modifies this
      ensures Rec() == CommitLine(old(Rec()))
    {
      if currentLine != [] {
        undoStack := undoStack + [Stroke(currentLine, color)];
        redoStack := [];
        ResetCurrentLine();
      }
    }

    method Undo() returns (ok: bool)
      modifies this
      ensures ok <==> old(undoStack) != []
      ensures Rec() == UndoRec(old(Rec()))
    {
      if undoStack != [] {
        var n := |undoStack| - 1;
        var line := undoStack[n];
        undoStack := undoStack[..n];
        redoStack := redoStack + [line];
        return true;
      }
      return false;
    }

    method Redo() returns (ok: bool)
      modifies this
      ensures ok <==> old(redoStack) != []
      ensures Rec() == RedoRec(old(Rec()))
    {
      if redoStack != [] {
        var n := |redoStack| - 1;
        var line := redoStack[n];
        redoStack := redoStack[..n];
        undoStack := undoStack + [line];
        return true;
      }
      return false;
    }

    function GetUndoStack(): Option<seq<Stroke>>
      reads this
    {
      UndoView(Rec())
    }

    function GetRedoStack(): (r: Option<seq<Stroke>>)
      reads this
      ensures r.Some? <==> redoStack != []
      ensures r.Some? ==> r.value == redoStack
    {
      if redoStack != [] then Some(redoStack) else None
    }

    /**
      Erases every committed stroke at `pos`, walking each stroke point by
      point and cutting it wherever a point lies within the eraser radius.
    */
    method RemovePoint(pos: Point)
      modifies this
      ensures Rec() == EraseRec(old(Rec()), pos)
    {
      var temp: seq<Stroke> := [];
      var i := 0;
      while i < |undoStack|
        invariant 0 <= i <= |undoStack|
        invariant temp == EraseStack(undoStack[..i], pos)
        invariant Rec() == old(Rec())
      {
        var line, c := undoStack[i].points, undoStack[i].color;
        var segments := SplitLine(line, pos);
        ghost var before := temp;
        var k := 0;
        while k < |segments|
          invariant 0 <= k <= |segments|
          invariant temp == before + Tag(segments[..k], c)
        {
          assert segments[..k + 1] == segments[..k] + [segments[k]];
          temp := temp + [Stroke(segments[k], c)];
          k := k + 1;
        }
        assert segments[..k] == segments;
        assert undoStack[..i + 1][..i] == undoStack[..i];
        i := i + 1;
      }
      assert undoStack[..i] == undoStack;
      ghost var d := Rec();
      undoStack := temp;
      assert Rec() == d.(undoStack := temp);
    }

    method Clear()
      modifies this
      ensures Rec() == ClearRec(old(Rec()))
    {
      undoStack := [];
      redoStack := [];
    }

    method SetColor(c: Color)
      modifies this
      ensures Rec() == old(Rec()).(color := c)
    {
      color := c;
    }

    method SetTool(t: string)
      modifies this
      ensures Rec() == old(Rec()).(tool := t)
    {
      tool := t;
    }

    method SetSize(s: int)
      modifies this
      ensures Rec() == old(Rec()).(size := s)
    {
      size := s;
    }
  }
}
