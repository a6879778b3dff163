/**
  The drawing surface (canvas.py): a throttled redraw that paints the whole
  canvas white, then every device's committed strokes, then every device's
  line in progress, shifted up by the header height.

  The surface is modelled as the drawing commands issued since it was last
  filled: a fill paints over everything drawn before it, so these commands
  determine every pixel. Times are integer milliseconds.
*/
module Composition {
  import opened Strokes
  import opened Options
  import opened DeviceState
  import opened Registry

  const White: Color := Color(255, 255, 255)

  /** The refresh interval of 0.1 seconds. */
  const RefreshInterval: int := 100

  /** `surface.fill(color)`, or `pygame.draw.lines` of an open polyline of the given width. */
  datatype DrawCmd = Fill(color: Color) | Lines(color: Color, points: seq<Point>, width: int)

  /** Screen coordinates to canvas coordinates: the canvas surface starts `hh` pixels down. */
  function Shift(line: seq<Point>, hh: int): (r: seq<Point>)
    ensures |r| == |line|
    ensures forall k :: 0 <= k < |line| ==> r[k] == Point(line[k].x, line[k].y - hh)
  {
    seq(|line|, k requires 0 <= k < |line| => Point(line[k].x, line[k].y - hh))
  }

  /** The command that draws a committed stroke of a device whose size is `width`. */
  function StrokeCmd(st: Stroke, width: int, hh: int): DrawCmd
  {
    Lines(st.color, Shift(st.points, hh), width)
  }

  /** One command per stroke of two points or more, in stack order. */
  function StrokeCmds(strokes: seq<Stroke>, width: int, hh: int): seq<DrawCmd>
  {
    if strokes == [] then []
    else
      var last := strokes[|strokes| - 1];
      StrokeCmds(strokes[..|strokes| - 1], width, hh) + (if |last.points| > 1 then [StrokeCmd(last, width, hh)] else [])
  }

  /** `get_undo_stack() or []`: the committed strokes a device shows. */
  function Shown(d: DeviceRec): (r: seq<Stroke>)
    ensures r == d.undoStack
  {
    match UndoView(d)
    case Some(v) => v
    case None => []
  }

  /** The committed strokes of every listed device, device by device. */
  function CommittedCmds(s: Snap, ids: seq<DeviceId>, hh: int): seq<DrawCmd>
  {
    if ids == [] then []
    else
      var id := ids[|ids| - 1];
      CommittedCmds(s, ids[..|ids| - 1], hh) + DeviceCmds(s, id, hh)
  }

  /** The committed strokes of one device, drawn at its size; nothing for an id that is not paired. */
  function DeviceCmds(s: Snap, id: DeviceId, hh: int): seq<DrawCmd>
  {
    if id in s then StrokeCmds(Shown(s[id]), s[id].size, hh) else []
  }

  /** The line in progress of a device, drawn in its colour when it has two points or more. */
  function LiveCmd(s: Snap, id: DeviceId, hh: int): seq<DrawCmd>
  {
    if id in s && |s[id].currentLine| > 1 then [Lines(s[id].color, Shift(s[id].currentLine, hh), s[id].size)] else []
  }

  function LiveCmds(s: Snap, ids: seq<DeviceId>, hh: int): seq<DrawCmd>
  {
    if ids == [] then [] else LiveCmds(s, ids[..|ids| - 1], hh) + LiveCmd(s, ids[|ids| - 1], hh)
  }

  /** The whole canvas after a refresh: white, then the committed strokes, then the lines in progress. */
  function Frame(s: Snap, ids: seq<DeviceId>, hh: int): seq<DrawCmd>
  {
    [Fill(White)] + CommittedCmds(s, ids, hh) + LiveCmds(s, ids, hh)
  }

  lemma AppendAssoc(a: seq<DrawCmd>, b: seq<DrawCmd>, c: seq<DrawCmd>)
    ensures (a + b) + c == a + (b + c)
  {
  }

  lemma CommittedCmdsStep(s: Snap, ids: seq<DeviceId>, i: nat, hh: int)
    requires i < |ids|
    ensures CommittedCmds(s, ids[..i + 1], hh) == CommittedCmds(s, ids[..i], hh) + DeviceCmds(s, ids[i], hh)
  {
    assert ids[..i + 1][..i] == ids[..i];
  }

  lemma LiveCmdsStep(s: Snap, ids: seq<DeviceId>, i: nat, hh: int)
    requires i < |ids|
    ensures LiveCmds(s, ids[..i + 1], hh) == LiveCmds(s, ids[..i], hh) + LiveCmd(s, ids[i], hh)
  {
    assert ids[..i + 1][..i] == ids[..i];
  }

  // ---------------------------------------------------------------------
  // What a frame shows
  // ---------------------------------------------------------------------

  /** A command draws stroke `st` of some listed device. */
  predicate DrawsStrokeOf(s: Snap, ids: seq<DeviceId>, hh: int, c: DrawCmd, id: DeviceId, st: Stroke)
  {
    id in ids && id in s && st in s[id].undoStack && |st.points| > 1 && c == StrokeCmd(st, s[id].size, hh)
  }

  /** The strokes drawn are exactly those of two points or more. */
  lemma {:induction false} StrokeCmdsExactly(strokes: seq<Stroke>, width: int, hh: int, c: DrawCmd)
    ensures c in StrokeCmds(strokes, width, hh) <==>
      exists st :: st in strokes && |st.points| > 1 && c == StrokeCmd(st, width, hh)
  {
    if strokes != [] {
      var init := strokes[..|strokes| - 1];
      var last := strokes[|strokes| - 1];
      assert strokes == init + [last];
      StrokeCmdsExactly(init, width, hh, c);
      if c in StrokeCmds(strokes, width, hh) && c !in StrokeCmds(init, width, hh) {
        assert last in strokes && |last.points| > 1 && c == StrokeCmd(last, width, hh);
      }
    }
  }

  /**
    The positions in the stack of the strokes of two points or more, in
    increasing order: the strokes a refresh draws.
  */
  function DrawnAt(strokes: seq<Stroke>): (r: seq<nat>)
    ensures forall k :: 0 <= k < |r| ==> r[k] < |strokes| && |strokes[r[k]].points| > 1
    ensures forall k, l :: 0 <= k < l < |r| ==> r[k] < r[l]
    ensures forall j :: 0 <= j < |strokes| && |strokes[j].points| > 1 ==> j in r
  {
    if strokes == [] then []
    else
      var n := |strokes| - 1;
      assert forall j :: 0 <= j < n ==> strokes[..n][j] == strokes[j];
      DrawnAt(strokes[..n]) + (if |strokes[n].points| > 1 then [n] else [])
  }

  /**
    Command `k` draws the `k`-th stroke of two points or more: strokes are
    drawn oldest first, so later strokes are painted over earlier ones, and
    strokes of one point are skipped.
  */
  lemma {:induction false} StrokeCmdsInOrder(strokes: seq<Stroke>, width: int, hh: int)
    ensures |StrokeCmds(strokes, width, hh)| == |DrawnAt(strokes)|
    ensures forall k :: 0 <= k < |DrawnAt(strokes)| ==>
      StrokeCmds(strokes, width, hh)[k] == StrokeCmd(strokes[DrawnAt(strokes)[k]], width, hh)
  {
    if strokes != [] {
      var n := |strokes| - 1;
      var init := strokes[..n];
      StrokeCmdsInOrder(init, width, hh);
      var cmds, at := StrokeCmds(init, width, hh), DrawnAt(init);
      var last := if |strokes[n].points| > 1 then [StrokeCmd(strokes[n], width, hh)] else [];
      assert StrokeCmds(strokes, width, hh) == cmds + last;
      assert DrawnAt(strokes) == at + (if |strokes[n].points| > 1 then [n] else []);
      forall k | 0 <= k < |at|
        ensures StrokeCmds(strokes, width, hh)[k] == StrokeCmd(strokes[DrawnAt(strokes)[k]], width, hh)
      {
        assert at[k] < n && init[at[k]] == strokes[at[k]];
      }
    }
  }

  /**
    The committed part of a frame draws exactly the committed strokes of two
    points or more of the listed devices, each with its device's current size.
  */
  lemma {:induction false} CommittedCmdsExactly(s: Snap, ids: seq<DeviceId>, hh: int, c: DrawCmd)
    ensures c in CommittedCmds(s, ids, hh) <==> exists id, st :: DrawsStrokeOf(s, ids, hh, c, id, st)
  {
    if ids != [] {
      var init := ids[..|ids| - 1];
      var id := ids[|ids| - 1];
      CommittedCmdsExactly(s, init, hh, c);
      if c in CommittedCmds(s, init, hh) {
        var id', st :| DrawsStrokeOf(s, init, hh, c, id', st);
        assert DrawsStrokeOf(s, ids, hh, c, id', st);
      } else if c in CommittedCmds(s, ids, hh) {
        assert id in s;
        StrokeCmdsExactly(Shown(s[id]), s[id].size, hh, c);
        var st :| st in s[id].undoStack && |st.points| > 1 && c == StrokeCmd(st, s[id].size, hh);
        assert DrawsStrokeOf(s, ids, hh, c, id, st);
      }
      if exists id', st :: DrawsStrokeOf(s, ids, hh, c, id', st) {
        var id', st :| DrawsStrokeOf(s, ids, hh, c, id', st);
        if id' != id {
          assert id' in init;
          assert DrawsStrokeOf(s, init, hh, c, id', st);
        } else if c !in CommittedCmds(s, init, hh) {
          StrokeCmdsExactly(Shown(s[id]), s[id].size, hh, c);
        }
      }
    }
  }

  /** The lines in progress drawn are exactly those of two points or more, in their device's colour and size. */
  lemma {:induction false} LiveCmdsExactly(s: Snap, ids: seq<DeviceId>, hh: int, c: DrawCmd)
    ensures c in LiveCmds(s, ids, hh) <==>
      exists id :: id in ids && id in s && |s[id].currentLine| > 1 &&
        c == Lines(s[id].color, Shift(s[id].currentLine, hh), s[id].size)
  {
    if ids != [] {
      var init := ids[..|ids| - 1];
      LiveCmdsExactly(s, init, hh, c);
      assert forall id :: id in ids <==> id in init || id == ids[|ids| - 1] by {
        assert ids == init + [ids[|ids| - 1]];
      }
    }
  }

  /** Every command after the initial fill is a polyline of two points or more. */
  predicate AllPolylines(cmds: seq<DrawCmd>)
  {
    forall k :: 0 <= k < |cmds| ==> cmds[k].Lines? && |cmds[k].points| >= 2
  }

  lemma {:induction false} StrokeCmdsPolylines(strokes: seq<Stroke>, width: int, hh: int)
    ensures AllPolylines(StrokeCmds(strokes, width, hh))
  {
    if strokes != [] {
      StrokeCmdsPolylines(strokes[..|strokes| - 1], width, hh);
    }
  }

  lemma {:induction false} CommittedCmdsPolylines(s: Snap, ids: seq<DeviceId>, hh: int)
    ensures AllPolylines(CommittedCmds(s, ids, hh))
  {
    if ids != [] {
      CommittedCmdsPolylines(s, ids[..|ids| - 1], hh);
      var id := ids[|ids| - 1];
      if id in s {
        StrokeCmdsPolylines(Shown(s[id]), s[id].size, hh);
      }
    }
  }

  lemma {:induction false} LiveCmdsPolylines(s: Snap, ids: seq<DeviceId>, hh: int)
    ensures AllPolylines(LiveCmds(s, ids, hh))
  {
    if ids != [] {
      LiveCmdsPolylines(s, ids[..|ids| - 1], hh);
    }
  }

  /**
    A frame starts with the white fill, and everything after it is a
    polyline of two points or more; the committed strokes come before the
    lines in progress.
  */
  lemma FrameShape(s: Snap, ids: seq<DeviceId>, hh: int)
    ensures Frame(s, ids, hh)[0] == Fill(White)
    ensures AllPolylines(Frame(s, ids, hh)[1..])
    ensures Frame(s, ids, hh)[1..] == CommittedCmds(s, ids, hh) + LiveCmds(s, ids, hh)
  {
    var committed, live := CommittedCmds(s, ids, hh), LiveCmds(s, ids, hh);
    CommittedCmdsPolylines(s, ids, hh);
    LiveCmdsPolylines(s, ids, hh);
    AppendAssoc([Fill(White)], committed, live);
    assert Frame(s, ids, hh)[1..] == committed + live;
    PolylinesAppend(committed, live);
  }

  lemma PolylinesAppend(a: seq<DrawCmd>, b: seq<DrawCmd>)
    requires AllPolylines(a) && AllPolylines(b)
    ensures AllPolylines(a + b)
  {
    forall k | 0 <= k < |a + b|
      ensures (a + b)[k].Lines? && |(a + b)[k].points| >= 2
    {
      if k >= |a| {
        assert (a + b)[k] == b[k - |a|];
      }
    }
  }

  class Canvas {
    const im: InputManager
    const headerHeight: int
    var lastRefreshTime: int
    /** The drawing commands since the surface was last filled. */
    var surface: seq<DrawCmd>

    constructor(im: InputManager, headerHeight: int)
      ensures this.im == im && this.headerHeight == headerHeight
      ensures lastRefreshTime == 0 && surface == []
    {
      this.im := im;
      this.headerHeight := headerHeight;
      lastRefreshTime := 0;
      surface := [];
    }

    /** Paints the whole surface white. */
    method Clear()
      modifies this
      ensures surface == [Fill(White)] && lastRefreshTime == old(lastRefreshTime)
    {
      surface := [Fill(White)];
    }

    /**
      Redraws the canvas from the registry at time `now`, unless the last
      redraw was less than the refresh interval ago.
    */
    method Refresh(now: int)
      requires im.Valid()
      modifies this
      ensures now - old(lastRefreshTime) < RefreshInterval ==>
        lastRefreshTime == old(lastRefreshTime) && surface == old(surface)
      ensures now - old(lastRefreshTime) >= RefreshInterval ==>
        lastRefreshTime == now && surface == Frame(im.Snapshot(), im.order, headerHeight)
    {
      if now - lastRefreshTime < RefreshInterval {
        return;
      }
      ghost var s := im.Snapshot();
      lastRefreshTime := now;
      Clear();
      assert im.Valid() && im.Snapshot() == s;
      var ids := im.GetActiveInputs();
      DrawCommitted(ids);
      DrawLive(ids);
    }

    /** The first loop of `refresh`: each listed device's committed strokes. */
    method DrawCommitted(ids: seq<DeviceId>)
      requires im.Valid()
      modifies this
      ensures lastRefreshTime == old(lastRefreshTime)
      ensures im.Valid() && im.Snapshot() == old(im.Snapshot())
      ensures surface == old(surface) + CommittedCmds(im.Snapshot(), ids, headerHeight)
    {
      ghost var s := im.Snapshot();
      var i := 0;
      while i < |ids|
        invariant 0 <= i <= |ids| && lastRefreshTime == old(lastRefreshTime)
        invariant im.Valid() && im.Snapshot() == s
        invariant surface == old(surface) + CommittedCmds(s, ids[..i], headerHeight)
      {
        DrawDevice(ids[i]);
        CommittedCmdsStep(s, ids, i, headerHeight);
        AppendAssoc(old(surface), CommittedCmds(s, ids[..i], headerHeight), DeviceCmds(s, ids[i], headerHeight));
        i := i + 1;
      }
      assert ids[..i] == ids;
    }

    /** One turn of that loop: the device's undo stack, at the device's size. */
    method DrawDevice(id: DeviceId)
      requires im.Valid()
      modifies this
      ensures lastRefreshTime == old(lastRefreshTime)
      ensures im.Valid() && im.Snapshot() == old(im.Snapshot())
      ensures surface == old(surface) + DeviceCmds(im.Snapshot(), id, headerHeight)
    {
      ghost var s := im.Snapshot();
      var device := im.GetDevice(id);
      if device.Some? {
        var stack := device.value.GetUndoStack();
        var strokes := if stack.Some? then stack.value else [];
        var size := im.GetSize(id);
        assert strokes == Shown(s[id]) && size == Some(s[id].size);
        DrawStrokes(strokes, size.value);
        assert im.Snapshot() == s;
      }
    }

    /** The inner loop of `refresh`: the strokes of two points or more, each as a polyline of the given width. */
    method DrawStrokes(strokes: seq<Stroke>, width: int)
      modifies this
      ensures lastRefreshTime == old(lastRefreshTime)
      ensures surface == old(surface) + StrokeCmds(strokes, width, headerHeight)
    {
      var j := 0;
      while j < |strokes|
        invariant 0 <= j <= |strokes| && lastRefreshTime == old(lastRefreshTime)
        invariant surface == old(surface) + StrokeCmds(strokes[..j], width, headerHeight)
      {
        if |strokes[j].points| > 1 {
          surface := surface + [Lines(strokes[j].color, Shift(strokes[j].points, headerHeight), width)];
        }
        assert strokes[..j + 1][..j] == strokes[..j];
        j := j + 1;
      }
      assert strokes[..j] == strokes;
    }

    /** The second loop of `refresh`: each listed device's line in progress. */
    method DrawLive(ids: seq<DeviceId>)
      requires im.Valid()
      modifies this
      ensures lastRefreshTime == old(lastRefreshTime)
      ensures im.Valid() && im.Snapshot() == old(im.Snapshot())
      ensures surface == old(surface) + LiveCmds(im.Snapshot(), ids, headerHeight)
    {
      ghost var s := im.Snapshot();
      var i := 0;
      while i < |ids|
        invariant 0 <= i <= |ids| && lastRefreshTime == old(lastRefreshTime)
        invariant im.Valid() && im.Snapshot() == s
        invariant surface == old(surface) + LiveCmds(s, ids[..i], headerHeight)
      {
        DrawLine(ids[i]);
        LiveCmdsStep(s, ids, i, headerHeight);
        AppendAssoc(old(surface), LiveCmds(s, ids[..i], headerHeight), LiveCmd(s, ids[i], headerHeight));
        i := i + 1;
      }
      assert ids[..i] == ids;
    }

    /** One turn of that loop: the device's line in progress, when it has two points or more. */
    method DrawLine(id: DeviceId)
      requires im.Valid()
      modifies this
      ensures lastRefreshTime == old(lastRefreshTime)
      ensures im.Valid() && im.Snapshot() == old(im.Snapshot())
      ensures surface == old(surface) + LiveCmd(im.Snapshot(), id, headerHeight)
    {
      var device := im.GetDevice(id);
      if device.Some? {
        var line := device.value.GetCurrentLine();
        if line != [] && |line| > 1 {
          var size := im.GetSize(id);
          surface := surface + [Lines(device.value.GetColor(), Shift(line, headerHeight), size.value)];
          assert im.Snapshot() == old(im.Snapshot());
        }
      }
    }
  }
}
