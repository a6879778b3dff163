/**
  The header bar (header_manager.py): six tool buttons, a colour palette
  that can be shown or hidden, and the dispatch of a click that a device
  makes in the header.

  Clicks are debounced; an accepted click first commits every device's
  line in progress, then runs the first button that contains the click, or
  else, when the palette is shown, the first swatch that contains it.
  Times are integer milliseconds.
*/
module Header {
  import opened Strokes
  import opened Options
  import opened DeviceState
  import opened Registry

  /** A `pygame.Rect`: left, top, width and height. */
  datatype Rect = Rect(left: int, top: int, width: int, height: int)

  /** `Rect.collidepoint`: the left and top edges are inside, the right and bottom edges are not. */
  predicate Collides(r: Rect, p: Point)
  {
    r.left <= p.x < r.left + r.width && r.top <= p.y < r.top + r.height
  }

  /** The size of a rendered button symbol; font rendering itself is not modelled. */
  datatype Glyph = Glyph(w: nat, h: nat)

  /** `get_rect(center=c)` of a glyph, then `inflate(40, 20)`. */
  function ToolRect(c: Point, g: Glyph): Rect
  {
    var r := Rect(c.x - g.w / 2, c.y - g.h / 2, g.w, g.h);
    Rect(r.left - 40 / 2, r.top - 20 / 2, r.width + 40, r.height + 20)
  }

  /** The 20 by 20 square of a colour swatch centred at `c`. */
  function SwatchRect(c: Point): Rect
  {
    Rect(c.x - 10, c.y - 10, 20, 20)
  }

  datatype ToolButton = ToolButton(text: string, symbol: string, center: Point, rect: Rect)

  datatype Swatch = Swatch(color: Color, center: Point, rect: Rect)

  const ButtonTexts: seq<string> := ["Undo", "Redo", "Clear", "Eraser", "Marker", "Change Color"]
  const ButtonSymbols: seq<string> := ["<-", "->", "X", "E", "M", "C"]
  const ButtonCenters: seq<Point> := [Point(100, 50), Point(250, 50), Point(400, 50), Point(550, 50), Point(700, 50), Point(850, 50)]

  const DebounceTime: int := 100
  const ToolSize: int := 5

  /** The six tool buttons, in the order the header checks them; `glyphs` gives each symbol's rendered size. */
  function Buttons(glyphs: seq<Glyph>): seq<ToolButton>
    requires |glyphs| == |ButtonTexts|
  {
    seq(|ButtonTexts|, i requires 0 <= i < |ButtonTexts| =>
      ToolButton(ButtonTexts[i], ButtonSymbols[i], ButtonCenters[i], ToolRect(ButtonCenters[i], glyphs[i])))
  }

  /** One swatch per configured colour, centred 50 apart from `(950, 50)`. */
  function Palette(colors: seq<Color>): seq<Swatch>
  {
    seq(|colors|, i requires 0 <= i < |colors| => Swatch(colors[i], Point(950 + i * 50, 50), SwatchRect(Point(950 + i * 50, 50))))
  }

  /** Swatch `i` shows colour `i` and is the 20 by 20 square around `(950 + 50 i, 50)`. */
  lemma PaletteLayout(colors: seq<Color>, i: nat)
    requires i < |colors|
    ensures |Palette(colors)| == |colors|
    ensures Palette(colors)[i].color == colors[i]
    ensures Collides(Palette(colors)[i].rect, Point(950 + 50 * i, 50))
    ensures forall p :: Collides(Palette(colors)[i].rect, p) <==>
      940 + 50 * i <= p.x < 960 + 50 * i && 40 <= p.y < 60
  {
  }

  /** Two swatches never overlap, so at most one swatch contains a click. */
  lemma SwatchesDisjoint(colors: seq<Color>, i: nat, j: nat, p: Point)
    requires i < j < |colors|
    ensures !(Collides(Palette(colors)[i].rect, p) && Collides(Palette(colors)[j].rect, p))
  {
  }

  /** The index of the first rectangle that contains `p`, if any. */
  function FirstHit(rects: seq<Rect>, p: Point): (r: Option<nat>)
    ensures r.Some? ==> r.value < |rects| && Collides(rects[r.value], p)
    ensures r.Some? ==> forall j :: 0 <= j < r.value ==> !Collides(rects[j], p)
    ensures r.None? ==> forall j :: 0 <= j < |rects| ==> !Collides(rects[j], p)
  {
    if rects == [] then None
    else if Collides(rects[0], p) then Some(0)
    else
      match FirstHit(rects[1..], p)
      case None => None
      case Some(k) => Some(k + 1)
  }

  /** The hit rectangles of a list of buttons or swatches, in order. */
  function Rects<T>(xs: seq<T>, rect: T -> Rect): (r: seq<Rect>)
    ensures |r| == |xs| && forall i :: 0 <= i < |xs| ==> r[i] == rect(xs[i])
  {
    seq(|xs|, i requires 0 <= i < |xs| => rect(xs[i]))
  }

  /** `ToolButton.is_clicked` tests the button's rectangle, `ColorButton.is_clicked` the swatch's square. */
  const ButtonRect: ToolButton -> Rect := (b: ToolButton) => b.rect
  const SwatchArea: Swatch -> Rect := (sw: Swatch) => sw.rect

  /** Every paired device's line in progress is committed. */
  function CommitAll(s: Snap): Snap
  {
    ApplyToAll(s, s.Keys, Commit)
  }

  /** What a tool button labelled `text` does to the registry on behalf of `id`. */
  function RunButton(s: Snap, id: DeviceId, text: string): Snap
  {
    if text == "Undo" then ApplyTo(s, id, UndoOp)
    else if text == "Redo" then ApplyTo(s, id, RedoOp)
    else if text == "Clear" then ClearBy(s, id)
    else if text == "Eraser" then ApplyTo(ApplyTo(s, id, SetToolOp(Eraser)), id, SetSizeOp(ToolSize))
    else if text == "Marker" then ApplyTo(ApplyTo(s, id, SetToolOp(Marker)), id, SetSizeOp(ToolSize))
    else s
  }

  /** What an accepted click does: whether the palette is shown afterwards, and the new registry. */
  datatype Outcome = Outcome(showPalette: bool, snap: Snap)

  /** An accepted click: every line in progress is committed, then the click is routed. */
  function Click(bs: seq<ToolButton>, ps: seq<Swatch>, show: bool, s: Snap, id: DeviceId, pos: Point): Outcome
  {
    Route(bs, ps, show, CommitAll(s), id, pos)
  }

  /** The first button hit runs; with no button hit and the palette shown, the first swatch hit is picked. */
  function Route(bs: seq<ToolButton>, ps: seq<Swatch>, show: bool, s: Snap, id: DeviceId, pos: Point): Outcome
  {
    match FirstHit(Rects(bs, ButtonRect), pos)
    case Some(i) => Press(bs[i].text, show, s, id)
    case None => if show then Pick(ps, s, id, pos) else Outcome(show, s)
  }

  /** A hit on the button labelled `text`: Change Color toggles the palette, any other runs its command. */
  function Press(text: string, show: bool, s: Snap, id: DeviceId): Outcome
  {
    if text == "Change Color" then Outcome(!show, s) else Outcome(show, RunButton(s, id, text))
  }

  /**
    The palette loop, reached only with the palette shown: the first swatch
    hit gives the issuer its colour and the marker and hides the palette.
  */
  function Pick(ps: seq<Swatch>, s: Snap, id: DeviceId, pos: Point): Outcome
  {
    match FirstHit(Rects(ps, SwatchArea), pos)
    case Some(j) => Outcome(false, ApplyTo(ApplyTo(s, id, SetColorOp(ps[j].color)), id, SetToolOp(Marker)))
    case None => Outcome(true, s)
  }

  /** The first button the click hits is Clear, and the issuer is the admin device. */
  predicate AdminClear(bs: seq<ToolButton>, s: Snap, id: DeviceId, pos: Point)
  {
    && id in s && IsAdminRec(s[id])
    && match FirstHit(Rects(bs, ButtonRect), pos)
       case Some(i) => bs[i].text == "Clear"
       case None => false
  }

  /**
    Apart from the commit of every line in progress, a click changes only
    the issuing device, except a Clear by the admin device, which empties
    every device's stacks.
  */
  lemma ClickTouchesOnlyIssuer(bs: seq<ToolButton>, ps: seq<Swatch>, show: bool, s: Snap, id: DeviceId, pos: Point)
    ensures Click(bs, ps, show, s, id, pos).snap.Keys == s.Keys
    ensures !AdminClear(bs, s, id, pos) ==>
      forall o :: o in s && o != id ==> Click(bs, ps, show, s, id, pos).snap[o] == CommitLine(s[o])
    ensures AdminClear(bs, s, id, pos) ==>
      forall o :: o in s ==> Click(bs, ps, show, s, id, pos).snap[o] == ClearRec(CommitLine(s[o]))
  {
    var committed := CommitAll(s);
    assert id in committed ==> committed[id].name == s[id].name;
    assert AdminClear(bs, committed, id, pos) == AdminClear(bs, s, id, pos);
    RouteTouchesOnlyIssuer(bs, ps, show, committed, id, pos);
  }

  lemma RouteTouchesOnlyIssuer(bs: seq<ToolButton>, ps: seq<Swatch>, show: bool, s: Snap, id: DeviceId, pos: Point)
    ensures Route(bs, ps, show, s, id, pos).snap.Keys == s.Keys
    ensures !AdminClear(bs, s, id, pos) ==>
      forall o :: o in s && o != id ==> Route(bs, ps, show, s, id, pos).snap[o] == s[o]
    ensures AdminClear(bs, s, id, pos) ==>
      forall o :: o in s ==> Route(bs, ps, show, s, id, pos).snap[o] == ClearRec(s[o])
  {
    match FirstHit(Rects(bs, ButtonRect), pos)
    case Some(i) => RunButtonTouchesOnlyIssuer(s, id, bs[i].text);
    case None =>
  }

  lemma RunButtonTouchesOnlyIssuer(s: Snap, id: DeviceId, text: string)
    ensures RunButton(s, id, text).Keys == s.Keys
    ensures !(text == "Clear" && id in s && IsAdminRec(s[id])) ==>
      forall o :: o in s && o != id ==> RunButton(s, id, text)[o] == s[o]
    ensures text == "Clear" && id in s && IsAdminRec(s[id]) ==>
      forall o :: o in s ==> RunButton(s, id, text)[o] == ClearRec(s[o])
  {
    if text == "Clear" {
      ClearScope(s, id);
    }
  }

  /** The Eraser and Marker buttons select that tool at size 5 for the issuing device. */
  lemma ToolButtonEffect(s: Snap, id: DeviceId, text: string)
    requires text == "Eraser" || text == "Marker"
    requires id in s
    ensures RunButton(s, id, text)[id] == s[id].(tool := text, size := ToolSize)
  {
  }

  /**
    A swatch hit when the palette is shown (and no button is hit) sets the
    issuer's colour, switches it to the marker, keeps its size and hides the
    palette; with the palette hidden, swatches are not looked at.
  */
  lemma SwatchEffect(bs: seq<ToolButton>, ps: seq<Swatch>, show: bool, s: Snap, id: DeviceId, pos: Point, j: nat)
    requires id in s
    requires FirstHit(Rects(bs, ButtonRect), pos).None?
    requires j < |ps| && Collides(ps[j].rect, pos)
    requires forall k :: 0 <= k < j ==> !Collides(ps[k].rect, pos)
    ensures show ==> !Click(bs, ps, show, s, id, pos).showPalette
    ensures show ==>
      Click(bs, ps, show, s, id, pos).snap[id] == CommitLine(s[id]).(color := ps[j].color, tool := Marker)
    ensures !show ==> Click(bs, ps, show, s, id, pos) == Outcome(false, CommitAll(s))
  {
  }

  class HeaderManager {
    const buttons: seq<ToolButton>
    const palette: seq<Swatch>
    var showPalette: bool
    var lastClickTime: int

    constructor(colors: seq<Color>, glyphs: seq<Glyph>)
      requires |glyphs| == |ButtonTexts|
      ensures buttons == Buttons(glyphs) && palette == Palette(colors)
      ensures !showPalette && lastClickTime == 0
    {
      buttons := Buttons(glyphs);
      palette := Palette(colors);
      showPalette := false;
      lastClickTime := 0;
    }

    /**
      Handles a click at `pos` by device `id` at time `now`: a click within
      the debounce time of the last accepted one changes nothing.
    */
    method HandleClick(pos: Point, id: DeviceId, im: InputManager, now: int)
      requires im.Valid()
      modifies this, im.inputs.Values
      ensures im.Valid()
      ensures now - old(lastClickTime) < DebounceTime ==>
        showPalette == old(showPalette) && lastClickTime == old(lastClickTime) && im.Snapshot() == old(im.Snapshot())
      ensures now - old(lastClickTime) >= DebounceTime ==>
        && lastClickTime == now
        && Outcome(showPalette, im.Snapshot()) == Click(buttons, palette, old(showPalette), old(im.Snapshot()), id, pos)
    {
      if now - lastClickTime < DebounceTime {
        return;
      }
      lastClickTime := now;
      assert im.Snapshot() == old(im.Snapshot());
      CommitEach(im);
      Dispatch(pos, id, im);
    }

    /** The part of `handle_click` after the commit loop: the button loop, then the palette loop. */
    method Dispatch(pos: Point, id: DeviceId, im: InputManager)
      requires im.Valid()
      modifies this, im.inputs.Values
      ensures im.Valid() && lastClickTime == old(lastClickTime)
      ensures Outcome(showPalette, im.Snapshot()) == Route(buttons, palette, old(showPalette), old(im.Snapshot()), id, pos)
    {
      var hit := FindButton(pos);
      if hit.Some? {
        PressButton(buttons[hit.value].text, id, im);
      } else if showPalette {
        PickColor(pos, id, im);
      }
    }

    /** A hit on the button labelled `text`: Change Color toggles the palette, the others act on the registry. */
    method PressButton(text: string, id: DeviceId, im: InputManager)
      requires im.Valid()
      modifies this, im.inputs.Values
      ensures im.Valid() && lastClickTime == old(lastClickTime)
      ensures text == "Change Color" ==> showPalette == !old(showPalette) && im.Snapshot() == old(im.Snapshot())
      ensures text != "Change Color" ==>
        showPalette == old(showPalette) && im.Snapshot() == RunButton(old(im.Snapshot()), id, text)
    {
      if text == "Change Color" {
        showPalette := !showPalette;
        assert im.Snapshot() == old(im.Snapshot());
      } else {
        RunTool(text, id, im);
      }
    }

    /** The palette loop of `handle_click`, with the palette shown. */
    method PickColor(pos: Point, id: DeviceId, im: InputManager)
      requires im.Valid() && showPalette
      modifies this, im.inputs.Values
      ensures im.Valid() && lastClickTime == old(lastClickTime)
      ensures Outcome(showPalette, im.Snapshot()) == Pick(palette, old(im.Snapshot()), id, pos)
    {
      var pick := FindSwatch(pos);
      if pick.Some? {
        PickSwatch(pick.value, id, im);
      }
    }

    /** A hit on swatch `j`: the issuer takes its colour and the marker, and the palette is hidden. */
    method PickSwatch(j: nat, id: DeviceId, im: InputManager)
      requires im.Valid() && j < |palette|
      modifies this, im.inputs.Values
      ensures im.Valid() && lastClickTime == old(lastClickTime) && !showPalette
      ensures im.Snapshot() == ApplyTo(ApplyTo(old(im.Snapshot()), id, SetColorOp(palette[j].color)), id, SetToolOp(Marker))
    {
      showPalette := false;
      assert im.Snapshot() == old(im.Snapshot());
      im.SetColor(id, palette[j].color);
      im.SetTool(id, Marker);
    }

    /** The loop over the buttons in `handle_click`: the first button whose rectangle contains `pos`. */
    method FindButton(pos: Point) returns (r: Option<nat>)
      ensures r == FirstHit(Rects(buttons, ButtonRect), pos)
    {
      var i := 0;
      while i < |buttons|
        invariant 0 <= i <= |buttons|
        invariant forall j :: 0 <= j < i ==> !Collides(buttons[j].rect, pos)
      {
        if Collides(buttons[i].rect, pos) {
          ghost var f := FirstHit(Rects(buttons, ButtonRect), pos);
          assert f.Some? && !(f.value < i) && !(f.value > i);
          return Some(i);
        }
        i := i + 1;
      }
      return None;
    }

    /** The loop over the swatches in `handle_click`: the first swatch whose square contains `pos`. */
    method FindSwatch(pos: Point) returns (r: Option<nat>)
      ensures r == FirstHit(Rects(palette, SwatchArea), pos)
    {
      var j := 0;
      while j < |palette|
        invariant 0 <= j <= |palette|
        invariant forall k :: 0 <= k < j ==> !Collides(palette[k].rect, pos)
      {
        if Collides(palette[j].rect, pos) {
          ghost var f := FirstHit(Rects(palette, SwatchArea), pos);
          assert f.Some? && !(f.value < j) && !(f.value > j);
          return Some(j);
        }
        j := j + 1;
      }
      return None;
    }
  }

  /** The branches of `handle_click` for the tool buttons other than Change Color. */
  method RunTool(text: string, id: DeviceId, im: InputManager)
    requires im.Valid()
    modifies im.inputs.Values
    ensures im.Valid()
    ensures im.Snapshot() == RunButton(old(im.Snapshot()), id, text)
  {
    if text == "Undo" {
      var _ := im.Undo(id);
    } else if text == "Redo" {
      var _ := im.Redo(id);
    } else if text == "Clear" {
      im.Clear(id);
    } else if text == "Eraser" {
      im.SetTool(id, Eraser);
      im.SetSize(id, ToolSize);
    } else if text == "Marker" {
      im.SetTool(id, Marker);
      im.SetSize(id, ToolSize);
    }
  }

  /** One turn of that loop: the device commits its line in progress when there is one. */
  method CommitOne(im: InputManager, id: DeviceId)
    requires im.Valid()
    modifies im.inputs.Values
    ensures im.Valid()
    ensures im.Snapshot() == ApplyTo(old(im.Snapshot()), id, Commit)
  {
    var line := im.GetCurrentLine(id);
    if line.Some? && line.value != [] {
      im.AddLine(id);
    } else {
      CommitNothing(im.Snapshot(), id);
    }
  }

  /** Committing an empty line in progress changes nothing. */
  lemma CommitNothing(s: Snap, id: DeviceId)
    requires id in s ==> s[id].currentLine == []
    ensures ApplyTo(s, id, Commit) == s
  {
  }

  /**
    The first loop of `handle_click`: every active device whose line in
    progress is not empty commits it.
  */
  method CommitEach(im: InputManager)
    requires im.Valid()
    modifies im.inputs.Values
    ensures im.Valid()
    ensures im.Snapshot() == CommitAll(old(im.Snapshot()))
  {
    ghost var s0 := im.Snapshot();
    var ids := im.GetActiveInputs();
    assert Distinct(ids) && forall id :: id in ids <==> id in s0;
    ghost var cur := s0;
    var i := 0;
    while i < |ids|
      invariant 0 <= i <= |ids|
      invariant im.Valid()
      invariant im.Snapshot() == cur
      invariant cur == ApplyInOrder(s0, ids[..i], Commit)
    {
      CommitOne(im, ids[i]);
      ApplyInOrderStep(s0, ids, i, Commit);
      cur := ApplyTo(cur, ids[i], Commit);
      i := i + 1;
    }
    assert ids[..i] == ids;
    ApplyInOrderToEvery(s0, ids, Commit);
  }
}
