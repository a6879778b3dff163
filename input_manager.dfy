/**
  The registry of paired devices (input_manager.py): a map from device id
  to `Device`, in pairing order, through which every worker and the header
  act on a device.

  The registry's abstract value is `Snapshot()`, the record of every paired
  device. The pure functions on snapshots below are the specification; the
  methods of `InputManager` promise their new snapshot in their terms. A
  call naming an id that is not paired changes nothing.
*/
module Registry {
  import opened Strokes
  import opened Options
  import opened DeviceState

  /** A device is identified by its input path. */
  type DeviceId = string

  type Snap = map<DeviceId, DeviceRec>

  // ---------------------------------------------------------------------
  // Positions
  // ---------------------------------------------------------------------

  /** `max(lo, min(hi, v))`, as the source writes it. */
  function Clamp(lo: int, hi: int, v: int): int
  {
    var m := if hi < v then hi else v;
    if lo > m then lo else m
  }

  lemma ClampFacts(lo: int, hi: int, v: int)
    ensures Clamp(lo, hi, v) >= lo
    ensures lo <= hi ==> Clamp(lo, hi, v) <= hi
    ensures lo <= v <= hi ==> Clamp(lo, hi, v) == v
    ensures v < lo ==> Clamp(lo, hi, v) == lo
    ensures lo <= hi < v ==> Clamp(lo, hi, v) == hi
  {
  }

  /** The position the registry stores: x clamped to `[0, w]`, y to `[10, h - 10]`. */
  function ClampPosition(w: int, h: int, p: Point): Point
  {
    Point(Clamp(0, w, p.x), Clamp(10, h - 10, p.y))
  }

  /**
    A stored position lies in the box whenever the box is not empty; on a
    screen lower than 20 the stored y is 10 whatever is asked for. A
    position already inside the box is stored as it is.
  */
  lemma ClampPositionBounds(w: int, h: int, p: Point)
    requires w >= 0
    ensures 0 <= ClampPosition(w, h, p).x <= w
    ensures ClampPosition(w, h, p).y >= 10
    ensures h >= 20 ==> ClampPosition(w, h, p).y <= h - 10
    ensures h < 20 ==> ClampPosition(w, h, p).y == 10
    ensures 0 <= p.x <= w && 10 <= p.y <= h - 10 ==> ClampPosition(w, h, p) == p
  {
    ClampFacts(0, w, p.x);
    ClampFacts(10, h - 10, p.y);
  }

  /** The centre of the screen, `(w // 2, h // 2)`; Dafny's `/` agrees with floor division for the divisor 2. */
  function Center(w: int, h: int): Point
  {
    Point(w / 2, h / 2)
  }

  // ---------------------------------------------------------------------
  // Operations on the snapshot
  // ---------------------------------------------------------------------

  /** What one call does to one device record. */
  datatype DeviceOp =
    | SetPos(p: Point)
    | AddPoint(p: Point)
    | ResetLine
    | Commit
    | UndoOp
    | RedoOp
    | EraseAt(pos: Point)
    | ClearOp
    | SetColorOp(c: Color)
    | SetToolOp(t: string)
    | SetSizeOp(n: int)

  function Apply(d: DeviceRec, op: DeviceOp): DeviceRec
  {
    match op
    case SetPos(p) => d.(position := p)
    case AddPoint(p) => d.(currentLine := d.currentLine + [p])
    case ResetLine => d.(currentLine := [])
    case Commit => CommitLine(d)
    case UndoOp => UndoRec(d)
    case RedoOp => RedoRec(d)
    case EraseAt(pos) => EraseRec(d, pos)
    case ClearOp => ClearRec(d)
    case SetColorOp(c) => d.(color := c)
    case SetToolOp(t) => d.(tool := t)
    case SetSizeOp(n) => d.(size := n)
  }

  /** Applies `op` to the device `id`; an id that is not paired leaves the snapshot as it is. */
  function ApplyTo(s: Snap, id: DeviceId, op: DeviceOp): (r: Snap)
    ensures r.Keys == s.Keys
    ensures id !in s ==> r == s
    ensures forall o :: o in s && o != id ==> r[o] == s[o]
  {
    if id in s then s[id := Apply(s[id], op)] else s
  }

  /** Applies `op` once to every paired device whose id is in `ids`. */
  function ApplyToAll(s: Snap, ids: set<DeviceId>, op: DeviceOp): (r: Snap)
    ensures r.Keys == s.Keys
  {
    map id | id in s :: if id in ids then Apply(s[id], op) else s[id]
  }

  /** Growing the set by one id applies the operation to that one device more. */
  lemma ApplyToAllAdd(s: Snap, ids: set<DeviceId>, x: DeviceId, op: DeviceOp)
    requires x !in ids
    ensures ApplyToAll(s, ids + {x}, op) == ApplyTo(ApplyToAll(s, ids, op), x, op)
  {
  }

  /** Applies `op` to the devices of `ids` one after another, in that order. */
  function ApplyInOrder(s: Snap, ids: seq<DeviceId>, op: DeviceOp): (r: Snap)
    ensures r.Keys == s.Keys
  {
    if ids == [] then s else ApplyTo(ApplyInOrder(s, ids[..|ids| - 1], op), ids[|ids| - 1], op)
  }

  /** One more turn of a loop over `ids`. */
  lemma ApplyInOrderStep(s: Snap, ids: seq<DeviceId>, i: nat, op: DeviceOp)
    requires i < |ids|
    ensures ApplyInOrder(s, ids[..i + 1], op) == ApplyTo(ApplyInOrder(s, ids[..i], op), ids[i], op)
  {
    assert ids[..i + 1][..i] == ids[..i];
  }

  /**
    Going through distinct ids one at a time is applying the operation once
    to each of them, whatever the order: a loop over the paired devices
    has the same effect in any order it visits them.
  */
  lemma {:induction false} ApplyInOrderIsApplyToAll(s: Snap, ids: seq<DeviceId>, op: DeviceOp)
    requires Distinct(ids)
    ensures ApplyInOrder(s, ids, op) == ApplyToAll(s, (set id | id in ids), op)
  {
    if ids == [] {
      assert ApplyToAll(s, {}, op) == s;
    } else {
      var init, x := ids[..|ids| - 1], ids[|ids| - 1];
      assert Distinct(init);
      ApplyInOrderIsApplyToAll(s, init, op);
      var seen := set id | id in init;
      assert x !in seen;
      assert (set id | id in ids) == seen + {x};
      ApplyToAllAdd(s, seen, x, op);
    }
  }

  /** A loop over every paired id, each listed once, applies the operation to every device. */
  lemma ApplyInOrderToEvery(s: Snap, ids: seq<DeviceId>, op: DeviceOp)
    requires Distinct(ids) && forall id :: id in ids <==> id in s
    ensures ApplyInOrder(s, ids, op) == ApplyToAll(s, s.Keys, op)
  {
    ApplyInOrderIsApplyToAll(s, ids, op);
    assert (set id | id in ids) == s.Keys;
  }

  /**
    `erase`: an admin's erase first erases every paired device (itself
    included) and then erases its own strokes once more; anyone else's erase
    touches only its own strokes.
  */
  function EraseBy(s: Snap, id: DeviceId, pos: Point): Snap
  {
    if id !in s then s
    else
      var cascaded := if IsAdminRec(s[id]) then ApplyToAll(s, s.Keys, EraseAt(pos)) else s;
      ApplyTo(cascaded, id, EraseAt(pos))
  }

  /** `clear`: the same cascade as `erase`, with the clear of both stacks. */
  function ClearBy(s: Snap, id: DeviceId): Snap
  {
    if id !in s then s
    else
      var cascaded := if IsAdminRec(s[id]) then ApplyToAll(s, s.Keys, ClearOp) else s;
      ApplyTo(cascaded, id, ClearOp)
  }

  /**
    An admin's erase erases every paired device exactly once (erasing the
    admin's own strokes twice is the same as once); a non-admin's erase
    erases only the issuer's strokes; an unknown id changes nothing.
  */
  lemma EraseScope(s: Snap, id: DeviceId, pos: Point)
    ensures EraseBy(s, id, pos).Keys == s.Keys
    ensures id !in s ==> EraseBy(s, id, pos) == s
    ensures id in s && IsAdminRec(s[id]) ==>
      forall o :: o in s ==> EraseBy(s, id, pos)[o] == EraseRec(s[o], pos)
    ensures id in s && !IsAdminRec(s[id]) ==>
      && EraseBy(s, id, pos)[id] == EraseRec(s[id], pos)
      && forall o :: o in s && o != id ==> EraseBy(s, id, pos)[o] == s[o]
  {
    if id in s {
      EraseRecIdempotent(s[id], pos);
    }
  }

  /**
    An admin's clear empties both stacks of every paired device; a
    non-admin's clear empties only the issuer's; an unknown id changes nothing.
  */
  lemma ClearScope(s: Snap, id: DeviceId)
    ensures ClearBy(s, id).Keys == s.Keys
    ensures id !in s ==> ClearBy(s, id) == s
    ensures id in s && IsAdminRec(s[id]) ==>
      forall o :: o in s ==> ClearBy(s, id)[o] == ClearRec(s[o])
    ensures id in s && !IsAdminRec(s[id]) ==>
      && ClearBy(s, id)[id] == ClearRec(s[id])
      && forall o :: o in s && o != id ==> ClearBy(s, id)[o] == s[o]
  {
  }

  /** What `undo` returns: the issuer's undo stack after a successful undo, when it is not empty. */
  function UndoResult(s: Snap, id: DeviceId): Option<seq<Stroke>>
  {
    if id in s && s[id].undoStack != [] then UndoView(UndoRec(s[id])) else None
  }

  /** What `redo` returns: the issuer's undo stack after a successful redo, when it is not empty. */
  function RedoResult(s: Snap, id: DeviceId): Option<seq<Stroke>>
  {
    if id in s && s[id].redoStack != [] then UndoView(RedoRec(s[id])) else None
  }

  /**
    `undo` reports nothing both when there was nothing to undo and when it
    undid the last committed stroke; otherwise it reports the remaining strokes.
  */
  lemma UndoResultCases(s: Snap, id: DeviceId)
    ensures UndoResult(s, id).Some? <==> id in s && |s[id].undoStack| >= 2
    ensures UndoResult(s, id).Some? ==>
      UndoResult(s, id).value == s[id].undoStack[..|s[id].undoStack| - 1]
  {
  }

  /** A redo always leaves a stroke on the undo stack, so it reports nothing only when it failed. */
  lemma RedoResultCases(s: Snap, id: DeviceId)
    ensures RedoResult(s, id).Some? <==> id in s && s[id].redoStack != []
    ensures RedoResult(s, id).Some? ==>
      RedoResult(s, id).value == s[id].undoStack + [s[id].redoStack[|s[id].redoStack| - 1]]
  {
  }

  // ---------------------------------------------------------------------
  // The registry object
  // ---------------------------------------------------------------------

  /** Whether `ids` holds no id twice. */
  predicate Distinct(ids: seq<DeviceId>)
  {
    forall a, b :: 0 <= a < b < |ids| ==> ids[a] != ids[b]
  }

  /** `ids` with `x` taken out, the others in the same order: the listing order of a dictionary after a `del`. */
  function Without(ids: seq<DeviceId>, x: DeviceId): (r: seq<DeviceId>)
    ensures forall y :: y in r <==> y in ids && y != x
  {
    if ids == [] then [] else (if ids[0] == x then [] else [ids[0]]) + Without(ids[1..], x)
  }

  lemma {:induction false} WithoutDistinct(ids: seq<DeviceId>, x: DeviceId)
    requires Distinct(ids)
    ensures Distinct(Without(ids, x))
  {
    if ids != [] {
      assert Distinct(ids[1..]);
      WithoutDistinct(ids[1..], x);
      assert ids[0] !in ids[1..];
    }
  }

  /** Taking out the id listed at `k` closes the gap and keeps everything else in place. */
  lemma {:induction false} WithoutAt(ids: seq<DeviceId>, k: nat)
    requires Distinct(ids) && k < |ids|
    ensures Without(ids, ids[k]) == ids[..k] + ids[k + 1..]
  {
    if k == 0 {
      assert ids[0] !in ids[1..];
      WithoutAbsent(ids[1..], ids[0]);
    } else {
      assert Distinct(ids[1..]);
      WithoutAt(ids[1..], k - 1);
      assert ids[1..][k - 1] == ids[k];
      assert ids[..k] == [ids[0]] + ids[1..][..k - 1];
      assert ids[k + 1..] == ids[1..][k..];
    }
  }

  /** Taking out an id that is not listed changes nothing. */
  lemma {:induction false} WithoutAbsent(ids: seq<DeviceId>, x: DeviceId)
    requires x !in ids
    ensures Without(ids, x) == ids
  {
    if ids != [] {
      WithoutAbsent(ids[1..], x);
      assert ids == [ids[0]] + ids[1..];
    }
  }

  class InputManager {
    const screenWidth: int
    const screenHeight: int
    var inputs: map<DeviceId, Device>
    /** The ids in the order they were paired, the order in which the source's dictionary lists them. */
    var order: seq<DeviceId>

    /** Every paired id is listed once, and no two ids share a device object. */
    ghost predicate Valid()
      reads this
    {
      && Distinct(order)
      && (forall k :: 0 <= k < |order| ==> order[k] in inputs)
      && (forall id :: id in inputs ==> id in order)
      && (forall a, b :: a in inputs && b in inputs && a != b ==> inputs[a] != inputs[b])
    }

    /** The record of every paired device. */
    function Snapshot(): Snap
      reads this, inputs.Values
    {
      map id | id in inputs :: inputs[id].Rec()
    }

    constructor(w: int, h: int)
      ensures screenWidth == w && screenHeight == h
      ensures Valid() && Snapshot() == map[] && order == []
    {
      screenWidth := w;
      screenHeight := h;
      inputs := map[];
      order := [];
    }

    method PairDevice(id: DeviceId, name: string, userId: string) returns (ok: bool)
      requires Valid()
      modifies this
      ensures Valid()
      ensures ok <==> id !in old(Snapshot())
      ensures ok ==> Snapshot() == old(Snapshot())[id := NewRec(name, Center(screenWidth, screenHeight))]
      ensures ok ==> id in inputs && order == old(order) + [id] && fresh(inputs[id])
      ensures !ok ==> Snapshot() == old(Snapshot()) && order == old(order) && inputs == old(inputs)
      ensures forall d :: d in inputs.Values ==> d in old(inputs.Values) || fresh(d)
    {
      if id !in inputs {
        ghost var s0 := Snapshot();
        var d := new Device(id, name, userId, Center(screenWidth, screenHeight));
        inputs := inputs[id := d];
        order := order + [id];
        assert Snapshot() == s0[id := d.Rec()];
        ok := true;
      } else {
        ok := false;
      }
    }

    /** The registry's `is_admin`: false for an id that is not paired. */
    predicate IsAdmin(id: DeviceId)
      reads this, inputs.Values
    {
      id in inputs && inputs[id].IsAdmin()
    }

    method UnpairDevice(id: DeviceId) returns (ok: bool)
      requires Valid()
      modifies this
      ensures Valid()
      ensures ok <==> id in old(Snapshot())
      ensures Snapshot() == old(Snapshot()) - {id}
      ensures inputs.Values <= old(inputs.Values)
      ensures order == Without(old(order), id)
    {
      if id in inputs {
        ghost var s0 := Snapshot();
        WithoutDistinct(order, id);
        var kept := Without(order, id);
        forall k | 0 <= k < |kept|
          ensures kept[k] in inputs && kept[k] != id
        {
          assert kept[k] in kept;
        }
        inputs := inputs - {id};
        order := kept;
        assert Snapshot() == s0 - {id};
        ok := true;
      } else {
        WithoutAbsent(order, id);
        ok := false;
      }
    }

    method SetPosition(id: DeviceId, p: Point)
      requires Valid()
      modifies inputs.Values
      ensures Valid()
      ensures Snapshot() == ApplyTo(old(Snapshot()), id, SetPos(ClampPosition(screenWidth, screenHeight, p)))
    {
      var q := Point(Clamp(0, screenWidth, p.x), Clamp(10, screenHeight - 10, p.y));
      if id in inputs {
        inputs[id].SetPosition(q);
        OnlyOneChanged(id);
      }
    }

    /** The only device object whose record changed since the start of the call is the one paired with `id`. */
    twostate lemma OnlyOneChanged(id: DeviceId)
      requires Valid() && id in inputs
      requires inputs == old(inputs)
      requires forall o :: o in inputs && o != id ==> inputs[o].Rec() == old(inputs[o].Rec())
      ensures Snapshot() == old(Snapshot())[id := inputs[id].Rec()]
    {
    }

    function GetDevice(id: DeviceId): (r: Option<Device>)
      reads this
      ensures r.Some? <==> id in inputs
      ensures r.Some? ==> r.value == inputs[id]
    {
      if id in inputs then Some(inputs[id]) else None
    }

    /** The stored position, or the screen centre for an id that is not paired. */
    function GetPosition(id: DeviceId): (r: Point)
      reads this, inputs.Values
      ensures id in Snapshot() ==> r == Snapshot()[id].position
      ensures id !in Snapshot() ==> r == Center(screenWidth, screenHeight)
    {
      if id in inputs then inputs[id].position else Center(screenWidth, screenHeight)
    }

    method AddLine(id: DeviceId)
      requires Valid()
      modifies inputs.Values
      ensures Valid()
      ensures Snapshot() == ApplyTo(old(Snapshot()), id, Commit)
    {
      if id in inputs {
        inputs[id].AddLine();
        OnlyOneChanged(id);
      }
    }

    method Erase(id: DeviceId, pos: Point)
      requires Valid()
      modifies inputs.Values
      ensures Valid()
      ensures Snapshot() == EraseBy(old(Snapshot()), id, pos)
    {
      if IsAdmin(id) {
        EraseEach(pos);
      }
      EraseOwn(id, pos);
    }

    /** The device `id` alone erases at `pos`. */
    method EraseOwn(id: DeviceId, pos: Point)
      requires Valid()
      modifies inputs.Values
      ensures Valid()
      ensures Snapshot() == ApplyTo(old(Snapshot()), id, EraseAt(pos))
    {
      if id in inputs {
        inputs[id].RemovePoint(pos);
        OnlyOneChanged(id);
      }
    }

    /** The loop of an admin's `erase`: every paired device, in pairing order, erases at `pos`. */
    method EraseEach(pos: Point)
      requires Valid()
      modifies inputs.Values
      ensures Valid()
      ensures Snapshot() == ApplyToAll(old(Snapshot()), old(Snapshot()).Keys, EraseAt(pos))
    {
      ghost var s0 := Snapshot();
      ghost var cur := s0;
      var i := 0;
      while i < |order|
        invariant 0 <= i <= |order|
        invariant inputs == old(inputs) && order == old(order) && Valid()
        invariant Snapshot() == cur
        invariant cur == ApplyInOrder(s0, order[..i], EraseAt(pos))
      {
        EraseOwn(order[i], pos);
        ApplyInOrderStep(s0, order, i, EraseAt(pos));
        cur := ApplyTo(cur, order[i], EraseAt(pos));
        i := i + 1;
      }
      assert order[..i] == order;
      ApplyInOrderToEvery(s0, order, EraseAt(pos));
    }

    method Undo(id: DeviceId) returns (r: Option<seq<Stroke>>)
      requires Valid()
      modifies inputs.Values
      ensures Valid()
      ensures Snapshot() == ApplyTo(old(Snapshot()), id, UndoOp)
      ensures r == UndoResult(old(Snapshot()), id)
    {
      r := None;
      if id in inputs {
        var ok := inputs[id].Undo();
        OnlyOneChanged(id);
        if ok {
          r := inputs[id].GetUndoStack();
        }
      }
    }

    method Redo(id: DeviceId) returns (r: Option<seq<Stroke>>)
      requires Valid()
      modifies inputs.Values
      ensures Valid()
      ensures Snapshot() == ApplyTo(old(Snapshot()), id, RedoOp)
      ensures r == RedoResult(old(Snapshot()), id)
    {
      r := None;
      if id in inputs {
        var ok := inputs[id].Redo();
        OnlyOneChanged(id);
        if ok {
          r := inputs[id].GetUndoStack();
        }
      }
    }

    method Clear(id: DeviceId)
      requires Valid()
      modifies inputs.Values
      ensures Valid()
      ensures Snapshot() == ClearBy(old(Snapshot()), id)
    {
      if IsAdmin(id) {
        ClearEach();
      }
      ClearOwn(id);
    }

    /** The device `id` alone clears its stacks. */
    method ClearOwn(id: DeviceId)
      requires Valid()
      modifies inputs.Values
      ensures Valid()
      ensures Snapshot() == ApplyTo(old(Snapshot()), id, ClearOp)
    {
      if id in inputs {
        inputs[id].Clear();
        OnlyOneChanged(id);
      }
    }

    /** The loop of an admin's `clear`: every paired device, in pairing order, clears its stacks. */
    method ClearEach()
      requires Valid()
      modifies inputs.Values
      ensures Valid()
      ensures Snapshot() == ApplyToAll(old(Snapshot()), old(Snapshot()).Keys, ClearOp)
    {
      ghost var s0 := Snapshot();
      ghost var cur := s0;
      var i := 0;
      while i < |order|
        invariant 0 <= i <= |order|
        invariant inputs == old(inputs) && order == old(order) && Valid()
        invariant Snapshot() == cur
        invariant cur == ApplyInOrder(s0, order[..i], ClearOp)
      {
        ClearOwn(order[i]);
        ApplyInOrderStep(s0, order, i, ClearOp);
        cur := ApplyTo(cur, order[i], ClearOp);
        i := i + 1;
      }
      assert order[..i] == order;
      ApplyInOrderToEvery(s0, order, ClearOp);
    }

    method SetColor(id: DeviceId, c: Color)
      requires Valid()
      modifies inputs.Values
      ensures Valid()
      ensures Snapshot() == ApplyTo(old(Snapshot()), id, SetColorOp(c))
    {
      if id in inputs {
        inputs[id].SetColor(c);
        OnlyOneChanged(id);
      }
    }

    function GetColor(id: DeviceId): (r: Option<Color>)
      reads this, inputs.Values
      ensures r.Some? <==> id in Snapshot()
      ensures r.Some? ==> r.value == Snapshot()[id].color
    {
      if id in inputs then Some(inputs[id].color) else None
    }

    method SetTool(id: DeviceId, t: string)
      requires Valid()
      modifies inputs.Values
      ensures Valid()
      ensures Snapshot() == ApplyTo(old(Snapshot()), id, SetToolOp(t))
    {
      if id in inputs {
        inputs[id].SetTool(t);
        OnlyOneChanged(id);
      }
    }

    function GetTool(id: DeviceId): (r: Option<string>)
      reads this, inputs.Values
      ensures r.Some? <==> id in Snapshot()
      ensures r.Some? ==> r.value == Snapshot()[id].tool
    {
      if id in inputs then Some(inputs[id].tool) else None
    }

    method SetSize(id: DeviceId, n: int)
      requires Valid()
      modifies inputs.Values
      ensures Valid()
      ensures Snapshot() == ApplyTo(old(Snapshot()), id, SetSizeOp(n))
    {
      if id in inputs {
        inputs[id].SetSize(n);
        OnlyOneChanged(id);
      }
    }

    function GetSize(id: DeviceId): (r: Option<int>)
      reads this, inputs.Values
      ensures r.Some? <==> id in Snapshot()
      ensures r.Some? ==> r.value == Snapshot()[id].size
    {
      if id in inputs then Some(inputs[id].size) else None
    }

    function GetCurrentLine(id: DeviceId): (r: Option<seq<Point>>)
      reads this, inputs.Values
      ensures r.Some? <==> id in Snapshot()
      ensures r.Some? ==> r.value == Snapshot()[id].currentLine
    {
      if id in inputs then Some(inputs[id].currentLine) else None
    }

    method AddToCurrentLine(id: DeviceId, p: Point)
      requires Valid()
      modifies inputs.Values
      ensures Valid()
      ensures Snapshot() == ApplyTo(old(Snapshot()), id, AddPoint(p))
    {
      if id in inputs {
        inputs[id].AddToCurrentLine(p);
        OnlyOneChanged(id);
      }
    }

    method ClearCurrentLine(id: DeviceId)
      requires Valid()
      modifies inputs.Values
      ensures Valid()
      ensures Snapshot() == ApplyTo(old(Snapshot()), id, ResetLine)
    {
      if id in inputs {
        inputs[id].ResetCurrentLine();
        OnlyOneChanged(id);
      }
    }

    /** The paired ids, each once, in pairing order. */
    function GetActiveInputs(): (r: seq<DeviceId>)
      reads this, inputs.Values
      requires Valid()
      ensures Distinct(r)
      ensures forall id :: id in r <==> id in Snapshot()
    {
      order
    }
  }
}
