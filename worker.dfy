/**
  The per-device worker of main.py: `handle_device` pairs a mouse, folds
  its input events into the local cursor state `(x, y, button_pressed)` and
  the registry, posts header clicks for the main loop, and unpairs the
  mouse when its events end; `find_device_paths` picks one device path per
  wanted mouse name.

  Events are a finite sequence; the end of the sequence stands for the
  stop event and for the device going away.
*/
module Worker {
  import opened Strokes
  import opened Options
  import opened DeviceState
  import opened Registry

  const HeaderHeight: int := 100

  /** The largest change of a coordinate per event while the button is held. */
  const MaxStep: int := 7

  /** The mice the program looks for, the admin mouse first. */
  const DeviceNames: seq<string> := [Admin, "Lenovo Bluetooth Mouse", "Microsoft Arc Mouse"]

  /** The evdev events a worker tells apart. */
  datatype Event =
    | LeftButton(value: int)   // EV_KEY with code BTN_LEFT
    | RelX(value: int)         // EV_REL with code REL_X
    | RelY(value: int)         // EV_REL with code REL_Y
    | RelOther(value: int)     // EV_REL with any other code, such as the wheel
    | Other                    // every other event

  /** The worker's local cursor state. */
  datatype Local = Local(x: int, y: int, pressed: bool)

  /** The `USEREVENT` a worker posts for a click in the header. */
  datatype Post = Post(pos: Point, device: DeviceId)

  /** Everything one worker affects: its local state, the registry and the clicks it posted. */
  datatype World = World(local: Local, snap: Snap, posts: seq<Post>)

  // ---------------------------------------------------------------------
  // One event
  // ---------------------------------------------------------------------

  /** The cursor after a relative motion event: the delta, limited while the button is held, then the screen box. */
  function Moved(l: Local, e: Event, w: int, h: int): Local
    requires e.RelX? || e.RelY? || e.RelOther?
  {
    var d := if l.pressed then Clamp(-MaxStep, MaxStep, e.value) else e.value;
    var x := if e.RelX? then l.x + d else l.x;
    var y := if e.RelY? then l.y + d else l.y;
    Local(Clamp(0, w, x), Clamp(0, h, y), l.pressed)
  }

  /** On release, a line in progress that is not empty is committed and then cleared. */
  function Release(s: Snap, id: DeviceId): Snap
  {
    if id in s && s[id].currentLine != [] then ApplyTo(ApplyTo(s, id, Commit), id, ResetLine) else s
  }

  /** A held button below the header erases with the Eraser tool and otherwise extends the line in progress. */
  function Draw(s: Snap, id: DeviceId, p: Point): Snap
  {
    if id in s && s[id].tool == Eraser then EraseBy(s, id, p) else ApplyTo(s, id, AddPoint(p))
  }

  /** What one event does, on a screen `w` wide and `h` high, for the worker of device `id`. */
  function Step(w: int, h: int, id: DeviceId, st: World, e: Event): World
  {
    match e
    case LeftButton(v) =>
      var l := st.local;
      var posts := if !l.pressed && l.y < HeaderHeight then st.posts + [Post(Point(l.x, l.y), id)] else st.posts;
      var pressed := v == 1;
      World(l.(pressed := pressed), if pressed then st.snap else Release(st.snap, id), posts)
    case Other => st
    case _ =>
      var l := Moved(st.local, e, w, h);
      var placed := ApplyTo(st.snap, id, SetPos(ClampPosition(w, h, Point(l.x, l.y))));
      World(l, if l.pressed && l.y >= HeaderHeight then Draw(placed, id, Point(l.x, l.y)) else placed, st.posts)
  }

  /** The events folded one after the other. */
  function Run(w: int, h: int, id: DeviceId, st: World, events: seq<Event>): World
  {
    if events == [] then st else Step(w, h, id, Run(w, h, id, st, events[..|events| - 1]), events[|events| - 1])
  }

  /** The world right after pairing: the cursor at the screen centre with the button up, and nothing posted. */
  function Start(s: Snap, id: DeviceId, name: string, w: int, h: int): World
  {
    var c := Center(w, h);
    World(Local(c.x, c.y, false), s[id := NewRec(name, c)], [])
  }

  // ---------------------------------------------------------------------
  // Properties of the event step
  // ---------------------------------------------------------------------

  predicate InBox(l: Local, w: int, h: int)
  {
    0 <= l.x <= w && 0 <= l.y <= h
  }

  /**
    After a motion event the cursor is inside the screen. While the button
    is held, each coordinate moves by at most 7; while it is up, a move
    that stays on screen is taken whole. Only the named coordinate moves.
  */
  lemma MoveBounds(l: Local, e: Event, w: int, h: int)
    requires e.RelX? || e.RelY? || e.RelOther?
    requires w >= 0 && h >= 0
    ensures InBox(Moved(l, e, w, h), w, h) && Moved(l, e, w, h).pressed == l.pressed
    ensures InBox(l, w, h) && l.pressed ==>
      -MaxStep <= Moved(l, e, w, h).x - l.x <= MaxStep && -MaxStep <= Moved(l, e, w, h).y - l.y <= MaxStep
    ensures e.RelX? && !l.pressed && 0 <= l.x + e.value <= w && 0 <= l.y <= h ==>
      Moved(l, e, w, h) == l.(x := l.x + e.value)
    ensures e.RelY? && !l.pressed && 0 <= l.x <= w && 0 <= l.y + e.value <= h ==>
      Moved(l, e, w, h) == l.(y := l.y + e.value)
    ensures !e.RelX? && InBox(l, w, h) ==> Moved(l, e, w, h).x == l.x
    ensures !e.RelY? && InBox(l, w, h) ==> Moved(l, e, w, h).y == l.y
  {
    ClampFacts(-MaxStep, MaxStep, e.value);
    var d := if l.pressed then Clamp(-MaxStep, MaxStep, e.value) else e.value;
    ClampFacts(0, w, if e.RelX? then l.x + d else l.x);
    ClampFacts(0, h, if e.RelY? then l.y + d else l.y);
  }

  /** Starting inside the screen, the cursor stays inside it whatever the events. */
  lemma {:induction false} RunStaysInBox(w: int, h: int, id: DeviceId, st: World, events: seq<Event>)
    requires w >= 0 && h >= 0 && InBox(st.local, w, h)
    ensures InBox(Run(w, h, id, st, events).local, w, h)
  {
    if events != [] {
      var prev := Run(w, h, id, st, events[..|events| - 1]);
      RunStaysInBox(w, h, id, st, events[..|events| - 1]);
      var e := events[|events| - 1];
      if e.RelX? || e.RelY? || e.RelOther? {
        MoveBounds(prev.local, e, w, h);
      }
    }
  }

  /**
    A button event posts exactly one click, at the cursor, when the button
    was up and the cursor is in the header, and nothing otherwise; the
    button is then held exactly when the event's value is 1. No other event
    posts anything or changes the button.
  */
  lemma ButtonPosts(w: int, h: int, id: DeviceId, st: World, e: Event)
    ensures e.LeftButton? && !st.local.pressed && st.local.y < HeaderHeight ==>
      Step(w, h, id, st, e).posts == st.posts + [Post(Point(st.local.x, st.local.y), id)]
    ensures !(e.LeftButton? && !st.local.pressed && st.local.y < HeaderHeight) ==>
      Step(w, h, id, st, e).posts == st.posts
    ensures e.LeftButton? ==> (Step(w, h, id, st, e).local.pressed <==> e.value == 1)
    ensures !e.LeftButton? ==> Step(w, h, id, st, e).local.pressed == st.local.pressed
  {
  }

  /** Every click a worker posts carries its own device and a position in the header. */
  predicate HeaderClicks(posts: seq<Post>, id: DeviceId)
  {
    forall k :: 0 <= k < |posts| ==> posts[k].device == id && posts[k].pos.y < HeaderHeight
  }

  lemma {:induction false} RunPostsHeaderClicks(w: int, h: int, id: DeviceId, st: World, events: seq<Event>)
    requires HeaderClicks(st.posts, id)
    ensures HeaderClicks(Run(w, h, id, st, events).posts, id)
  {
    if events != [] {
      RunPostsHeaderClicks(w, h, id, st, events[..|events| - 1]);
    }
  }

  /**
    Releasing the button commits a line in progress that is not empty (and
    so empties the redo stack) and leaves no line in progress; with no line
    in progress it changes nothing. Pressing it changes no device.
  */
  lemma ReleaseCommits(w: int, h: int, id: DeviceId, st: World, v: int)
    requires id in st.snap
    ensures v != 1 ==> Step(w, h, id, st, LeftButton(v)).snap[id].currentLine == []
    ensures v != 1 && st.snap[id].currentLine != [] ==>
      && Step(w, h, id, st, LeftButton(v)).snap[id].undoStack ==
           st.snap[id].undoStack + [Stroke(st.snap[id].currentLine, st.snap[id].color)]
      && Step(w, h, id, st, LeftButton(v)).snap[id].redoStack == []
    ensures v != 1 && st.snap[id].currentLine == [] ==> Step(w, h, id, st, LeftButton(v)).snap == st.snap
    ensures v == 1 ==> Step(w, h, id, st, LeftButton(v)).snap == st.snap
    ensures Step(w, h, id, st, LeftButton(v)).snap.Keys == st.snap.Keys
  {
  }

  /**
    A motion event stores the new cursor clamped into the registry's box.
    With the button held below the header, the Eraser tool erases at the
    cursor and any other tool extends the line in progress by it; otherwise
    no stroke and no line in progress changes. Other devices change only
    when the admin device erases: then every one of them is erased at the
    cursor.
  */
  lemma MoveDraws(w: int, h: int, id: DeviceId, st: World, e: Event)
    requires e.RelX? || e.RelY? || e.RelOther?
    requires id in st.snap
    ensures Step(w, h, id, st, e).snap.Keys == st.snap.Keys
    ensures var l := Step(w, h, id, st, e).local;
      var d := Step(w, h, id, st, e).snap[id];
      && d.position == ClampPosition(w, h, Point(l.x, l.y))
      && (l.pressed && l.y >= HeaderHeight && st.snap[id].tool == Eraser ==>
            d.undoStack == EraseStack(st.snap[id].undoStack, Point(l.x, l.y)))
      && (l.pressed && l.y >= HeaderHeight && st.snap[id].tool != Eraser ==>
            d.currentLine == st.snap[id].currentLine + [Point(l.x, l.y)])
      && (!(l.pressed && l.y >= HeaderHeight) ==>
            d == st.snap[id].(position := ClampPosition(w, h, Point(l.x, l.y))))
    ensures var l := Step(w, h, id, st, e).local;
      var cascade := l.pressed && l.y >= HeaderHeight && st.snap[id].tool == Eraser && IsAdminRec(st.snap[id]);
      forall o :: o in st.snap && o != id ==>
        Step(w, h, id, st, e).snap[o] == (if cascade then EraseRec(st.snap[o], Point(l.x, l.y)) else st.snap[o])
  {
    var l := Step(w, h, id, st, e).local;
    var placed := ApplyTo(st.snap, id, SetPos(ClampPosition(w, h, Point(l.x, l.y))));
    EraseScope(placed, id, Point(l.x, l.y));
  }

  /**
    The local cursor is clamped to the whole screen, the stored position to
    the registry's box: with the button up, a move to the top edge leaves
    the cursor at y = 0 but stores y = 10.
  */
  lemma LocalAndStoredDiffer(s: Snap, id: DeviceId)
    requires id in s
    ensures var st := Step(800, 600, id, World(Local(50, 15, false), s, []), RelY(-100));
      st.local.y == 0 && st.snap[id].position == Point(50, 10)
  {
  }

  /** The same devices are paired in both snapshots, under the same names. */
  predicate SameNames(s: Snap, t: Snap)
  {
    s.Keys == t.Keys && forall o :: o in s ==> t[o].name == s[o].name
  }

  lemma ApplyToAllSameNames(s: Snap, ids: set<DeviceId>, op: DeviceOp)
    ensures SameNames(s, ApplyToAll(s, ids, op))
  {
    forall o | o in s
      ensures ApplyToAll(s, ids, op)[o].name == s[o].name
    {
      assert Apply(s[o], op).name == s[o].name;
    }
  }

  lemma EraseBySameNames(s: Snap, id: DeviceId, p: Point)
    ensures SameNames(s, EraseBy(s, id, p))
  {
    if id in s {
      ApplyToAllSameNames(s, s.Keys, EraseAt(p));
      var cascaded := if IsAdminRec(s[id]) then ApplyToAll(s, s.Keys, EraseAt(p)) else s;
      assert Apply(cascaded[id], EraseAt(p)).name == cascaded[id].name;
    }
  }

  /** No event changes which devices are paired or a device's name. */
  lemma StepKeepsNames(w: int, h: int, id: DeviceId, st: World, e: Event)
    ensures SameNames(st.snap, Step(w, h, id, st, e).snap)
  {
    if e.RelX? || e.RelY? || e.RelOther? {
      var l := Step(w, h, id, st, e).local;
      var placed := ApplyTo(st.snap, id, SetPos(ClampPosition(w, h, Point(l.x, l.y))));
      EraseBySameNames(placed, id, Point(l.x, l.y));
    }
  }

  /** The worker of a device that is not the admin never changes any other device. */
  lemma {:induction false} RunNonAdminLocal(w: int, h: int, id: DeviceId, st: World, events: seq<Event>)
    requires id in st.snap && !IsAdminRec(st.snap[id])
    ensures Run(w, h, id, st, events).snap.Keys == st.snap.Keys
    ensures Run(w, h, id, st, events).snap[id].name == st.snap[id].name
    ensures forall o :: o in st.snap && o != id ==> Run(w, h, id, st, events).snap[o] == st.snap[o]
  {
    if events != [] {
      var prev := Run(w, h, id, st, events[..|events| - 1]);
      RunNonAdminLocal(w, h, id, st, events[..|events| - 1]);
      var e := events[|events| - 1];
      StepKeepsNames(w, h, id, prev, e);
      if e.RelX? || e.RelY? || e.RelOther? {
        var l := Step(w, h, id, prev, e).local;
        var placed := ApplyTo(prev.snap, id, SetPos(ClampPosition(w, h, Point(l.x, l.y))));
        EraseScope(placed, id, Point(l.x, l.y));
      }
    }
  }

  // ---------------------------------------------------------------------
  // The worker
  // ---------------------------------------------------------------------

  /** The body of the event loop of `handle_device` for one event. */
  method HandleEvent(im: InputManager, id: DeviceId, x: int, y: int, pressed: bool, posts: seq<Post>, e: Event)
    returns (x': int, y': int, pressed': bool, posts': seq<Post>)
    requires im.Valid()
    modifies im.inputs.Values
    ensures im.Valid()
    ensures World(Local(x', y', pressed'), im.Snapshot(), posts') ==
      Step(im.screenWidth, im.screenHeight, id, World(Local(x, y, pressed), old(im.Snapshot()), posts), e)
  {
    x', y', pressed', posts' := x, y, pressed, posts;
    if e.LeftButton? {
      if !pressed && y < HeaderHeight {
        posts' := posts + [Post(Point(x, y), id)];
      }
      pressed' := e.value == 1;
      if !pressed' {
        ReleaseLine(im, id);
      }
    } else if !e.Other? {
      x', y' := MoveCursor(im.screenWidth, im.screenHeight, x, y, pressed, e);
      im.SetPosition(id, Point(x', y'));
      if pressed && y' >= HeaderHeight {
        DrawAt(im, id, Point(x', y'));
      }
    }
  }

  /** The button is released: a line in progress that is not empty is committed, then cleared. */
  method ReleaseLine(im: InputManager, id: DeviceId)
    requires im.Valid()
    modifies im.inputs.Values
    ensures im.Valid()
    ensures im.Snapshot() == Release(old(im.Snapshot()), id)
  {
    var line := im.GetCurrentLine(id);
    if line.Some? && line.value != [] {
      im.AddLine(id);
      im.ClearCurrentLine(id);
    }
  }

  /** The button is held below the header: the Eraser tool erases at `p`, any other tool extends the line. */
  method DrawAt(im: InputManager, id: DeviceId, p: Point)
    requires im.Valid()
    modifies im.inputs.Values
    ensures im.Valid()
    ensures im.Snapshot() == Draw(old(im.Snapshot()), id, p)
  {
    var tool := im.GetTool(id);
    if tool == Some(Eraser) {
      im.Erase(id, p);
    } else {
      im.AddToCurrentLine(id, p);
    }
  }

  /** The cursor after a relative motion: a step of at most 7 while the button is held, then clamped to the screen. */
  method MoveCursor(w: int, h: int, x: int, y: int, pressed: bool, e: Event) returns (x': int, y': int)
    requires e.RelX? || e.RelY? || e.RelOther?
    ensures Local(x', y', pressed) == Moved(Local(x, y, pressed), e, w, h)
  {
    x', y' := x, y;
    if e.RelX? {
      if pressed {
        x' := x' + Clamp(-MaxStep, MaxStep, e.value);
      } else {
        x' := x' + e.value;
      }
    } else if e.RelY? {
      if pressed {
        y' := y' + Clamp(-MaxStep, MaxStep, e.value);
      } else {
        y' := y' + e.value;
      }
    }
    x' := Clamp(0, w, x');
    y' := Clamp(0, h, y');
  }

  /**
    `handle_device`: pairs `id`, handles its events in order and unpairs it.
    When the id is already paired, pairing fails and the worker returns at
    once, without unpairing the device that holds the id.
  */
  method HandleDevice(im: InputManager, id: DeviceId, name: string, userId: string, events: seq<Event>)
    returns (posts: seq<Post>)
    requires im.Valid()
    modifies im, im.inputs.Values
    ensures im.Valid()
    ensures id in old(im.Snapshot()) ==> posts == [] && im.Snapshot() == old(im.Snapshot())
    ensures id !in old(im.Snapshot()) ==>
      var fin := Run(im.screenWidth, im.screenHeight, id,
                     Start(old(im.Snapshot()), id, name, im.screenWidth, im.screenHeight), events);
      posts == fin.posts && im.Snapshot() == fin.snap - {id}
  {
    var ok := im.PairDevice(id, name, userId);
    if !ok {
      return [];
    }
    var p := im.GetPosition(id);
    posts := ReadLoop(im, id, p.x, p.y, events);
    var _ := im.UnpairDevice(id);
  }

  /** The worker's `read_loop`: every event of the device, in order, starting with the button up and nothing posted. */
  method ReadLoop(im: InputManager, id: DeviceId, x0: int, y0: int, events: seq<Event>) returns (posts: seq<Post>)
    requires im.Valid()
    modifies im.inputs.Values
    ensures im.Valid()
    ensures var fin := Run(im.screenWidth, im.screenHeight, id, World(Local(x0, y0, false), old(im.Snapshot()), []), events);
      posts == fin.posts && im.Snapshot() == fin.snap
  {
    ghost var st0 := World(Local(x0, y0, false), im.Snapshot(), []);
    var x, y, pressed := x0, y0, false;
    posts := [];
    var k := 0;
    while k < |events|
      invariant 0 <= k <= |events| && im.Valid() && im.inputs == old(im.inputs)
      invariant World(Local(x, y, pressed), im.Snapshot(), posts) == Run(im.screenWidth, im.screenHeight, id, st0, events[..k])
    {
      x, y, pressed, posts := HandleEvent(im, id, x, y, pressed, posts, events[k]);
      assert events[..k + 1][..k] == events[..k];
      k := k + 1;
    }
    assert events[..k] == events;
  }

  // ---------------------------------------------------------------------
  // Choosing device paths
  // ---------------------------------------------------------------------

  /** A device as the evdev listing shows it: its path and its name. */
  datatype Listed = Listed(path: string, name: string)

  function Names(found: seq<Listed>): (r: seq<string>)
    ensures |r| == |found| && forall k :: 0 <= k < |found| ==> r[k] == found[k].name
  {
    seq(|found|, k requires 0 <= k < |found| => found[k].name)
  }

  function Paths(found: seq<Listed>): (r: seq<string>)
    ensures |r| == |found| && forall k :: 0 <= k < |found| ==> r[k] == found[k].path
  {
    seq(|found|, k requires 0 <= k < |found| => found[k].path)
  }

  /**
    The entries of the `device_paths` dictionary in insertion order: the
    first listed device of each wanted name, with its path.
  */
  function FirstPaths(listing: seq<Listed>, wanted: seq<string>): seq<Listed>
  {
    if listing == [] then []
    else
      var prev := FirstPaths(listing[..|listing| - 1], wanted);
      var d := listing[|listing| - 1];
      if d.name in wanted && d.name !in Names(prev) then prev + [d] else prev
  }

  /** A listed device is the first one listed with its name. */
  predicate FirstOfName(listing: seq<Listed>, k: int)
    requires 0 <= k < |listing|
  {
    forall j :: 0 <= j < k ==> listing[j].name != listing[k].name
  }

  /**
    Every chosen device is listed and wanted, no name is chosen twice, and
    the first listed device of every wanted name is chosen.
  */
  lemma {:induction false} FirstPathsChoice(listing: seq<Listed>, wanted: seq<string>)
    ensures forall d :: d in FirstPaths(listing, wanted) ==> d in listing && d.name in wanted
    ensures forall a, b :: 0 <= a < b < |FirstPaths(listing, wanted)| ==>
      FirstPaths(listing, wanted)[a].name != FirstPaths(listing, wanted)[b].name
    ensures forall k :: 0 <= k < |listing| && listing[k].name in wanted && FirstOfName(listing, k) ==>
      listing[k] in FirstPaths(listing, wanted)
  {
    if listing != [] {
      var init := listing[..|listing| - 1];
      var prev := FirstPaths(init, wanted);
      var d := listing[|listing| - 1];
      FirstPathsChoice(init, wanted);
      forall k | 0 <= k < |listing| && listing[k].name in wanted && FirstOfName(listing, k)
        ensures listing[k] in FirstPaths(listing, wanted)
      {
        if k < |listing| - 1 {
          assert FirstOfName(init, k);
        } else {
          forall a | 0 <= a < |prev|
            ensures prev[a].name != d.name
          {
            assert prev[a] in init;
            var j :| 0 <= j < |init| && init[j] == prev[a];
            assert listing[j].name != listing[k].name;
          }
        }
      }
    }
  }

  /**
    `find_device_paths`: walks the listing, keeps the first path of every
    wanted name in a dictionary and returns the dictionary's values in
    insertion order.
  */
  method FindDevicePaths(listing: seq<Listed>, wanted: seq<string>) returns (paths: seq<string>)
    ensures paths == Paths(FirstPaths(listing, wanted))
  {
    var devicePaths, keys := CollectPaths(listing, wanted);
    paths := ValuesInOrder(devicePaths, keys);
  }

  /** The loop that fills `device_paths`: each wanted name maps to the path of its first listed device. */
  method CollectPaths(listing: seq<Listed>, wanted: seq<string>) returns (devicePaths: map<string, string>, keys: seq<string>)
    ensures keys == Names(FirstPaths(listing, wanted))
    ensures devicePaths.Keys == set n | n in keys
    ensures forall k :: 0 <= k < |keys| ==> devicePaths[keys[k]] == FirstPaths(listing, wanted)[k].path
  {
    devicePaths, keys := map[], [];
    ghost var found: seq<Listed> := [];
    var i := 0;
    while i < |listing|
      invariant 0 <= i <= |listing|
      invariant found == FirstPaths(listing[..i], wanted)
      invariant keys == Names(found)
      invariant devicePaths.Keys == set n | n in keys
      invariant forall k :: 0 <= k < |found| ==> devicePaths[found[k].name] == found[k].path
    {
      var d := listing[i];
      assert listing[..i + 1][..i] == listing[..i];
      if d.name in wanted && d.name !in devicePaths {
        devicePaths := devicePaths[d.name := d.path];
        keys := keys + [d.name];
        found := found + [d];
      }
      i := i + 1;
    }
    assert listing[..i] == listing;
  }

  /** The dictionary's values, listed in the order of its keys. */
  method ValuesInOrder(m: map<string, string>, keys: seq<string>) returns (values: seq<string>)
    requires forall k :: 0 <= k < |keys| ==> keys[k] in m
    ensures |values| == |keys|
    ensures forall k :: 0 <= k < |keys| ==> values[k] == m[keys[k]]
  {
    values := [];
    var j := 0;
    while j < |keys|
      invariant 0 <= j <= |keys|
      invariant |values| == j
      invariant forall k :: 0 <= k < j ==> values[k] == m[keys[k]]
    {
      values := values + [m[keys[j]]];
      j := j + 1;
    }
  }

  /**
    What `main` starts a worker with, as written: the chosen paths paired
    position by position with the wanted names.
  */
  function ZippedAssignments(paths: seq<string>, names: seq<string>): (r: seq<Listed>)
    ensures |r| == if |paths| < |names| then |paths| else |names|
  {
    seq(if |paths| < |names| then |paths| else |names|, k requires 0 <= k < |paths| && k < |names| => Listed(paths[k], names[k]))
  }

  /**
    When only the Microsoft Arc mouse is attached, its path is started under
    the admin name, so its worker pairs a device that the registry treats as
    the admin.
  */
  lemma ZippedAssignmentsMislabel()
    ensures var listing := [Listed("/dev/input/event5", "Microsoft Arc Mouse")];
      var a := ZippedAssignments(Paths(FirstPaths(listing, DeviceNames)), DeviceNames);
      && a == [Listed("/dev/input/event5", Admin)]
      && IsAdminRec(NewRec(a[0].name, Point(0, 0)))
      && listing[0].path == a[0].path && !IsAdminRec(NewRec(listing[0].name, Point(0, 0)))
  {
    var listing := [Listed("/dev/input/event5", "Microsoft Arc Mouse")];
    assert listing[..0] == [];
    assert "Microsoft Arc Mouse" in DeviceNames;
  }

  /**
    The intended assignment: each chosen path with the name of the device
    listed at that path, the `device_paths` entries themselves.
  */
  function NamedAssignments(listing: seq<Listed>, wanted: seq<string>): seq<Listed>
  {
    FirstPaths(listing, wanted)
  }

  /**
    Under the intended assignment every worker is started with the name
    listed at its own path, so a mouse is paired as the admin only when it
    is the admin mouse; the paths are the ones `find_device_paths` returns.
  */
  lemma NamedAssignmentsFaithful(listing: seq<Listed>, wanted: seq<string>)
    ensures forall a :: a in NamedAssignments(listing, wanted) ==> a in listing && a.name in wanted
    ensures forall k :: 0 <= k < |listing| && listing[k].name in wanted && FirstOfName(listing, k) ==>
      listing[k] in NamedAssignments(listing, wanted)
    ensures Paths(NamedAssignments(listing, wanted)) == Paths(FirstPaths(listing, wanted))
  {
    FirstPathsChoice(listing, wanted);
  }
}
