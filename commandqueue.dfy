/**
 * The renderer's frame-tagged command list (src/commandqueue.rs): every frame the input is
 * turned into camera commands tagged with the frame number, and the simulation later asks
 * for the commands of a given frame.
 */
module CommandQueue {

  import opened Common

  const U64_MAX: int := 0xFFFF_FFFF_FFFF_FFFF

  type U64 = n: int | 0 <= n <= U64_MAX

  /** The keys of the window's `Key` that the queue reads. */
  datatype Key = KeyW | KeyS | KeyA | KeyD

  /** The window's `Event`: only `MouseMotion` matters here; every other event is `OtherEvent`. */
  datatype WindowEvent = MouseMotion(xRel: int, yRel: int) | OtherEvent

  datatype Command =
    | CameraMove(forward: bool, back: bool, left: bool, right: bool)
    | CameraRotate(aroundLocalX: real, aroundGlobalY: real)

  datatype CommandF = CommandF(frame: U64, command: Command)

  /**
   * The window's input queue, whose implementation is not part of this model: a FIFO of
   * pending events and the set of keys held down.
   */
  class WindowInput {
    var events: seq<WindowEvent>
    var keysDown: set<Key>

    constructor (events: seq<WindowEvent>, keysDown: set<Key>)
      ensures this.events == events && this.keysDown == keysDown
    {
      this.events, this.keysDown := events, keysDown;
    }

    function IsKeyDown(k: Key): bool
      reads this
    {
      k in keysDown
    }

    /** Pops the oldest pending event, or reports None when there is none. */
    method Event() returns (e: Option<WindowEvent>)
      modifies this
      ensures old(events) == [] ==> e == None && events == []
      ensures old(events) != [] ==> e == Some(old(events)[0]) && events == old(events)[1..]
      ensures keysDown == old(keysDown)
    {
      if events == [] {
        e := None;
      } else {
        e := Some(events[0]);
        events := events[1..];
      }
    }
  }

  /** The camera rotation a mouse motion asks for: a hundredth of a radian per unit, negated. */
  function Rotation(xRel: int, yRel: int): (r: Command)
    ensures r.CameraRotate? && 100.0 * r.aroundLocalX == -(yRel as real) && 100.0 * r.aroundGlobalY == -(xRel as real)
  {
    CameraRotate(-(yRel as real) / 100.0, -(xRel as real) / 100.0)
  }

  /** The rotation commands `handle_input` adds for `events`, one per mouse motion, in order. */
  function Rotations(events: seq<WindowEvent>, frame: U64): (r: seq<CommandF>)
    ensures |r| <= |events|
    ensures forall c | c in r :: c.frame == frame && c.command.CameraRotate?
    ensures (forall i | 0 <= i < |events| :: events[i].MouseMotion?) ==> |r| == |events|
    ensures (forall i | 0 <= i < |events| :: !events[i].MouseMotion?) ==> r == []
  {
    if events == [] then []
    else
      var rest := Rotations(events[1..], frame);
      match events[0]
      case MouseMotion(x, y) => [CommandF(frame, Rotation(x, y))] + rest
      case OtherEvent => rest
  }

  lemma RotationsCons(e: WindowEvent, rest: seq<WindowEvent>, frame: U64)
    ensures Rotations([e] + rest, frame)
      == (if e.MouseMotion? then [CommandF(frame, Rotation(e.xRel, e.yRel))] else []) + Rotations(rest, frame)
  {
    assert ([e] + rest)[0] == e && ([e] + rest)[1..] == rest;
  }

  /** Handling one more event extends the commands added so far by that event's rotation, if any. */
  lemma DrainStep(cs: seq<CommandF>, e: WindowEvent, rest: seq<WindowEvent>, frame: U64)
    ensures cs + Rotations([e], frame) + Rotations(rest, frame) == cs + Rotations([e] + rest, frame)
  {
    RotationsCons(e, rest, frame);
    RotationsCons(e, [], frame);
    assert [e] + [] == [e];
  }

  /** The commands of frame `frameNr`, in the order they were added. */
  function Filtered(commands: seq<CommandF>, frameNr: U64): (r: seq<CommandF>)
    ensures forall c :: c in r <==> c in commands && c.frame == frameNr
    ensures |r| <= |commands|
  {
    if commands == [] then []
    else
      var rest := Filtered(commands[1..], frameNr);
      if commands[0].frame == frameNr then [commands[0]] + rest else rest
  }

  /** Filtering keeps the order of the list: filtering a concatenation concatenates the filtered parts. */
  lemma {:induction false} FilteredAppend(a: seq<CommandF>, b: seq<CommandF>, frameNr: U64)
    ensures Filtered(a + b, frameNr) == Filtered(a, frameNr) + Filtered(b, frameNr)
    decreases |a|
  {
    if a == [] {
      assert a + b == b;
    } else {
      assert (a + b)[0] == a[0] && (a + b)[1..] == a[1..] + b;
      FilteredAppend(a[1..], b, frameNr);
    }
  }

  /** A list whose commands all belong to frame `frameNr` is kept whole. */
  lemma {:induction false} FilteredOwnFrame(cs: seq<CommandF>, frameNr: U64)
    requires forall c | c in cs :: c.frame == frameNr
    ensures Filtered(cs, frameNr) == cs
    decreases |cs|
  {
    if cs != [] {
      assert cs[0] in cs;
      FilteredOwnFrame(cs[1..], frameNr);
    }
  }

  /** A list with no command of frame `frameNr` contributes nothing. */
  lemma {:induction false} FilteredOtherFrame(cs: seq<CommandF>, frameNr: U64)
    requires forall c | c in cs :: c.frame != frameNr
    ensures Filtered(cs, frameNr) == []
    decreases |cs|
  {
    if cs != [] {
      assert cs[0] in cs;
      FilteredOtherFrame(cs[1..], frameNr);
    }
  }

  lemma FilteredSingle(c: CommandF, frameNr: U64)
    ensures Filtered([c], frameNr) == if c.frame == frameNr then [c] else []
  {
    assert [c][1..] == [];
  }

  /**
   * After `handle_input` for frame `frame`, retrieving that frame yields the earlier commands of
   * the frame followed by exactly the new ones.
   */
  lemma RetrieveAfterHandleInput(before: seq<CommandF>, move: CommandF, events: seq<WindowEvent>, frame: U64)
    requires move.frame == frame
    ensures Filtered(before + [move] + Rotations(events, frame), frame)
      == Filtered(before, frame) + [move] + Rotations(events, frame)
  {
    var rs := Rotations(events, frame);
    FilteredAppend(before + [move], rs, frame);
    FilteredAppend(before, [move], frame);
    FilteredSingle(move, frame);
    FilteredOwnFrame(rs, frame);
  }

  /** `handle_input` for frame `frame` leaves the commands every other frame retrieves unchanged. */
  lemma RetrieveOtherAfterHandleInput(before: seq<CommandF>, move: CommandF, events: seq<WindowEvent>, frame: U64, other: U64)
    requires move.frame == frame && other != frame
    ensures Filtered(before + [move] + Rotations(events, frame), other) == Filtered(before, other)
  {
    var rs := Rotations(events, frame);
    FilteredAppend(before + [move], rs, other);
    FilteredAppend(before, [move], other);
    FilteredSingle(move, other);
    FilteredOtherFrame(rs, other);
    assert Filtered(before, other) + [] == Filtered(before, other);
  }

  class CommandFQueue {
    var commands: seq<CommandF>

    /** `CommandFQueue::new`: no commands. */
    constructor ()
      ensures commands == []
    {
      commands := [];
    }

    /** `add`: appends one command tagged with `frameCount`; the earlier entries stay as they were. */
    method Add(frameCount: U64, command: Command)
      modifies this
      ensures commands == old(commands) + [CommandF(frameCount, command)]
    {
      commands := commands + [CommandF(frameCount, command)];
    }

    /** `clear_commands`. */
    method ClearCommands()
      modifies this
      ensures commands == []
    {
      commands := [];
    }

    /** `retrieve_commands`: the commands of frame `frameNr`; the list itself is only read. */
    function RetrieveCommands(frameNr: U64): (r: seq<CommandF>)
      reads this
      ensures forall c :: c in r <==> c in commands && c.frame == frameNr
      ensures |r| <= |commands|
    {
      Filtered(commands, frameNr)
    }

    /**
     * `handle_input`: adds one camera move carrying the W/S/A/D key states, then drains the input
     * queue, adding one camera rotation per mouse motion in event order and ignoring every other
     * event. Every added command is tagged with `frameCount`.
     */
    method HandleInput(inputs: WindowInput, frameCount: U64)
      modifies this, inputs
      ensures inputs.events == [] && inputs.keysDown == old(inputs.keysDown)
      ensures commands == old(commands)
        + [CommandF(frameCount, CameraMove(KeyW in old(inputs.keysDown), KeyS in old(inputs.keysDown),
                                           KeyA in old(inputs.keysDown), KeyD in old(inputs.keysDown)))]
        + Rotations(old(inputs.events), frameCount)
    {
      Add(frameCount, CameraMove(inputs.IsKeyDown(KeyW), inputs.IsKeyDown(KeyS), inputs.IsKeyDown(KeyA), inputs.IsKeyDown(KeyD)));
      ghost var target := commands + Rotations(inputs.events, frameCount);
      ghost var rest := inputs.events;
      var e := inputs.Event();
      while e.Some?
        invariant inputs.keysDown == old(inputs.keysDown)
        invariant e.None? ==> inputs.events == [] && rest == []
        invariant e.Some? ==> rest == [e.value] + inputs.events
        invariant commands + Rotations(rest, frameCount) == target
        decreases |rest|
      {
        ghost var before := commands;
        DrainStep(before, e.value, inputs.events, frameCount);
        HandleEvent(e.value, frameCount);
        rest := inputs.events;
        e := inputs.Event();
        if e.Some? {
          assert rest == [e.value] + inputs.events;
        }
      }
    }

    /** One event of the drain: a mouse motion adds its rotation, every other event nothing. */
    method HandleEvent(e: WindowEvent, frameCount: U64)
      modifies this
      ensures commands == old(commands) + Rotations([e], frameCount)
    {
      RotationsCons(e, [], frameCount);
      assert [e] + [] == [e];
      match e {
        case MouseMotion(xRel, yRel) =>
          Add(frameCount, Rotation(xRel, yRel));
        case OtherEvent =>
          assert commands + [] == commands;
      }
    }
  }
}
