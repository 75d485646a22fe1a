/** The modal editor of src/editor.rs: NORMAL and INSERT modes, the accumulated
    input waiting to match a command, the timeout that discards it, and the
    scroll offset that follows the caret of the byte piece table. */
module EditorModel {
  import opened Seqs
  import opened Text
  import opened PieceTable

  /** The key modifiers delivered with an input; their structure plays no part. */
  type Modifiers

  /** `Duration::from_secs(1)`, in nanoseconds. */
  const SECOND: nat := 1_000_000_000

  datatype Mode = Normal | Insert

  /** `DisplayInformation`: the window height in lines of text. */
  datatype DisplayInformation = DisplayInformation(windowHeightInCharacters: nat)

  /** The input waiting to match a command and the time left before it fades. */
  datatype Pending = Pending(text: string, modifs: seq<Modifiers>, timeout: nat)

  /** The mode and the pending input: the part of the editor's state that
      `handle_input` and `fade_matching_input` change. */
  datatype InputState = InputState(mode: Mode, pending: Pending)

  /** The inputs each mode's handler recognises. */
  function Commands(mode: Mode): set<string>
  {
    match mode
    case Normal => {"i", "a", "h", "l", "k", "j", "e", "dd"}
    case Insert => {"a"}
  }

  /** The pending input could still grow into a command of the mode. */
  ghost predicate IsCommandPrefix(mode: Mode, t: string)
  {
    exists c :: c in Commands(mode) && t <= c
  }

  /** The mode after the handler has seen the pending text `t`: only "i" and
      "a" in NORMAL switch to INSERT, and nothing switches back. */
  function NextMode(mode: Mode, t: string): (r: Mode)
    ensures r != mode ==> mode == Normal && r == Insert && t in Commands(Normal)
  {
    if mode == Normal && (t == "i" || t == "a") then Insert else mode
  }

  /** `handle_input` on the pure state: the text and the modifiers are added to
      the pending input, the timeout restarts at one second, and a recognised
      command clears the pending input. */
  function Step(s: InputState, text: string, modifs: Modifiers): (r: InputState)
    ensures s.mode == Insert ==> r.mode == Insert
    ensures r.mode != s.mode || MotionOf(s.mode, s.pending.text + text) != Stay
            ==> r.pending.text == [] && r.pending.modifs == []
  {
    var t := s.pending.text + text;
    var p := Pending(t, s.pending.modifs + [modifs], SECOND);
    InputState(NextMode(s.mode, t), if t in Commands(s.mode) then p.(text := [], modifs := []) else p)
  }

  /** A series of `handle_input` calls. */
  function Run(s: InputState, inputs: seq<(string, Modifiers)>): InputState
    decreases |inputs|
  {
    if inputs == [] then s else Run(Step(s, inputs[0].0, inputs[0].1), inputs[1..])
  }

  /** The texts of a series of inputs, run together. */
  function Texts(inputs: seq<(string, Modifiers)>): string
    decreases |inputs|
  {
    if inputs == [] then [] else inputs[0].0 + Texts(inputs[1..])
  }

  /** Whatever the inputs, INSERT is never left: no handler of INSERT mode
      switches back to NORMAL. */
  lemma {:induction false} InsertIsFinal(s: InputState, inputs: seq<(string, Modifiers)>)
    requires s.mode == Insert
    ensures Run(s, inputs).mode == Insert
    decreases |inputs|
  {
    if inputs != [] {
      InsertIsFinal(Step(s, inputs[0].0, inputs[0].1), inputs[1..]);
    }
  }

  /** A pending text that no command starts with never matches, however it
      grows: every later input is appended to it and the mode stays, until the
      timeout clears it. */
  lemma {:induction false} StuckInputAccumulates(s: InputState, inputs: seq<(string, Modifiers)>)
    requires !IsCommandPrefix(s.mode, s.pending.text)
    ensures Run(s, inputs).mode == s.mode
    ensures Run(s, inputs).pending.text == s.pending.text + Texts(inputs)
    decreases |inputs|
  {
    if inputs == [] {
      assert s.pending.text + [] == s.pending.text;
    } else {
      var t := s.pending.text + inputs[0].0;
      var next := Step(s, inputs[0].0, inputs[0].1);
      forall c | c in Commands(s.mode) && t <= c ensures s.pending.text <= c {
      }
      assert t !in Commands(s.mode) by {
        assert t <= t;
      }
      assert next.mode == s.mode by {
        assert (t != "i" && t != "a") || s.mode == Insert;
      }
      StuckInputAccumulates(next, inputs[1..]);
      assert t + Texts(inputs[1..]) == s.pending.text + Texts(inputs);
    }
  }

  /** A recognised command leaves nothing pending; anything else leaves all
      of it pending, with the inputs in order. */
  lemma StepSettles(s: InputState, text: string, modifs: Modifiers)
    ensures var r := Step(s, text, modifs);
      var t := s.pending.text + text;
      && r.pending.timeout == SECOND
      && (t in Commands(s.mode) <==> r.pending.text == [] && r.pending.modifs == [])
      && (t !in Commands(s.mode) ==> r.pending.text == t && r.pending.modifs == s.pending.modifs + [modifs])
      && (r.mode == Insert <==> s.mode == Insert || t == "i" || t == "a")
  {
    var t := s.pending.text + text;
    if t !in Commands(s.mode) {
      assert |s.pending.modifs + [modifs]| > 0;
    }
  }

  /** `fade_matching_input`: after more than the time left the pending input is
      dropped and the timeout is kept; otherwise the time left shrinks. */
  function Fade(p: Pending, delta: nat): (r: Pending)
    ensures r.timeout <= p.timeout
    ensures (r.text == p.text && r.modifs == p.modifs) || (r.text == [] && r.modifs == [])
    ensures delta == 0 ==> r == p
  {
    if delta > p.timeout then p.(text := [], modifs := []) else p.(timeout := p.timeout - delta)
  }

  /** Whether the pending input is dropped does not depend on how the elapsed
      time is split between calls. */
  lemma FadeSplits(p: Pending, d1: nat, d2: nat)
    ensures Fade(Fade(p, d1), d2).text == Fade(p, d1 + d2).text
    ensures Fade(Fade(p, d1), d2).modifs == Fade(p, d1 + d2).modifs
    ensures Fade(p, d1 + d2).timeout <= p.timeout
  {
    if d1 <= p.timeout && d1 + d2 > p.timeout {
      assert d2 > Fade(p, d1).timeout;
    }
  }

  /** How `handle_input` moves the caret for the pending text `t`. */
  datatype Motion = Stay | Horizontal(dx: int) | Vertical(dy: int)

  function MotionOf(mode: Mode, t: string): (r: Motion)
    ensures r != Stay ==> mode == Normal && t in Commands(Normal)
    ensures r.Horizontal? ==> r.dx == 1 || r.dx == -1
    ensures r.Vertical? ==> r.dy == 1 || r.dy == -1
  {
    if mode == Insert then Stay
    else if t == "a" || t == "l" then
      assert t in Commands(Normal);
      Horizontal(1)
    else if t == "h" then Horizontal(-1)
    else if t == "k" then Vertical(-1)
    else if t == "j" then Vertical(1)
    else Stay
  }

  /** What a motion does to the caret and the scroll offset, from `c0` and
      `off0` to `c1` and `off1`, on a buffer holding `text`. */
  predicate Moved(m: Motion, c0: Caret, off0: nat, c1: Caret, off1: nat, text: Bytes, seg: Segmenter, height: nat)
  {
    match m
    case Stay => c1 == c0 && off1 == off0
    case Horizontal(dx) =>
      && IsI64(dx)
      && c1 == HorizontalMove(c0, dx, LineGraphemes(seg, text, c1.y))
      && off1 == off0
    case Vertical(dy) =>
      && IsI64(dy) && VerticalTarget(c0.y, dy, |Lines(text)|) < |Lines(text)| && ScrollDefined(off0, dy, height)
      && c1 == VerticalMove(c0, dy, Lines(text), seg)
      && off1 == ScrollOffset(off0, dy, c1.y, height)
  }

  // ---------------------------------------------------------------------------
  // The scroll offset of `move_cursor_vertical`.

  /** `y_render_offset + window_height_in_characters - 7` is evaluated, and must
      not go below zero, only on a move down. */
  predicate ScrollDefined(offset: nat, dy: int, height: nat)
  {
    dy > 0 ==> offset + height >= 7
  }

  /** The offset after a vertical move of `dy` that left the caret on line
      `cursorY`: the two conditional updates, in order. */
  function ScrollOffset(offset: nat, dy: int, cursorY: nat, height: nat): (r: nat)
    requires ScrollDefined(offset, dy, height)
    ensures r == offset || r == offset + dy
    ensures dy == 0 ==> r == offset
  {
    var grown := if dy > 0 && cursorY > offset + height - 7 then offset + dy else offset;
    if dy < 0 && cursorY < grown + 5 && grown + dy >= 0 then grown - (-dy) else grown
  }

  /** The offset grows by `dy` on a move down that leaves the caret below line
      `height - 7` of the window, shrinks by `-dy` on a move up that leaves the
      caret above line 5 of the window when it can do so without going below
      zero, and stays otherwise. */
  lemma ScrollRule(offset: nat, dy: int, cursorY: nat, height: nat)
    requires ScrollDefined(offset, dy, height)
    ensures var r := ScrollOffset(offset, dy, cursorY, height);
      && (dy > 0 && cursorY > offset + height - 7 ==> r == offset + dy)
      && (dy < 0 && cursorY < offset + 5 && offset + dy >= 0 ==> r == offset + dy)
      && (dy < 0 && offset + dy < 0 ==> r == offset)
      && (r != offset <==>
           (dy > 0 && cursorY > offset + height - 7) || (dy < 0 && cursorY < offset + 5 && offset + dy >= 0))
  {
  }

  /** The caret keeps its margins: on a window of at least 12 lines, a caret
      at least 4 lines below the top of the window (or with the window at the
      top of the text) and at most `height - 7` lines below it stays so after
      a one-line move and the scroll that follows it. */
  lemma ScrollKeepsMargins(offset: nat, dy: int, cursorY: nat, newY: nat, height: nat)
    requires height >= 12 && (dy == 1 || dy == -1)
    requires (offset == 0 || cursorY >= offset + 4) && cursorY <= offset + height - 7
    requires dy == 1 ==> cursorY <= newY <= cursorY + 1
    requires dy == -1 ==> cursorY - 1 <= newY <= cursorY
    ensures var r := ScrollOffset(offset, dy, newY, height);
      (r == 0 || newY >= r + 4) && newY <= r + height - 7
  {
  }

  class Editor {
    var mode: Mode
    const buffer: Buffer
    var yRenderOffset: nat
    var editingFilePath: string
    var matchingInputText: string
    var matchingInputModifs: seq<Modifiers>
    var matchingInputTimeout: nat

    /** The buffer is well formed, its lines fit in a `usize` count, and the
        caret is on one of them. */
    ghost predicate Valid()
      reads buffer, buffer.pieces
    {
      && buffer.Valid() && buffer.Utf8Pieces()
      && |Lines(buffer.Text())| <= USIZE_LIMIT
      && buffer.cursorY < |Lines(buffer.Text())|
    }

    function State(): InputState
      reads this
    {
      InputState(mode, Pending(matchingInputText, matchingInputModifs, matchingInputTimeout))
    }

    /** `Editor::new`: NORMAL mode over an empty buffer, at the top, nothing
        pending and a one-second timeout. */
    constructor ()
      ensures Valid() && fresh(buffer) && fresh(buffer.pieces)
      ensures buffer.Text() == [] && buffer.CaretState() == Caret(0, 0, 0)
      ensures State() == InputState(Normal, Pending([], [], SECOND))
      ensures yRenderOffset == 0 && editingFilePath == []
    {
      mode := Normal;
      buffer := new Buffer.From([]);
      yRenderOffset := 0;
      editingFilePath := [];
      matchingInputText := [];
      matchingInputModifs := [];
      matchingInputTimeout := SECOND;
      assert Lines([]) == [[]];
    }

    /** `Editor::move_cursor_horizontal`: the buffer's horizontal move. */
    method MoveCursorHorizontal(x: int, seg: Segmenter)
      requires Valid() && IsI64(x)
      modifies buffer
      ensures Valid() && buffer.Text() == old(buffer.Text())
      ensures buffer.CaretState() == HorizontalMove(old(buffer.CaretState()), x, LineGraphemes(seg, buffer.Text(), buffer.cursorY))
      ensures buffer.append == old(buffer.append) && buffer.pieceUnderCursor == old(buffer.pieceUnderCursor)
    {
      buffer.MoveCursorHorizontal(x, seg);
    }

    /** `Editor::move_cursor_vertical`: the buffer's vertical move, then the
        scroll offset follows the caret. */
    method MoveCursorVertical(y: int, info: DisplayInformation, seg: Segmenter)
      requires Valid() && IsI64(y)
      requires VerticalTarget(buffer.cursorY, y, |Lines(buffer.Text())|) < |Lines(buffer.Text())|
      requires ScrollDefined(yRenderOffset, y, info.windowHeightInCharacters)
      modifies this, buffer
      ensures Valid() && buffer.Text() == old(buffer.Text())
      ensures buffer.CaretState() == VerticalMove(old(buffer.CaretState()), y, Lines(buffer.Text()), seg)
      ensures yRenderOffset == ScrollOffset(old(yRenderOffset), y, buffer.cursorY, info.windowHeightInCharacters)
      ensures State() == old(State()) && editingFilePath == old(editingFilePath)
      ensures buffer.append == old(buffer.append) && buffer.pieceUnderCursor == old(buffer.pieceUnderCursor)
    {
      buffer.MoveCursorVertical(y, seg);
      var (_, cursorY) := buffer.Cursor();
      if y > 0 && cursorY > yRenderOffset + info.windowHeightInCharacters - 7 {
        yRenderOffset := yRenderOffset + y;
      }
      if y < 0 && cursorY < yRenderOffset + 5 && yRenderOffset + y >= 0 {
        yRenderOffset := yRenderOffset - (-y);
      }
    }

    /** `Editor::handle_input`: the input joins the pending input, the timeout
        restarts, and the mode's handler runs. "e" in NORMAL mode, whose arm
        calls a buffer operation that does not exist, is excluded. */
    method HandleInput(text: string, modifs: Modifiers, isTextInput: bool, info: DisplayInformation, seg: Segmenter)
      requires Valid()
      requires mode == Normal ==> matchingInputText + text != "e"
      requires mode == Normal && matchingInputText + text == "j" ==> ScrollDefined(yRenderOffset, 1, info.windowHeightInCharacters)
      modifies this, buffer
      ensures Valid() && buffer.Text() == old(buffer.Text())
      ensures State() == Step(old(State()), text, modifs)
      ensures editingFilePath == old(editingFilePath)
      ensures buffer.append == old(buffer.append) && buffer.pieceUnderCursor == old(buffer.pieceUnderCursor)
      ensures Moved(MotionOf(old(mode), old(matchingInputText) + text), old(buffer.CaretState()), old(yRenderOffset),
                    buffer.CaretState(), yRenderOffset, buffer.Text(), seg, info.windowHeightInCharacters)
    {
      matchingInputText := matchingInputText + text;
      matchingInputModifs := matchingInputModifs + [modifs];
      matchingInputTimeout := SECOND;
      match mode {
        case Normal => HandleInputInNormalMode(info, seg);
        case Insert => HandleInputInInsertMode(text, isTextInput, info);
      }
    }

    /** `Editor::handle_input_in_normal_mode`: the commands of NORMAL mode on
        the pending text; a recognised one clears the pending input. */
    method HandleInputInNormalMode(info: DisplayInformation, seg: Segmenter)
      requires Valid() && mode == Normal && matchingInputText != "e"
      requires matchingInputText == "j" ==> ScrollDefined(yRenderOffset, 1, info.windowHeightInCharacters)
      modifies this, buffer
      ensures Valid() && buffer.Text() == old(buffer.Text())
      ensures var t := old(matchingInputText);
        var p := old(State()).pending;
        State() == InputState(NextMode(Normal, t), if t in Commands(Normal) then p.(text := [], modifs := []) else p)
      ensures editingFilePath == old(editingFilePath)
      ensures buffer.append == old(buffer.append) && buffer.pieceUnderCursor == old(buffer.pieceUnderCursor)
      ensures Moved(MotionOf(Normal, old(matchingInputText)), old(buffer.CaretState()), old(yRenderOffset),
                    buffer.CaretState(), yRenderOffset, buffer.Text(), seg, info.windowHeightInCharacters)
    {
      var motion, nextMode, resetMatchingInput := NormalArm(matchingInputText);
      Move(motion, info, seg);
      mode := nextMode;
      if resetMatchingInput {
        matchingInputText := [];
        matchingInputModifs := [];
      }
    }

    /** The arms of `handle_input_in_normal_mode`'s match on the pending text:
        the cursor motion, the mode to switch to, and whether the pending input
        is reset, which it is exactly for a recognised command. */
    static method NormalArm(mit: string) returns (motion: Motion, nextMode: Mode, resetMatchingInput: bool)
      requires mit != "e"
      ensures motion == MotionOf(Normal, mit) && nextMode == NextMode(Normal, mit)
      ensures resetMatchingInput <==> mit in Commands(Normal)
    {
      resetMatchingInput, motion, nextMode := true, Stay, Normal;
      if mit == "i" {
        nextMode := Insert;
      } else if mit == "a" {
        motion := Horizontal(1);
        nextMode := Insert;
      } else if mit == "h" {
        motion := Horizontal(-1);
      } else if mit == "l" {
        motion := Horizontal(1);
      } else if mit == "k" {
        motion := Vertical(-1);
      } else if mit == "j" {
        motion := Vertical(1);
      } else if mit == "dd" {
        // the arm only prints a message
      } else {
        resetMatchingInput := false;
      }
    }

    /** The cursor moves of the NORMAL-mode arms: `move_cursor_horizontal` or
        `move_cursor_vertical` by one. */
    method Move(m: Motion, info: DisplayInformation, seg: Segmenter)
      requires Valid()
      requires m.Horizontal? ==> m.dx == 1 || m.dx == -1
      requires m.Vertical? ==> (m.dy == 1 || m.dy == -1) && ScrollDefined(yRenderOffset, m.dy, info.windowHeightInCharacters)
      modifies this, buffer
      ensures Valid() && buffer.Text() == old(buffer.Text())
      ensures State() == old(State()) && editingFilePath == old(editingFilePath)
      ensures buffer.append == old(buffer.append) && buffer.pieceUnderCursor == old(buffer.pieceUnderCursor)
      ensures Moved(m, old(buffer.CaretState()), old(yRenderOffset), buffer.CaretState(), yRenderOffset, buffer.Text(), seg, info.windowHeightInCharacters)
    {
      match m {
        case Stay =>
        case Horizontal(dx) =>
          MoveCursorHorizontal(dx, seg);
        case Vertical(dy) =>
          VerticalMoveStep(buffer.CaretState(), dy, Lines(buffer.Text()), seg);
          MoveCursorVertical(dy, info, seg);
      }
    }

    /** `Editor::handle_input_in_insert_mode`: "a" is the only command, and it
        does nothing but clear the pending input. */
    method HandleInputInInsertMode(input: string, isTextInput: bool, info: DisplayInformation)
      requires mode == Insert
      modifies this
      ensures var t := old(matchingInputText);
        var p := old(State()).pending;
        State() == InputState(Insert, if t in Commands(Insert) then p.(text := [], modifs := []) else p)
      ensures yRenderOffset == old(yRenderOffset) && editingFilePath == old(editingFilePath)
    {
      var resetMatchingInput := true;
      var mit := matchingInputText;
      if mit == "a" {
        // the arm is empty
      } else {
        resetMatchingInput := false;
      }
      if resetMatchingInput {
        matchingInputText := [];
        matchingInputModifs := [];
      }
    }

    /** `Editor::fade_matching_input`. */
    method FadeMatchingInput(delta: nat)
      modifies this
      ensures State() == InputState(old(mode), Fade(old(State()).pending, delta))
      ensures yRenderOffset == old(yRenderOffset) && editingFilePath == old(editingFilePath)
    {
      if delta > matchingInputTimeout {
        matchingInputText := [];
        matchingInputModifs := [];
      } else {
        matchingInputTimeout := matchingInputTimeout - delta;
      }
    }
  }
}
