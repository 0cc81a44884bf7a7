/**
 * The in-game console as a state machine: one `Frame` per rendered frame,
 * driven by the keys pressed and the text typed during it. Calls into the
 * engine and into other behaviours are not performed but recorded, in order,
 * as effects.
 */
module Console {
  import opened Strings
  import opened IntParse
  import opened Commands
  import LineEditor

  /** A call into the engine or into another behaviour. */
  datatype Effect =
    | SpeedSet(speed: int)           // the movement controller's speed set to the value
    | SanityChanged(amount: int)     // the sanity controller told to change sanity by the value
    | MouseToggled                   // the mouse controller told to toggle the cursor
    | InputFieldSelected             // the event system told to select the input text
    | ErrorLogged(message: string)   // an error written to the engine log
    | EditorPaused                   // the editor told to pause

  /** What `LayerMask.NameToLayer` answers: a layer index, or -1 for an unknown name. */
  type LayerIndex = k: int | -1 <= k < 32

  /** What the console finds in the scene when it runs a command. */
  datatype Scene = Scene(hasMainCamera: bool, debugLayer: LayerIndex)

  datatype State = State(
    active: bool,            // the console is open
    shown: bool,             // the console panel is active in the scene
    paused: bool,            // the time scale is 0 (it is 1 otherwise)
    input: string,           // the line being edited
    display: string,         // the text shown in the input field
    lastCommand: string,     // what the up arrow recalls
    output: string,          // the console's output text
    debug: bool,
    cullingMask: bv32,       // the main camera's culling mask, as the bits of a 32-bit int
    movementEnabled: bool,
    characterEnabled: bool,
    freeCameraEnabled: bool,
    effects: seq<Effect>)

  /** The keys pressed and the text typed during one frame. */
  datatype Keys = Keys(tilde: bool, up: bool, enter: bool, typed: string)

  /** The console as the scene starts it: closed, hidden, time running, nothing typed. */
  function Start(text: string, log: string, cullingMask: bv32, movementEnabled: bool,
                 characterEnabled: bool, freeCameraEnabled: bool): (s: State)
    ensures Inv(s) && !s.active
    ensures s.input == "" && s.lastCommand == "" && s.effects == []
    ensures !s.debug
  {
    State(false, false, false, "", text, "", log, false, cullingMask,
          movementEnabled, characterEnabled, freeCameraEnabled, [])
  }

  /** The panel is shown, and time is stopped, exactly while the console is open. */
  predicate Inv(s: State) {
    s.shown == s.active && s.paused == s.active
  }

  /** Bit `j` of a mask. */
  predicate HasBit(m: bv32, j: bv5) {
    m & (1 << j) != 0
  }

  /** The shift count C# uses for `1 << layer` on an int: the layer's low five bits. */
  function ShiftCount(layer: LayerIndex): (k: bv5)
    ensures layer >= 0 ==> k as int == layer
    ensures layer == -1 ==> k == 31
  {
    (layer % 32) as bv5
  }

  /** Bit `k` of a mask set (`|=`) or cleared (`&= ~`). */
  function SetBit(mask: bv32, k: bv5, on: bool): bv32 {
    if on then mask | (1 << k) else mask & !(1 << k)
  }

  /** The culling-mask update for a layer. */
  function SetLayer(mask: bv32, layer: LayerIndex, on: bool): bv32 {
    SetBit(mask, ShiftCount(layer), on)
  }

  /** Setting or clearing a bit changes that bit and keeps every other one. */
  lemma SetBitAt(mask: bv32, k: bv5, on: bool, j: bv5)
    ensures HasBit(SetBit(mask, k, on), j) == (if j == k then on else HasBit(mask, j))
  {
    if on {
      OrBit(mask, k, j);
    } else {
      AndNotBit(mask, k, j);
    }
  }

  lemma OrBit(mask: bv32, k: bv5, j: bv5)
    ensures HasBit(mask | (1 << k), j) == (j == k || HasBit(mask, j))
  {
  }

  lemma AndNotBit(mask: bv32, k: bv5, j: bv5)
    ensures HasBit(mask & !(1 << k), j) == (j != k && HasBit(mask, j))
  {
  }

  lemma SetBitEverywhere(mask: bv32, k: bv5, on: bool)
    ensures forall j: bv5 :: HasBit(SetBit(mask, k, on), j) == (if j == k then on else HasBit(mask, j))
  {
    forall j: bv5 {
      SetBitAt(mask, k, on, j);
    }
  }

  /** Turning a bit on and then off keeps every other bit. */
  lemma SetBitOnOffOthers(mask: bv32, k: bv5)
    ensures forall j: bv5 :: j != k ==> HasBit(SetBit(SetBit(mask, k, true), k, false), j) == HasBit(mask, j)
  {
    SetBitEverywhere(mask, k, true);
    SetBitEverywhere(SetBit(mask, k, true), k, false);
  }

  /** Turning a bit on and then off clears it, and restores a mask where it was clear. */
  lemma SetBitOnOff(mask: bv32, k: bv5)
    ensures !HasBit(SetBit(SetBit(mask, k, true), k, false), k)
    ensures !HasBit(mask, k) ==> SetBit(SetBit(mask, k, true), k, false) == mask
  {
  }

  /** The fields commands act on, and the effects recorded so far. */
  predicate SameControls(s: State, t: State) {
    && t.debug == s.debug && t.cullingMask == s.cullingMask
    && t.movementEnabled == s.movementEnabled && t.characterEnabled == s.characterEnabled
    && t.freeCameraEnabled == s.freeCameraEnabled && t.effects == s.effects
  }

  /** The fields of the console proper, which commands never touch. */
  predicate SameConsole(s: State, t: State) {
    && t.active == s.active && t.shown == s.shown && t.paused == s.paused
    && t.input == s.input && t.display == s.display
    && t.lastCommand == s.lastCommand && t.output == s.output
  }

  /**
   * Runs a command with its value; the flag is set exactly when the value
   * is 1. `cspeed` is a valid name without a case of its own and reaches the
   * fallback, which only logs an error.
   */
  function Execute(s: State, command: Command, value: int, scene: Scene): (t: State)
    ensures SameConsole(s, t)
    ensures t.debug == (if command == Debug then value == 1 else s.debug)
    ensures command == Debug && scene.hasMainCamera ==>
              forall j: bv5 ::
                HasBit(t.cullingMask, j)
                == (if j == ShiftCount(scene.debugLayer) then value == 1 else HasBit(s.cullingMask, j))
    ensures !(command == Debug && scene.hasMainCamera) ==> t.cullingMask == s.cullingMask
    ensures command == Noclip ==>
              && t.movementEnabled == (value != 1) && t.characterEnabled == (value != 1)
              && t.freeCameraEnabled == (value == 1)
    ensures command != Noclip ==>
              && t.movementEnabled == s.movementEnabled && t.characterEnabled == s.characterEnabled
              && t.freeCameraEnabled == s.freeCameraEnabled
    ensures command == Debug && !scene.hasMainCamera ==>
              t.effects == s.effects + [ErrorLogged("CANT FIND MAIN CAMERA"), EditorPaused]
    ensures command == Speed ==> t.effects == s.effects + [SpeedSet(value)]
    ensures command == Sanity ==> t.effects == s.effects + [SanityChanged(value)]
    ensures command == Cspeed ==>
              t.effects == s.effects + [ErrorLogged("SWITCH CASE FELL BACK TO DEFAULT")]
    ensures (command == Debug && scene.hasMainCamera) || command == Noclip ==>
              t.effects == s.effects
  {
    var b := value == 1;
    match command
    case Debug =>
      var s' := s.(debug := b);
      if !scene.hasMainCamera then
        s'.(effects := s'.effects + [ErrorLogged("CANT FIND MAIN CAMERA"), EditorPaused])
      else
        SetBitEverywhere(s.cullingMask, ShiftCount(scene.debugLayer), value == 1);
        s'.(cullingMask := SetLayer(s.cullingMask, scene.debugLayer, value == 1))
    case Speed =>
      s.(effects := s.effects + [SpeedSet(value)])
    case Noclip =>
      s.(movementEnabled := !b, characterEnabled := !b, freeCameraEnabled := b)
    case Sanity =>
      s.(effects := s.effects + [SanityChanged(value)])
    case Cspeed =>
      s.(effects := s.effects + [ErrorLogged("SWITCH CASE FELL BACK TO DEFAULT")])
  }

  /**
   * Submits what the input field shows. The normalised line becomes the
   * recalled command whatever happens to it, and the input line is always
   * emptied.
   */
  function Enter(s: State, scene: Scene): (t: State)
    ensures t.input == ""
    ensures t.lastCommand == Normalise(s.display)
    ensures t.output == s.output + Message(t.lastCommand, Classify(t.lastCommand))
    ensures !Classify(t.lastCommand).Run? ==> SameControls(s, t)
    ensures t.active == s.active && t.shown == s.shown && t.paused == s.paused
    ensures t.display == s.display
  {
    var line := Normalise(s.display);
    Submit(s, line, Classify(line), scene)
  }

  /**
   * What happens to a normalised line once it is classified: at most one
   * message is printed, and the command runs only on a `Run` outcome.
   */
  function Submit(s: State, line: string, outcome: Outcome, scene: Scene): (t: State)
    ensures t.input == "" && t.lastCommand == line
    ensures t.output == s.output + Message(line, outcome)
    ensures t.active == s.active && t.shown == s.shown && t.paused == s.paused
    ensures t.display == s.display
    ensures !outcome.Run? ==> SameControls(s, t)
  {
    var s' := s.(lastCommand := line, output := s.output + Message(line, outcome), input := "");
    if outcome.Run? then Execute(s', outcome.command, outcome.value, scene) else s'
  }

  /**
   * Opens or closes the console. Opening stops time; the movement
   * controller is switched off while the console is open or the free camera
   * is on, and back on otherwise.
   */
  function Toggle(s: State): (t: State)
    ensures t.active == !s.active
    ensures Inv(t)
    ensures t.movementEnabled == (!s.freeCameraEnabled && !t.active)
    ensures t.effects == s.effects + [MouseToggled, InputFieldSelected]
    ensures t.(active := s.active, shown := s.shown, paused := s.paused,
               movementEnabled := s.movementEnabled, effects := s.effects) == s
  {
    var active := !s.active;
    s.(active := active, shown := active,
       movementEnabled := if s.freeCameraEnabled then false else !active,
       paused := active,
       effects := s.effects + [MouseToggled, InputFieldSelected])
  }

  /**
   * One frame: the toggle key, then the up arrow, then Return (only while
   * open), then, while open, the typed text and the cursor redraw.
   */
  function Frame(s: State, keys: Keys, scene: Scene): (t: State)
    ensures t.active == (s.active != keys.tilde)
    ensures t.active ==> t.display == t.input + "_"
    ensures !t.active ==> t.display == s.display
    ensures t.active && keys.enter ==>
              t.lastCommand == Normalise(s.display) && t.input == LineEditor.Type("", keys.typed)
    ensures t.active && !keys.enter ==>
              && t.lastCommand == s.lastCommand
              && t.input == LineEditor.Type(if keys.up then s.lastCommand else s.input, keys.typed)
    ensures !t.active ==>
              t.lastCommand == s.lastCommand && t.input == (if keys.up then s.lastCommand else s.input)
  {
    var s1 := if keys.tilde then Toggle(s) else s;
    var s2 := if keys.up then s1.(input := s1.lastCommand) else s1;
    var s3 := if s2.active && keys.enter then Enter(s2, scene) else s2;
    if !s3.active then s3
    else
      var line := LineEditor.Type(s3.input, keys.typed);
      s3.(input := line, display := line + "_")
  }

  /**
   * A Return frame in an open console submits what the previous frame
   * displayed, and the text typed in the same frame then starts the new,
   * emptied input line. An up arrow in the same frame makes no difference:
   * the recalled line is overwritten by the submission.
   */
  lemma ReturnFrame(s: State, scene: Scene, up: bool, typed: string)
    requires s.active
    ensures Frame(s, Keys(false, up, true, typed), scene)
            == Enter(s, scene).(input := LineEditor.Type("", typed), display := LineEditor.Type("", typed) + "_")
  {
  }

  /**
   * An ordinary frame in an open console: the typed text edits the input
   * line (the recalled command instead, when the up arrow is down) and the
   * display shows it with the cursor; nothing else changes.
   */
  lemma TypingFrame(s: State, scene: Scene, up: bool, typed: string)
    requires s.active
    ensures Frame(s, Keys(false, up, false, typed), scene)
            == s.(input := LineEditor.Type(if up then s.lastCommand else s.input, typed),
                  display := LineEditor.Type(if up then s.lastCommand else s.input, typed) + "_")
  {
  }

  /**
   * A frame with only the toggle key (and possibly typed text) opens or
   * closes the console and touches no command state: no flag, mask or
   * controller changes beyond the toggle's own, and nothing is printed.
   */
  lemma ToggleFrame(s: State, scene: Scene, typed: string)
    ensures SameControls(Toggle(s), Frame(s, Keys(true, false, false, typed), scene))
    ensures Frame(s, Keys(true, false, false, typed), scene).output == s.output
    ensures Frame(s, Keys(true, false, false, typed), scene)
            == if s.active then Toggle(s)
               else Toggle(s).(input := LineEditor.Type(s.input, typed),
                               display := LineEditor.Type(s.input, typed) + "_")
  {
  }

  /**
   * The toggle key is handled first: a frame with it is the toggle followed
   * by the same frame without it. So Return in the frame that opens the
   * console submits, and Return in the frame that closes it does not.
   */
  lemma ToggleThenFrame(s: State, keys: Keys, scene: Scene)
    requires keys.tilde
    ensures Frame(s, keys, scene) == Frame(Toggle(s), keys.(tilde := false), scene)
  {
  }

  /** Every frame keeps the panel and the time scale in step with the open flag. */
  lemma FramePreservesInv(s: State, keys: Keys, scene: Scene)
    requires Inv(s)
    ensures Inv(Frame(s, keys, scene))
  {
  }

  /** While the console is closed, typing and Return do nothing; only the up arrow still recalls. */
  lemma ClosedFrameIgnoresInput(s: State, keys: Keys, scene: Scene)
    requires !s.active && !keys.tilde
    ensures Frame(s, keys, scene) == if keys.up then s.(input := s.lastCommand) else s
  {
  }

  /** Toggling twice restores the open flag, the panel and the time scale. */
  lemma ToggleTwice(s: State)
    requires Inv(s)
    ensures var t := Toggle(Toggle(s));
            t.active == s.active && t.shown == s.shown && t.paused == s.paused
            && t.movementEnabled == (!s.freeCameraEnabled && !s.active)
  {
  }

  /** `cspeed` passes validation but reaches the dispatch's fallback: it only logs an error. */
  lemma CspeedFallsThrough(s: State, value: int, scene: Scene)
    ensures Execute(s, Cspeed, value, scene)
            == s.(effects := s.effects + [ErrorLogged("SWITCH CASE FELL BACK TO DEFAULT")])
  {
  }

  /**
   * `debug 1` then `debug` with any other value leaves the flag off and the
   * layer's bit clear, keeps every other bit as it was, and so restores a mask
   * in which the layer's bit was clear.
   */
  lemma DebugOnOff(s: State, scene: Scene, off: int)
    requires scene.hasMainCamera && off != 1
    ensures var t := Execute(Execute(s, Debug, 1, scene), Debug, off, scene);
            && !t.debug && !HasBit(t.cullingMask, ShiftCount(scene.debugLayer))
            && (forall j: bv5 :: j != ShiftCount(scene.debugLayer) ==>
                  HasBit(t.cullingMask, j) == HasBit(s.cullingMask, j))
            && (!HasBit(s.cullingMask, ShiftCount(scene.debugLayer)) ==> t.cullingMask == s.cullingMask)
  {
    var k := ShiftCount(scene.debugLayer);
    var t1 := Execute(s, Debug, 1, scene);
    assert t1.cullingMask == SetBit(s.cullingMask, k, true);
    var t := Execute(t1, Debug, off, scene);
    assert t.cullingMask == SetBit(t1.cullingMask, k, false);
    SetBitOnOff(s.cullingMask, k);
    SetBitOnOffOthers(s.cullingMask, k);
  }

  /** `noclip 1` then `noclip` with any other value puts the player back under normal control. */
  lemma NoclipOnOff(s: State, scene: Scene, off: int)
    requires off != 1
    ensures var t := Execute(Execute(s, Noclip, 1, scene), Noclip, off, scene);
            t.movementEnabled && t.characterEnabled && !t.freeCameraEnabled
  {
  }

  /**
   * The up arrow in the frame after a submission brings the submitted line
   * back, whether or not it was accepted.
   */
  lemma RecallAfterEnter(s: State, scene: Scene)
    requires s.active
    ensures var t := Frame(s, Keys(false, false, true, ""), scene);
            Frame(t, Keys(false, true, false, ""), scene).input == Normalise(s.display)
  {
    var t := Frame(s, Keys(false, false, true, ""), scene);
    assert t.lastCommand == Normalise(s.display);
  }

  /** Text typed into an open console, without backspaces, is echoed with the cursor. */
  lemma TypeLine(s: State, scene: Scene, typed: string)
    requires s.active
    requires LineEditor.Backspace !in typed
    ensures var t := Frame(s, Keys(false, false, false, typed), scene);
            t.input == s.input + typed && t.display == s.input + typed + "_"
  {
  }

  /**
   * Pressing Return submits what the previous frame displayed: a valid
   * command, one space and a 32-bit value print the line and run the command,
   * unless the value is -1, in which case nothing is printed and nothing runs.
   * Either way the line can be recalled and the input line starts over.
   */
  lemma SubmitShown(s: State, scene: Scene, command: string, value: int)
    requires IsValidCommand(command) && InInt32(value)
    requires s.display == command + " " + Show(value) + "_"
    ensures var line := command + " " + Show(value);
            var t := Enter(s, scene);
            && (value == -1 ==> t == s.(input := "", lastCommand := line))
            && (value != -1 ==>
                  t == Execute(s.(input := "", lastCommand := line, output := s.output + line + "\n"),
                               Lookup(command).value, value, scene))
  {
    var line := command + " " + Show(value);
    assert Normalise(s.display) == line by {
      ValidCommandIsToken(command);
      NormaliseEntered(command, value);
    }
    assert Enter(s, scene) == Submit(s, line, Classify(line), scene);
    ClassifyEntered(command, value);
    if value == -1 {
      SubmitDropped(s, line, scene);
    } else {
      SubmitRun(s, line, Lookup(command).value, value, scene);
    }
  }

  /** A dropped line only becomes the recalled command. */
  lemma SubmitDropped(s: State, line: string, scene: Scene)
    ensures Submit(s, line, Dropped, scene) == s.(input := "", lastCommand := line)
  {
    assert s.output + "" == s.output;
  }

  /**
   * Return on an input line of nothing but white space submits the empty
   * line: it is recalled as empty, the invalid-command marker is printed
   * after it, and no command state changes.
   */
  lemma BlankEnter(s: State, scene: Scene, pad: string)
    requires All(pad, WhiteSpace)
    requires s.display == pad + "_"
    ensures Enter(s, scene) == s.(input := "", lastCommand := "", output := s.output + " <-- INVALID COMMAND\n")
  {
    assert Normalise(s.display) == "" by {
      NormaliseDropsUnderscore(pad, "");
      assert pad + "_" + "" == s.display && pad + "" == pad;
      NormaliseBlank(pad);
    }
    assert Classify("") == InvalidCommand by {
      assert Trim(FirstToken("")) == "";
    }
  }

  /**
   * Whatever the display, a line that classifies as a run is echoed and its
   * command executed with the parsed value, after the line is recorded for
   * recall and the input emptied.
   */
  lemma EnterRun(s: State, scene: Scene)
    requires Classify(Normalise(s.display)).Run?
    ensures Enter(s, scene)
            == Execute(s.(input := "", lastCommand := Normalise(s.display),
                          output := s.output + Normalise(s.display) + "\n"),
                       Classify(Normalise(s.display)).command, Classify(Normalise(s.display)).value, scene)
  {
    var line := Normalise(s.display);
    var o := Classify(line);
    SubmitRun(s, line, o.command, o.value, scene);
  }

  /** Return on a valid name alone prints the name with the missing-value marker. */
  lemma NeedsValueEnter(s: State, scene: Scene, command: string)
    requires IsValidCommand(command)
    requires s.display == command + "_"
    ensures Enter(s, scene)
            == s.(input := "", lastCommand := command,
                  output := s.output + (command + " <-- COMMAND NEEDS VALUE\n"))
  {
    NeedsValueLine(command);
    EnterMessage(s, scene, command, NeedsValue);
    assert Message(command, NeedsValue) == command + " <-- COMMAND NEEDS VALUE\n";
  }

  /** Return on a valid name and a word for its value prints the line with the bad-value marker. */
  lemma InvalidValueEnter(s: State, scene: Scene, command: string, token: string)
    requires IsValidCommand(command) && IsWord(token)
    requires s.display == command + " " + token + "_"
    ensures Enter(s, scene)
            == s.(input := "", lastCommand := command + " " + token,
                  output := s.output + (command + " " + token + " <-- INVALID VALUE\n"))
  {
    var line := command + " " + token;
    InvalidValueLine(command, token);
    EnterMessage(s, scene, line, InvalidValue);
    assert Message(line, InvalidValue) == line + " <-- INVALID VALUE\n";
  }

  /**
   * Return on a display whose line does not run records the line, prints
   * that outcome's message, empties the input and changes nothing else.
   */
  lemma EnterMessage(s: State, scene: Scene, line: string, outcome: Outcome)
    requires Normalise(s.display) == line && Classify(line) == outcome && !outcome.Run?
    ensures Enter(s, scene)
            == s.(input := "", lastCommand := line, output := s.output + Message(line, outcome))
  {
  }

  /** A line that runs is echoed and then executed. */
  lemma SubmitRun(s: State, line: string, command: Command, value: int, scene: Scene)
    ensures Submit(s, line, Run(command, value), scene)
            == Execute(s.(input := "", lastCommand := line, output := s.output + line + "\n"),
                       command, value, scene)
  {
    var echoed := s.(lastCommand := line, output := s.output + Message(line, Run(command, value)), input := "");
    assert echoed == s.(input := "", lastCommand := line, output := s.output + line + "\n");
  }

  /** A word, a space and a rendered value come back from the input field unchanged. */
  lemma NormaliseEntered(command: string, value: int)
    requires IsWord(command)
    ensures Normalise(command + " " + Show(value) + "_") == command + " " + Show(value)
  {
    var line := command + " " + Show(value);
    ShowShape(value);
    assert '\n' !in line && '_' !in line by {
      assert forall i :: 0 <= i < |line| ==> line[i] != '\n' && line[i] != '_' by {
        assert forall i :: 0 <= i < |command| ==> line[i] == command[i];
        assert forall i :: |command| < i < |line| ==> line[i] == Show(value)[i - |command| - 1];
      }
    }
    assert TrimmedBy(line, WhiteSpace) by {
      assert line[0] == command[0];
      assert line[|line| - 1] == Show(value)[|Show(value)| - 1];
    }
    NormaliseDisplayed(line);
  }
}
