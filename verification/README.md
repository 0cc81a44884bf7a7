# In-game console: command-line model

A Dafny model of the command console of the `movement` Unity project
(`Utility/ConsoleController.cs`). It covers the part of the console that
handles text and commands:

- **The line editor** (`LineEditor`). Each character typed in a frame either
  deletes the last buffered character (`'\b'`) or is appended to the buffer.
- **Submission** (`Commands`, `Console.Enter`). When Return is pressed, the
  console submits the text the input field *shows*. It does these steps in
  order:
  1. strip line feeds and underscores from that text (this removes the cursor,
     but also any underscores the user typed), then trim it;
  2. remember the result for the up arrow;
  3. split it on single spaces;
  4. check the first token against the fixed list `debug`, `speed`, `cspeed`,
     `noclip` and `sanity`;
  5. require a second token and parse it as a 32-bit integer;
  6. drop the sentinel value -1 silently.

  At most one message is printed per submission. The input line is emptied
  on every path.
- **Dispatch** (`Console.Execute`). Each command updates a state record:
  - `debug` sets the debug flag and the debug layer's bit of the camera's
    culling mask;
  - `noclip` switches the movement controller, the character controller and
    the free camera;
  - `speed` and `sanity` are recorded as opaque effects;
  - `cspeed` passes validation but has no case of its own, so it reaches the
    fallback that logs an error.
- **The toggle** (`Console.Toggle`). It flips the open flag, shows the panel
  and stops time while the console is open. It disables the movement
  controller while the console is open or the free camera is on.
- **The frame** (`Console.Frame`). One `Update` call, in the source's order:
  1. the toggle key;
  2. up-arrow recall;
  3. Return, only while the console is open;
  4. typing and the cursor redraw, only while the console is open.

The .NET library calls the submission steps depend on are modelled on strings
of Unicode scalar values (Dafny's `char`):

- `Strings`: `string.Trim()` with the full `char.IsWhiteSpace` set,
  `Replace(c, "")` for one character, and `Split(' ')` including empty pieces.
- `IntParse`: `int.TryParse` with `NumberStyles.Integer` and the invariant
  culture: optional white space, an optional `+` or `-`, one or more ASCII
  digits, within 32 bits.

Engine calls are not performed. Each has one of three stand-ins:

- Lookups become parameters. The main camera lookup is the
  `Scene.hasMainCamera` flag. `LayerMask.NameToLayer` is the
  `Scene.debugLayer` parameter.
- The `enabled` writes on the movement controller, the character controller
  and the free camera (lines 65 and 136-138) become the state fields
  `movementEnabled`, `characterEnabled` and `freeCameraEnabled`.
- The remaining calls are appended, in order, to an `effects` log in the
  state. These are `Debug.LogError`, `Debug.Break`,
  `MouseController.ToggleMouse`, `EventSystem.SetSelectedGameObject`,
  `SanityController.ChangeSanity` and the write to the movement
  controller's `Speed`.

Design decisions:

- **`Enter` reads the displayed text.** `Enter` reads `inputText.text`, which
  the previous open frame set to the buffer plus `"_"`. So the state keeps the
  buffer (`input`) and the displayed text (`display`) apart.
  `Console.SubmitShown` shows that submitting a displayed command with a
  rendered value does what a user expects.
- **How command names are checked.** `IsValidCommand` is stated as membership
  in the list. The source compares each listed name *trimmed*;
  `Commands.ValidCommandAsListed` proves the two are the same.
- **What `ExecuteCommand` receives.** Only names that passed validation reach
  `ExecuteCommand`, so `Console.Execute` takes the looked-up `Command` rather
  than a string. `Commands.Lookup` gives the name-to-command correspondence.
- **The layer's bit.** `LayerMask.NameToLayer` answers a layer index from -1
  to 31; the model takes it as the `Scene.debugLayer` parameter. C# masks a
  shift count to its low five bits, so for -1 `1 << -1` is bit 31.
  `Console.ShiftCount` models this.
- **The culling mask.** The mask is a C# `int` that is only ever combined
  bitwise, so it is modelled as a `bv32`.

## Model

| member | source | states |
|---|---|---|
| LineEditor.Edit | Utility/ConsoleController.cs:49-57 | a backspace removes exactly the last character of a non-empty buffer and leaves an empty buffer unchanged; every other character, space included, is appended once |
| LineEditor.TypeAppend | Utility/ConsoleController.cs:48-58 | typing a text in two bursts gives the same buffer as typing it at once |
| LineEditor.Type | Utility/ConsoleController.cs:48-58 | applying a frame's typed text grows the buffer by at most one character per typed character, and text without backspaces lands in the buffer verbatim, after what was there |
| LineEditor.TypeBackspaces | Utility/ConsoleController.cs:49-52 | n backspaces remove the last n characters, and never more than the buffer holds |
| LineEditor.TypeUndo | Utility/ConsoleController.cs:49-57 | a character followed by a backspace leaves the buffer as it was |
| Strings.TrimStartBy | Utility/ConsoleController.cs:86 | the result is a suffix of the input, everything dropped is padding, and the result does not start with padding |
| Strings.TrimEndBy | Utility/ConsoleController.cs:86 | the result is a prefix of the input, everything dropped is padding, and the result does not end with padding |
| Strings.Trim | Utility/ConsoleController.cs:86 | `string.Trim()`: the result is the infix of the input that starts after the leading white space; everything before and after it is white space, and it neither starts nor ends with white space, so exactly the surrounding white space is removed |
| Strings.TrimBy | Utility/ConsoleController.cs:86 | trimming by a class of padding characters removes exactly the leading and trailing padding and keeps the infix between, in order |
| Strings.TrimByPadded | Utility/ConsoleController.cs:86 | any padding wrapped around a trimmed, non-empty string is removed exactly: trimming gives that string back |
| Strings.TrimByTrimmed | Utility/ConsoleController.cs:86 | trimming a string with nothing to trim is the identity |
| Strings.TrimByAbsent | Utility/ConsoleController.cs:86 | trimming only removes characters: a character absent from the input is absent from the result |
| Strings.RemoveAll | Utility/ConsoleController.cs:86 | `Replace(c, "")` leaves no occurrence of `c` and never lengthens the text |
| Strings.RemoveAllCounts | Utility/ConsoleController.cs:86 | exactly the occurrences of `c` are removed: every other character keeps its count, and the length drops by the count of `c` |
| Strings.RemoveAllAppend | Utility/ConsoleController.cs:86 | removal distributes over concatenation, so the surviving characters keep their order |
| Strings.RemoveAllAbsent | Utility/ConsoleController.cs:86 | removing a character that does not occur changes nothing |
| Strings.Split | Utility/ConsoleController.cs:88 | `Split(' ')` yields at least one piece and no piece contains the separator |
| Strings.JoinSplit | Utility/ConsoleController.cs:88 | splitting loses nothing: joining the pieces with the separator restores the line |
| Strings.SplitJoin | Utility/ConsoleController.cs:88 | separator-free pieces joined by the separator split back into those pieces, empty ones included |
| Strings.SplitCount | Utility/ConsoleController.cs:88 | there is one piece more than there are separators, so a second token exists exactly when the line contains a space |
| Strings.SplitThree | Utility/ConsoleController.cs:88 | two separator-free pieces, each followed by a separator, are the first two pieces whatever follows |
| IntParse.NatDigits | Utility/ConsoleController.cs:103 | the decimal rendering of a natural number is a non-empty run of digits that denotes that number |
| IntParse.TryParse | Utility/ConsoleController.cs:103-104 | a successful parse always yields a 32-bit value; which numerals succeed is stated by `IntParse.ParseSignedDigits` and `IntParse.ParseAccepted` |
| IntParse.ParseShow | Utility/ConsoleController.cs:103-104 | every 32-bit value, rendered in decimal with its sign, parses back to itself |
| IntParse.ParseSignedDigits | Utility/ConsoleController.cs:103-108 | an optional `+` or `-` followed by one or more digits, leading zeros allowed, parses to the value it denotes when that fits in 32 bits, and fails otherwise |
| IntParse.ParseAccepted | Utility/ConsoleController.cs:103-108 | only that form parses: a success is the trimmed token read as an optional sign and digits, with their value |
| IntParse.ParsePadded | Utility/ConsoleController.cs:103 | leading and trailing number white space is ignored by the parse |
| IntParse.ParseNeedsDigit | Utility/ConsoleController.cs:103-108 | a token without any digit, the empty token included, fails to parse |
| IntParse.ParseRejectsOverflow | Utility/ConsoleController.cs:103-108 | a value outside the 32-bit range fails to parse instead of wrapping around |
| Commands.Lookup | Utility/ConsoleController.cs:121-145 | a name denotes a command exactly when it is valid, and that command's name is the name |
| Commands.LookupName | Utility/ConsoleController.cs:16 | every command's name is valid and looks up to that command |
| Commands.ValidCommandCases | Utility/ConsoleController.cs:16 | the valid names are exactly `debug`, `speed`, `cspeed`, `noclip` and `sanity`, case-sensitively |
| Commands.ValidCommandAsListed | Utility/ConsoleController.cs:71-73 | `commands.Any(command => command.Trim() == str)` holds exactly for the listed names |
| Commands.ValidCommandIsToken | Utility/ConsoleController.cs:16 | every valid name is a single lower-case word with nothing to trim and no space |
| Commands.Normalise | Utility/ConsoleController.cs:86 | the submitted line contains no line feed and no underscore, typed ones included, and is trimmed |
| Commands.NormaliseDisplayed | Utility/ConsoleController.cs:86 | a buffer shown with its cursor comes back unchanged when it has no line feed or underscore and no surrounding white space |
| Commands.NormaliseIdempotent | Utility/ConsoleController.cs:86 | normalising a normalised line changes nothing |
| Commands.NormaliseDropsNewline | Utility/ConsoleController.cs:86 | a line feed anywhere in the displayed text, such as the one Return types, does not change the submitted line |
| Commands.NormaliseDropsUnderscore | Utility/ConsoleController.cs:86 | an underscore anywhere in the displayed text, the cursor or a typed one, does not change the submitted line |
| Commands.NormaliseBlank | Utility/ConsoleController.cs:86 | a displayed text of nothing but white space, line feeds included, submits the empty line |
| Commands.NormaliseWords | Utility/ConsoleController.cs:86 | two lower-case words with one space between them, shown with the cursor, are submitted exactly as typed |
| Commands.NeedsValueLine | Utility/ConsoleController.cs:86-100 | a valid name shown alone with the cursor is submitted as the name and classified as lacking its value |
| Commands.InvalidValueLine | Utility/ConsoleController.cs:86-108 | a valid name followed by a word is submitted as typed and classified as an invalid value, since a word has no digit to parse |
| Commands.NormalisePadded | Utility/ConsoleController.cs:86 | any white space around a clean, non-empty line, line feeds included, is dropped and the line is kept |
| Commands.Check | Utility/ConsoleController.cs:91-113 | the checks run in order, first failure wins: INVALID COMMAND exactly for an invalid name; COMMAND NEEDS VALUE exactly for a valid name without a value; INVALID VALUE exactly for a valid name whose value does not parse; dropped exactly when the value parses to -1; a run carries the named command and the parsed value, a 32-bit value other than -1 |
| Commands.Classify | Utility/ConsoleController.cs:88-113 | the same outcomes for a whole line, on its trimmed first token and its second token: INVALID COMMAND exactly when the first is not a listed name; COMMAND NEEDS VALUE exactly when the line is a valid name without a space; INVALID VALUE exactly when the second token does not parse; dropped exactly when it parses to -1; a run carries that token's parsed value |
| Commands.Message | Utility/ConsoleController.cs:91-112 | nothing is printed exactly when the outcome is the dropped sentinel; otherwise one message is printed, starting with the line and ending with a line feed |
| Commands.ClassifyEntered | Utility/ConsoleController.cs:88-113 | a valid name, one space and a rendered 32-bit value run that command with that value, except -1, which is dropped |
| Commands.ClassifyTwoTokens | Utility/ConsoleController.cs:88-103 | a line of two space-free tokens is checked on exactly those tokens |
| Commands.ClassifyIgnoresRest | Utility/ConsoleController.cs:88-103 | tokens after the second do not change the outcome |
| Commands.ClassifyDoubleSpace | Utility/ConsoleController.cs:88-108 | a doubled space after a valid name leaves an empty value token: INVALID VALUE |
| Console.ShiftCount | Utility/ConsoleController.cs:130 | the shift count of `1 << layer` is the layer itself for layers 0 to 31, and 31 for the missing layer -1 |
| Console.SetBitAt | Utility/ConsoleController.cs:130 | or-ing in `1 << k` sets bit k and and-ing with its complement clears it; every other bit is kept |
| Console.SetBitOnOff | Utility/ConsoleController.cs:130 | setting a bit and then clearing it leaves it clear, and restores a mask in which it was clear |
| Console.SetBitOnOffOthers | Utility/ConsoleController.cs:130 | setting a bit and then clearing it keeps every other bit |
| Console.Execute | Utility/ConsoleController.cs:119-147 | `debug` sets the flag to (value == 1); if there is no main camera it logs the error and pauses the editor, otherwise it sets or clears the layer's bit and keeps all other bits. `noclip` switches movement and character off and the free camera on exactly when value is 1. `speed` and `sanity` record their value. `cspeed` only logs the fallback error. The console's own fields never change |
| Console.CspeedFallsThrough | Utility/ConsoleController.cs:143-145 | `cspeed` passes validation but reaches the fallback: it only logs an error |
| Console.DebugOnOff | Utility/ConsoleController.cs:120-130 | `debug 1` then `debug` with any other value leaves the flag off and the layer's bit clear, keeps every other bit, and so restores a mask in which the bit was clear |
| Console.NoclipOnOff | Utility/ConsoleController.cs:120-138 | `noclip 1` then `noclip` with any other value gives movement and the character back and turns the free camera off |
| Console.Submit | Utility/ConsoleController.cs:87-116 | the line becomes the recalled command, the input line is emptied, the outcome's message is appended to the output, and nothing the commands act on changes unless the outcome is a run |
| Console.Enter | Utility/ConsoleController.cs:85-117 | the normalised displayed text becomes the recalled command before any check; the input line ends empty on every path; at most the outcome's message is printed; nothing executes unless the line classifies as a run, and `Console.EnterRun` gives the converse: every run executes |
| Console.BlankEnter | Utility/ConsoleController.cs:85-95 | Return on a line of nothing but white space recalls the empty line, prints exactly ` <-- INVALID COMMAND` and a line feed after it, empties the input and changes nothing else |
| Console.EnterMessage | Utility/ConsoleController.cs:85-108 | Return on a display whose line does not run records the line, prints exactly that outcome's message, empties the input and changes nothing else |
| Console.NeedsValueEnter | Utility/ConsoleController.cs:96-100 | Return on a valid name alone prints the name followed by ` <-- COMMAND NEEDS VALUE` and a line feed, and changes nothing the commands act on |
| Console.InvalidValueEnter | Utility/ConsoleController.cs:102-108 | Return on a valid name and a word prints the line followed by ` <-- INVALID VALUE` and a line feed, and changes nothing the commands act on |
| Console.EnterRun | Utility/ConsoleController.cs:85-117 | for every display whose line classifies as a run, whatever the spelling of its value (a sign, leading zeros, number white space), the line is recorded, echoed with a line feed, and its command executed with the parsed value |
| Console.SubmitDropped | Utility/ConsoleController.cs:111-116 | a dropped line prints nothing, runs nothing, and only becomes the recalled command while the input empties |
| Console.SubmitRun | Utility/ConsoleController.cs:111-116 | a line that runs is echoed once and then executed |
| Console.SubmitShown | Utility/ConsoleController.cs:85-116 | submitting a displayed valid name, space and 32-bit value runs the command after echoing the line, or for -1 only records the line for recall |
| Console.Toggle | Utility/ConsoleController.cs:62-67 | the open flag flips; the panel is shown and time stopped exactly while open; the movement controller is on exactly when neither the console is open nor the free camera on; the mouse and selection calls are recorded and nothing else changes |
| Console.ToggleTwice | Utility/ConsoleController.cs:62-67 | toggling twice restores the open flag, the panel and the time scale |
| Console.Frame | Utility/ConsoleController.cs:34-60 | the console is open after the frame exactly when it was open with no toggle key, or closed with one. With Return, an open console records the normalised displayed text for recall and its buffer becomes the frame's typed text applied to an empty line. Without Return, the typed text is applied to the buffer, or to the recalled line after the up arrow. A closed console only performs the recall. An open console displays its buffer with the cursor; a closed one leaves the display as it was |
| Console.FramePreservesInv | Utility/ConsoleController.cs:34-67 | every frame keeps the panel and the time scale in step with the open flag |
| Console.ClosedFrameIgnoresInput | Utility/ConsoleController.cs:39-47 | while the console stays closed, typing and Return do nothing; only the up arrow still recalls |
| Console.ReturnFrame | Utility/ConsoleController.cs:39-59 | a Return frame in an open console, with or without the up arrow, is the submission of the previous frame's display, after which the text typed in the same frame starts the emptied input line |
| Console.ToggleThenFrame | Utility/ConsoleController.cs:34-45 | a frame with the toggle key is the toggle followed by the same frame without it, so Return in the opening frame submits and Return in the closing frame does not |
| Console.TypingFrame | Utility/ConsoleController.cs:39-59 | a frame in an open console without the toggle key or Return only edits the input line, or the recalled command after the up arrow, with the typed text, and displays it with the cursor; nothing else changes |
| Console.ToggleFrame | Utility/ConsoleController.cs:35-67 | a frame with only the toggle key opens or closes the console and changes nothing commands act on beyond the toggle itself and prints nothing; on opening, the typed text edits the input line |
| Console.RecallAfterEnter | Utility/ConsoleController.cs:39-45 | the up arrow in the frame after a submission brings back the submitted line, accepted or not |
| Console.TypeLine | Utility/ConsoleController.cs:47-59 | text typed into an open console without backspaces is appended to the buffer and echoed with the cursor |
| Console.Start | Utility/ConsoleController.cs:17-31 | the console starts closed and hidden, with the debug flag off, nothing typed, nothing to recall and no effects |

## Left out

- `PrintConsole`'s clear-on-overflow (`Utility/ConsoleController.cs:76-80`) is not modelled. It depends on the UI text's laid-out height, a float, so printing is modelled only as appending to the output text.
- The engine and the other behaviours are not run. `Camera.main` becomes the `Scene.hasMainCamera` flag. `LayerMask.NameToLayer("debug")` becomes the `Scene.debugLayer` parameter. `Debug.LogError`, `Debug.Break`, `MouseController.ToggleMouse`, `EventSystem.SetSelectedGameObject` and `SanityController.ChangeSanity` become entries in the effects log.
- Console.Execute: `speed` writes `movementController.Speed`. `Movement/MovementController.cs` declares no such property, only `MovementSpeed` and `CrouchSpeed` (lines 52-60). The write is therefore recorded as an opaque `SpeedSet` effect and not as a change to any speed.
- Console.Execute: `speed`, `noclip` and `ToggleConsole` dereference controllers that `Start` may leave null; that null case is not modelled.
- IntParse.TryParse: implements `NumberStyles.Integer` with the invariant culture. It does not model the trailing NUL characters .NET also accepts. It does not model sign symbols of other cultures.
- LineEditor.Edit: characters are Unicode scalar values, while .NET strings hold UTF-16 code units. A character outside the Basic Multilingual Plane is one `char` here. The source's backspace (`Substring(0, Length - 1)`, line 51) removes one code unit, which is half of a surrogate pair; the model removes the whole character. Strings are also not normalised or case-folded.
- Console.Frame: key presses (`Input.GetKeyDown` for the tilde, the up arrow and Return) and the frame's typed text (`Input.inputString`) are taken as the `Keys` parameter. The engine polling them is not modelled.
- Console.Start: the initial display text, output text, culling mask and controller flags are parameters, since they come from the scene. Only `console.SetActive(false)` and the field initialisers are modelled. The time scale is assumed to start at 1 (`paused` is false); no line of the console sets it before the first toggle.
- The dungeon generator (`Generation (PCG)/GenerationController.cs`) and the movement, screen-shake, weapon-sway and view-bob behaviours are not part of this model. They are physics, float and coroutine code outside the console.
