/**
 * The console's input buffer: each character typed during a frame is either
 * a backspace, which drops the last character, or is appended.
 */
module LineEditor {

  const Backspace: char := '\U{8}'

  /** One character of a frame's typed text applied to the buffer, branch for branch. */
  function Edit(buffer: string, c: char): (r: string)
    ensures c == Backspace ==> r == (if |buffer| > 0 then buffer[..|buffer| - 1] else buffer)
    ensures c != Backspace ==> r == buffer + [c]
  {
    if c == Backspace then
      if |buffer| > 0 then buffer[..|buffer| - 1] else buffer
    else if c == ' ' then buffer + " "
    else buffer + [c]
  }

  /**
   * The whole typed text of a frame applied in order: the buffer grows by at
   * most one character per typed character, and text without backspaces,
   * spaces included, lands in it verbatim after what was there.
   */
  function Type(buffer: string, typed: string): (r: string)
    ensures |r| <= |buffer| + |typed|
    ensures Backspace !in typed ==> r == buffer + typed
    decreases |typed|
  {
    if |typed| == 0 then buffer
    else
      var r := Type(Edit(buffer, typed[0]), typed[1..]);
      assert typed[0] != Backspace ==> buffer + [typed[0]] + typed[1..] == buffer + typed;
      r
  }

  /** Typing in two bursts is the same as typing everything at once. */
  lemma {:induction false} TypeAppend(buffer: string, xs: string, ys: string)
    ensures Type(buffer, xs + ys) == Type(Type(buffer, xs), ys)
    decreases |xs|
  {
    if |xs| > 0 {
      assert (xs + ys)[1..] == xs[1..] + ys;
      TypeAppend(Edit(buffer, xs[0]), xs[1..], ys);
    } else {
      assert xs + ys == ys;
    }
  }

  /** A run of `n` backspaces removes the last `n` characters, never more than there are. */
  lemma {:induction false} TypeBackspaces(buffer: string, n: nat)
    ensures Type(buffer, seq(n, _ => Backspace)) == buffer[..if n <= |buffer| then |buffer| - n else 0]
    decreases n
  {
    var bs := seq(n, _ => Backspace);
    if n > 0 {
      assert bs[1..] == seq(n - 1, _ => Backspace);
      TypeBackspaces(Edit(buffer, Backspace), n - 1);
    }
  }

  /** A backspace right after a character undoes it. */
  lemma TypeUndo(buffer: string, c: char)
    requires c != Backspace
    ensures Type(buffer, [c, Backspace]) == buffer
  {
    var typed := [c, Backspace];
    assert typed[1..][1..] == [];
    assert Type(buffer, typed) == Type(Edit(Edit(buffer, c), Backspace), []);
    assert (buffer + [c])[..|buffer|] == buffer;
  }
}
