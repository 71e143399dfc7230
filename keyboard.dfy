/** The raw key source `get_key`, seen as a finite sequence of keystrokes
    the user will press, in order. */
module Keyboard {

  /** The character a raw-mode terminal delivers for Ctrl+C. */
  const CtrlC: char := '\U{03}'

  /** What one call of `get_key` does: the user has no more keys to press,
      or pressed Ctrl+C (the program exits), or pressed `key`. */
  datatype KeyEvent = Exhausted | Interrupted | Pressed(key: char, rest: string)

  /** One call of `get_key` on the keys still to come. */
  function ReadKey(keys: string): (e: KeyEvent)
    ensures e.Exhausted? <==> keys == []
    ensures e.Interrupted? <==> keys != [] && keys[0] == CtrlC
    ensures e.Pressed? ==> e.key == keys[0] && e.rest == keys[1..] && e.key != CtrlC
  {
    if keys == [] then Exhausted
    else if keys[0] == CtrlC then Interrupted
    else Pressed(keys[0], keys[1..])
  }
}
