/** What several parts of the model share. */
module Common {
  datatype Option<+T> = None | Some(value: T)

  const W64 := 0x1_0000_0000_0000_0000

  /** How many results a program may have. */
  const MAX_COMMANDS := 1000

  datatype Dir = DirIn | DirOut | DirInOut

  /** The call properties, with the two integer ones as the words they are sent as. */
  datatype Props = Props(failNth: nat, async: bool, rerun: nat)

  const NO_PROPS := Props(0, false, 0)
}
