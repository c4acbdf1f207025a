/** The input events the game reacts to (lab2/main.py:47-49, 100, 191-196); every other
    pygame event falls under OtherEvent. */
module Events {

  /** A key: Space shoots; every other key only matters while the game is over. */
  datatype Key = Space | OtherKey(code: int)

  datatype Event =
    | Quit
    | KeyDown(key: Key)
    | MouseMotion(px: int, py: int)
    | MouseButtonDown
    | OtherEvent
}
