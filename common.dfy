/** An optional value: `undefined`/`null` on the TypeScript side. */
module Wrappers {
  datatype Option<+T> = None | Some(value: T)
}

/**
 * The enumerations shared by the server schema and the study page:
 * the kind of timer and the background theme of a study session.
 */
module Schema {
  datatype TimerType = Pomodoro | Regular
  datatype Theme = Meadow | Forest | Rainy | City | Library
}
