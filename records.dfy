// The record types the console keeps in its state (src/lib/types.ts).
module Records {

  /** A value that may be missing, as JavaScript's `undefined`. */
  datatype Option<T> = None | Some(value: T)

  /** `OutputLine["type"]`: a reply from the server, a command sent to it, or a notice. */
  datatype LineKind = In | Out | System

  /** One line of the transcript. */
  datatype OutputLine = OutputLine(id: int, kind: LineKind, text: string)

  /** A saved command shortcut. */
  datatype Preset = Preset(id: string, name: string, command: string)
}
