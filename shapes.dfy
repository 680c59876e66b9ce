/** The shape records of src/lib/shapes: a shape wrapper is its type tag
    together with the record of that type, so the model folds both into one
    datatype. Colours and texts are strings (never NULL here), coordinates are
    reals. */
module Shapes {
  datatype Shape =
    | Circle(id: int, x: real, y: real, radius: real, border: string, fill: string)
    | Rectangle(id: int, x: real, y: real, width: real, height: real, border: string, fill: string)
    | Line(id: int, x1: real, y1: real, x2: real, y2: real, color: string, barrier: bool)
    | Text(id: int, x: real, y: real, border: string, fill: string, anchor: char, text: string)
    | TextStyle(family: string, weight: char, size: int)

  /** line_create: a new line is not a barrier until it is marked as one. */
  function NewLine(id: int, x1: real, y1: real, x2: real, y2: real, color: string): Shape
  {
    Line(id, x1, y1, x2, y2, color, false)
  }

  /** The barrier flag of a line (line_is_barrier); other shapes have none. */
  predicate IsBarrier(s: Shape)
  {
    s.Line? && s.barrier
  }

  /** line_set_barrier(line, true): only the flag of a line changes. */
  function MarkBarrier(s: Shape): Shape
  {
    if s.Line? then s.(barrier := true) else s
  }
}
