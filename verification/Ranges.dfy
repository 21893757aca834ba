/** Positions and ranges in a document. */
module Ranges {
  datatype Position = Position(line: nat, character: nat)

  datatype Range = Range(start: Position, end: Position)
}
