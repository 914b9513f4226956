/** The cell material of the simulator (`Atom` and `ElementType` in src/main.ts). */
module Atoms {

  /** The closed set of materials: empty space, sand and water. */
  datatype ElementType = Void | Sand | Water

  /**
   * One cell's content. Atoms are never mutated, and two atoms of the same
   * element type are interchangeable, so an atom is a plain value.
   */
  datatype Atom = Atom(kind: ElementType) {

    /** A cell is passable exactly when it holds the empty material. */
    predicate IsEmpty() {
      kind == Void
    }
  }

  /** The empty atom, the only one for which `IsEmpty` holds. */
  function CreateVoid(): (a: Atom)
    ensures a.IsEmpty()
    ensures forall b: Atom :: b.IsEmpty() ==> b == a
  {
    Atom(Void)
  }
}
