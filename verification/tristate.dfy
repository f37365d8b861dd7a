/** The three-valued logic of scripts/config/expr.h: no < mod < yes. */
module Tristate {

  datatype Option<+T> = None | Some(value: T)

  datatype Tri = No | Mod | Yes

  predicate Le(a: Tri, b: Tri) { a.No? || b.Yes? || a == b }

  function Min(a: Tri, b: Tri): Tri { if a.No? || b.No? then No else if a.Mod? || b.Mod? then Mod else Yes }

  function Max(a: Tri, b: Tri): Tri { if a.Yes? || b.Yes? then Yes else if a.Mod? || b.Mod? then Mod else No }

  function Flip(t: Tri): Tri {
    match t case No => Yes case Mod => Mod case Yes => No
  }

  function FromBool(b: bool): Tri { if b then Yes else No }

  /** The two connectives of the expression language. */
  datatype Op = Conj | Disj

  function Apply(op: Op, a: Tri, b: Tri): Tri {
    if op == Conj then Min(a, b) else Max(a, b)
  }

  /** The value that leaves the other operand of `op` alone. */
  function Neutral(op: Op): Tri { if op == Conj then Yes else No }

  /** The value that decides `op` by itself. */
  function Absorbing(op: Op): Tri { if op == Conj then No else Yes }
}
