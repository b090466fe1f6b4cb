// Value handles, machine representations and the build-time error taxonomy
// shared by the join-point model (v8/src/compiler/code-stub-assembler.cc).

module Nodes {

  /** A handle to a node of the machine graph. `Null` is the C++ nullptr,
      `Ext(id)` a node built by the lower-level machine assembler (a constant,
      a parameter, a load, ...), and `Phi(k)` the k-th phi emitted into the
      graph by a label. Equality is identity, as for `Node*`. */
  datatype Node = Null | Ext(id: nat) | Phi(index: nat)

  /** The machine representation a variable is typed with; it only becomes
      the representation of the phis created for that variable. */
  datatype MachineRepresentation =
    | None | Bit | Word8 | Word16 | Word32 | Word64
    | Float32 | Float64 | Simd128 | Tagged

  /** A phi node of the graph: its representation and its inputs, in the
      order of the edges of the control-flow join it belongs to. */
  datatype PhiNode = PhiNode(rep: MachineRepresentation, inputs: seq<Node>)

  /** The fatal, build-time usage errors (the DCHECKs of the source). */
  datatype BuildError =
    | UnboundVariable(variable: nat)    // Variable::value() on an unbound variable
    | InconsistentMerge(variable: nat)  // a merge-edge or bind assertion on a variable
    | DoubleBind                        // Label::Bind on a bound label
    | DoubleGenerate                    // GenerateCode called a second time

  datatype Result<T> = Success(value: T) | Failure(error: BuildError)

  datatype Outcome = Pass | Fail(error: BuildError)

  function ToOutcome<T>(r: Result<T>): Outcome
  {
    match r
    case Success(_) => Pass
    case Failure(e) => Fail(e)
  }
}
