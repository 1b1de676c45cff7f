/** Failure outcomes of the rendering helper and of the deep merge.
    Each constructor of `Error` stands for one exception the helper raises. */
module Outcome {

  datatype Error =
    | RuleTypeError        // a rule element that is neither a pattern, a string nor `...`
    | LegendConflict       // two nodes with one legend value but different dot attributes
    | NodeSetsNotDisjoint  // a legend value is also the name of a node of the graph
    | MergeConflict        // two leaves that differ under the "raise" policy

  datatype Option<+T> = None | Some(value: T)

  datatype Result<+T> = Ok(value: T) | Err(error: Error) {
    predicate IsFailure() { Err? }

    function PropagateFailure<U>(): Result<U>
      requires Err?
    {
      Err(error)
    }

    function Extract(): T
      requires Ok?
    {
      value
    }
  }
}
