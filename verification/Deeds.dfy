/** What the app did to its store, as the observer writes it down. */
module Deeds {
  import opened IdentityRecord

  /** What the app did to the store; a crash is a loss of power part way through. */
  datatype Action =
    | Prepared(id: Identity)
    | PrepareFailed
    | PrepareCrashed
    | Deleted(reported: bool)
    | DeleteCrashed
  {
    predicate Deletes() {
      Deleted? || DeleteCrashed?
    }

    /** The same action cut short by a loss of power. */
    function Crashed(): Action {
      if Deletes() then DeleteCrashed else PrepareCrashed
    }
  }

  /** An action with the positions of the device's history at which it began and ended. */
  datatype Deed = Deed(action: Action, from: nat, to: nat)

  /** What is left of a trace when power is lost at position i of the history: the deeds completed
      by then, and the one under way, if any, as crashed. */
  function CutTrace(trace: seq<Deed>, i: nat): seq<Deed> {
    if trace == [] then []
    else
      var init, last := trace[..|trace| - 1], trace[|trace| - 1];
      if last.to <= i then trace
      else if last.from <= i then init + [Deed(last.action.Crashed(), last.from, i + 1)]
      else CutTrace(init, i)
  }
}
