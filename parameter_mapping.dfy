/**
 * The file-to-parameter mapping edited on the dispatcher run page
 * (`handleParameterChange` in src/pages/DispatcherRunPage.tsx): file index
 * -> analysis parameter, where a parameter is held by at most one file.
 */
module ParameterMapping {

  /** The choice in the parameter drop-down that unassigns a file. */
  const NoParameter: string := "none"

  /** No two files are assigned the same parameter. */
  predicate Injective(m: map<int, string>)
  {
    forall i, j :: i in m && j in m && i != j ==> m[i] != m[j]
  }

  /**
   * `next` is what the state updater returns from `prev`: every file that held
   * `parameter` gives it up, then `fileIndex` takes `parameter`, or is left
   * unassigned when the choice is "none". Every other file keeps its parameter.
   */
  ghost predicate IsReassignment(prev: map<int, string>, fileIndex: int, parameter: string, next: map<int, string>)
  {
    && (forall k :: k in next <==>
          if k == fileIndex then parameter != NoParameter else k in prev && prev[k] != parameter)
    && (forall k :: k in next ==> next[k] == if k == fileIndex then parameter else prev[k])
  }

  /**
   * `handleParameterChange` applied to the previous mapping `prev`. Maps are
   * values, so `prev` itself is left as it was, as the copy made at line 73 ensures.
   */
  method HandleParameterChange(prev: map<int, string>, fileIndex: int, parameter: string)
    returns (next: map<int, string>)
    ensures IsReassignment(prev, fileIndex, parameter, next)
    ensures parameter == NoParameter ==> fileIndex !in next
    ensures parameter != NoParameter ==> fileIndex in next && next[fileIndex] == parameter
    ensures forall k :: k in next && k != fileIndex ==> next[k] != parameter
    ensures forall k :: k in prev && k != fileIndex && prev[k] != parameter ==> k in next && next[k] == prev[k]
  {
    next := prev;
    var keys := prev.Keys;
    // Remove this parameter from any other file.
    while exists k :: k in keys
      invariant keys <= prev.Keys
      invariant forall k :: k in next <==> k in prev && (k in keys || prev[k] != parameter)
      invariant forall k :: k in next ==> next[k] == prev[k]
      decreases keys
    {
      var k :| k in keys;
      if next[k] == parameter {
        next := next - {k};
      }
      keys := keys - {k};
    }
    if parameter == NoParameter {
      next := next - {fileIndex};
    } else {
      next := next[fileIndex := parameter];
    }
  }

  /** The update keeps every parameter on at most one file. */
  lemma ReassignmentKeepsInjective(prev: map<int, string>, fileIndex: int, parameter: string, next: map<int, string>)
    requires Injective(prev)
    requires IsReassignment(prev, fileIndex, parameter, next)
    ensures Injective(next)
  {
    forall i, j | i in next && j in next && i != j ensures next[i] != next[j] {
      if i != fileIndex && j != fileIndex {
        assert next[i] == prev[i] && next[j] == prev[j];
      }
    }
  }
}
