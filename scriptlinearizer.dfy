/**
 * `dialog.linearizer.ScriptLinearizer`: the strings of one script file need
 * no ordering by dialog flow, so a script group is linearised as the list of
 * its keys.  The group is a `HashMap`; its key order is modelled as
 * ascending.
 */
module ScriptLinearizing {
  import opened Collections
  import opened StringGraph

  /** `linearize(group)`: a new list of the group's keys, each once; the records are not consulted. */
  function Linearize(group: Graph): (ids: seq<int>)
    ensures forall x :: x in ids <==> x in group
    ensures NoDup(ids) && |ids| == |group.Keys|
  {
    var ids := SortedSeq(group.Keys);
    IncreasingNoDup(ids);
    ids
  }

}
