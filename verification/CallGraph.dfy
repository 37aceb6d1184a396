/** Call sites and what they resolve to. */
module CallGraph {
  import opened Common

  datatype Resolution =
    | Internal(callee: nat, confidence: Confidence, ambiguousWith: seq<nat>)
    | External(package: string)
    | Unresolved

  /** `nameLine` and `nameCol` are 1-based; 0 means the position of the name is unknown. */
  datatype CallSite = CallSite(caller: nat, line: nat, nameLine: nat, nameCol: nat, resolution: Resolution)
}
