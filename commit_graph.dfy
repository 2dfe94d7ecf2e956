/**
 * The values the graph builder and the serializer share: commit ids, the
 * data kept for one commit, and the commit graph itself -- a Python dict
 * from commit id to `{'message': ..., 'parents': [...]}`, which remembers
 * the order in which its keys were inserted.
 */
module CommitGraph {

  /** A commit hash as git prints it; opaque text. */
  type CommitId = string

  /** The value the graph stores under a commit id. */
  datatype CommitData = CommitData(message: string, parents: seq<CommitId>)

  /** The one failure of the core: git could not answer for a commit. */
  datatype Error = HistoryUnavailable(commit: CommitId)

  datatype Result<T> = Ok(value: T) | Err(error: Error)

  /** The repository as the graph builder sees it: what `get_commit_data`
      returns for every commit git knows. Asking about any other id fails. */
  type History = map<CommitId, CommitData>

  predicate Distinct<T(==)>(s: seq<T>)
  {
    forall i, j :: 0 <= i < j < |s| ==> s[i] != s[j]
  }

  /** The `graph` dict: its keys in insertion order, and the mapping. */
  datatype Graph = Graph(order: seq<CommitId>, nodes: map<CommitId, CommitData>)
  {
    /** The two views agree: each key occurs in `order` exactly once and
        nothing else does. */
    ghost predicate Valid()
    {
      Distinct(order) && forall c :: c in order <==> c in nodes
    }
  }

  /** The parent lists of the commits in `order`, one after the other. */
  function ParentsOf(nodes: map<CommitId, CommitData>, order: seq<CommitId>): seq<CommitId>
    requires forall c :: c in order ==> c in nodes
  {
    if order == [] then []
    else ParentsOf(nodes, order[..|order| - 1]) + nodes[order[|order| - 1]].parents
  }

  /** `ParentsOf` depends only on the entries of the commits it lists. */
  lemma {:induction false} ParentsOfFrame(n1: map<CommitId, CommitData>, n2: map<CommitId, CommitData>, order: seq<CommitId>)
    requires forall c :: c in order ==> c in n1 && c in n2 && n1[c] == n2[c]
    ensures ParentsOf(n1, order) == ParentsOf(n2, order)
  {
    if order != [] {
      ParentsOfFrame(n1, n2, order[..|order| - 1]);
    }
  }
}
