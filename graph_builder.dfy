/**
 * `build_graph`: breadth-first expansion of commit ancestry. A FIFO queue
 * starts with the seed ids; every dequeued id that is not yet visited is
 * marked visited, fetched, stored in the graph, and its parents are
 * appended to the queue. The visited check on dequeue is the only place
 * duplicates are dropped.
 *
 * The result is specified by two independent descriptions:
 * - which commits: exactly those reachable from the seeds by parent links
 *   (`Reachable`), and the build fails exactly when one of them is
 *   unknown to git;
 * - in which order: the ids of the FIFO stream (seeds, then each stored
 *   commit's parents in turn) in order of first occurrence (`Dedup`).
 */
module GraphBuilder {
  import opened PyStr
  import opened CommitGraph
  import opened GitLog

  /** The repository as `get_commit_data` reads it: for every commit git
      knows, the two outputs it prints (the `%B` message and the `%P`
      parent line), before text-mode newline translation. Asking git about
      any other id fails. */
  type Repository = map<CommitId, CommitOutput>

  /** What `get_commit_data` returns for each commit of the repository. */
  function Parsed(repo: Repository): (history: History)
    ensures forall c :: c in history <==> c in repo
    ensures forall c :: c in history ==> Trimmed(history[c].message)
    ensures forall c, i :: c in history && 0 <= i < |history[c].parents| ==> IsToken(history[c].parents[i])
  {
    var history := map c | c in repo :: ParseCommitData(repo[c]);
    ParsedEntries(repo, history);
    history
  }

  lemma ParsedEntries(repo: Repository, history: History)
    requires history == map c | c in repo :: ParseCommitData(repo[c])
    ensures forall c :: c in history ==> Trimmed(history[c].message)
    ensures forall c, i :: c in history && 0 <= i < |history[c].parents| ==> IsToken(history[c].parents[i])
  {
    forall c | c in history
      ensures Trimmed(history[c].message)
      ensures forall i :: 0 <= i < |history[c].parents| ==> IsToken(history[c].parents[i])
    {
      var d := ParseCommitData(repo[c]);
      assert history[c] == d;
    }
  }

  /** `get_commit_data(repo, id)`: git's two outputs for the commit, parsed;
      or the failure git raises for an id it does not know. */
  function FetchCommitData(repo: Repository, id: CommitId): (r: Result<CommitData>)
    ensures r.Ok? <==> id in repo
    ensures r.Ok? ==> Trimmed(r.value.message)
    ensures r.Ok? ==> forall i :: 0 <= i < |r.value.parents| ==> IsToken(r.value.parents[i])
    ensures r.Err? ==> r.error == HistoryUnavailable(id)
  {
    if id in repo then Ok(ParseCommitData(repo[id])) else Err(HistoryUnavailable(id))
  }

  /** A commit whose message git prints with trailing whitespace, and whose
      parents it prints space-separated, is fetched with those parents and
      with that message, its line endings translated. */
  lemma FetchCommitDataRoundTrip(repo: Repository, id: CommitId, message: string, trailer: string,
                                 parents: seq<CommitId>)
    requires Trimmed(message) && AllSpace(trailer)
    requires forall i :: 0 <= i < |parents| ==> IsToken(parents[i])
    requires id in repo && repo[id] == CommitOutput(message + trailer, Join(parents, ' ') + "\n")
    ensures FetchCommitData(repo, id) == Ok(CommitData(UniversalNewlines(message), parents))
    ensures '\r' !in message ==> FetchCommitData(repo, id) == Ok(CommitData(message, parents))
  {
    ParseCommitDataRoundTrip(message, trailer, parents);
  }

  /** Fetching from the repository answers like its parsed history: the
      requirement `BuildGraph` puts on `fetch` and `history`. */
  lemma FetchAnswersParsed(repo: Repository)
    ensures forall c :: FetchCommitData(repo, c) == if c in Parsed(repo) then Ok(Parsed(repo)[c]) else Err(HistoryUnavailable(c))
  {
  }

  /** `path` follows parent links, each step from a commit git knows to one
      of the parents it reports. */
  ghost predicate IsAncestry(history: History, path: seq<CommitId>)
  {
    && |path| > 0
    && forall i :: 0 <= i < |path| - 1 ==> path[i] in history && path[i + 1] in history[path[i]].parents
  }

  /** `c` is a seed, or a parent of a reachable commit that git knows. */
  ghost predicate Reachable(history: History, seeds: seq<CommitId>, c: CommitId)
  {
    exists path :: IsAncestry(history, path) && path[0] in seeds && path[|path| - 1] == c
  }

  lemma SeedReachable(history: History, seeds: seq<CommitId>, c: CommitId)
    requires c in seeds
    ensures Reachable(history, seeds, c)
  {
    assert IsAncestry(history, [c]);
  }

  lemma ParentReachable(history: History, seeds: seq<CommitId>, c: CommitId, p: CommitId)
    requires Reachable(history, seeds, c)
    requires c in history && p in history[c].parents
    ensures Reachable(history, seeds, p)
  {
    var path :| IsAncestry(history, path) && path[0] in seeds && path[|path| - 1] == c;
    var longer := path + [p];
    forall i | 0 <= i < |longer| - 1
      ensures longer[i] in history && longer[i + 1] in history[longer[i]].parents
    {
      if i < |path| - 1 {
        assert longer[i] == path[i] && longer[i + 1] == path[i + 1];
      }
    }
    assert IsAncestry(history, longer);
  }

  /** The entries of a set of stored commits are what git reports for them. */
  ghost predicate Fetched(history: History, nodes: map<CommitId, CommitData>)
  {
    forall c :: c in nodes ==> c in history && nodes[c] == history[c]
  }

  /** Every parent any stored commit lists is itself stored. */
  ghost predicate ParentClosed(nodes: map<CommitId, CommitData>)
  {
    forall c, p :: c in nodes && p in nodes[c].parents ==> p in nodes
  }

  /** An ancestry path that starts among parent-closed stored commits never
      leaves them. */
  lemma {:induction false} AncestryStaysInside(history: History, nodes: map<CommitId, CommitData>, path: seq<CommitId>)
    requires IsAncestry(history, path) && path[0] in nodes
    requires Fetched(history, nodes) && ParentClosed(nodes)
    ensures path[|path| - 1] in nodes
  {
    if |path| > 1 {
      var init := path[..|path| - 1];
      assert IsAncestry(history, init) by {
        forall i | 0 <= i < |init| - 1
          ensures init[i] in history && init[i + 1] in history[init[i]].parents
        {
          assert init[i] == path[i] && init[i + 1] == path[i + 1];
        }
      }
      AncestryStaysInside(history, nodes, init);
      var c := path[|path| - 2];
      assert c in history && path[|path| - 1] in history[c].parents;
      assert c in nodes && nodes[c] == history[c];
    }
  }

  /** A parent-closed set of stored commits that holds the seeds holds every
      reachable commit. */
  lemma ClosedHoldsReachable(history: History, seeds: seq<CommitId>, nodes: map<CommitId, CommitData>)
    requires Fetched(history, nodes) && ParentClosed(nodes)
    requires forall c :: c in seeds ==> c in nodes
    ensures forall c :: Reachable(history, seeds, c) ==> c in nodes
  {
    forall c | Reachable(history, seeds, c) ensures c in nodes {
      var path :| IsAncestry(history, path) && path[0] in seeds && path[|path| - 1] == c;
      AncestryStaysInside(history, nodes, path);
    }
  }

  /** Every parent of a stored commit is stored or still waits in the queue. */
  ghost predicate ParentsPending(nodes: map<CommitId, CommitData>, queue: seq<CommitId>)
  {
    forall c, p :: c in nodes && p in nodes[c].parents ==> p in nodes || p in queue
  }

  /** Every seed is stored or still waits in the queue. */
  ghost predicate SeedsPending(seeds: seq<CommitId>, nodes: map<CommitId, CommitData>, queue: seq<CommitId>)
  {
    forall c :: c in seeds ==> c in nodes || c in queue
  }

  /** Dropping an already stored id from the head of the queue loses nothing. */
  lemma SkipStored(seeds: seq<CommitId>, nodes: map<CommitId, CommitData>, queue: seq<CommitId>)
    requires queue != [] && queue[0] in nodes
    requires ParentsPending(nodes, queue) && SeedsPending(seeds, nodes, queue)
    ensures ParentsPending(nodes, queue[1..]) && SeedsPending(seeds, nodes, queue[1..])
  {
    forall x | x in queue ensures x == queue[0] || x in queue[1..] {
      var i :| 0 <= i < |queue| && queue[i] == x;
      if i > 0 {
        assert queue[1..][i - 1] == x;
      }
    }
  }

  /** Storing the head of the queue and queueing its parents loses nothing. */
  lemma StoreHead(seeds: seq<CommitId>, nodes: map<CommitId, CommitData>, queue: seq<CommitId>, data: CommitData)
    requires queue != []
    requires ParentsPending(nodes, queue) && SeedsPending(seeds, nodes, queue)
    ensures ParentsPending(nodes[queue[0] := data], queue[1..] + data.parents)
    ensures SeedsPending(seeds, nodes[queue[0] := data], queue[1..] + data.parents)
  {
    forall x | x in queue ensures x == queue[0] || x in queue[1..] {
      var i :| 0 <= i < |queue| && queue[i] == x;
      if i > 0 {
        assert queue[1..][i - 1] == x;
      }
    }
  }

  /** Storing a new commit at the end of `order` adds its parents at the end
      of the stream. */
  lemma ParentsOfStore(nodes: map<CommitId, CommitData>, order: seq<CommitId>, c: CommitId, data: CommitData)
    requires forall x :: x in order ==> x in nodes
    requires c !in order
    ensures ParentsOf(nodes[c := data], order + [c]) == ParentsOf(nodes, order) + data.parents
  {
    ParentsOfFrame(nodes, nodes[c := data], order);
    assert (order + [c])[..|order|] == order;
  }

  /** One more element of the stream: Dedup keeps it only if it is new. */
  lemma DedupSnoc(s: seq<CommitId>, x: CommitId)
    ensures Dedup(s + [x]) == if x in s then Dedup(s) else Dedup(s) + [x]
  {
    assert (s + [x])[..|s|] == s;
  }

  lemma TakeOneMore<T>(s: seq<T>, k: nat)
    requires k < |s|
    ensures s[..k + 1] == s[..k] + [s[k]]
  {
  }

  lemma TakeDrop<T>(s: seq<T>, k: nat)
    requires k <= |s|
    ensures s[..k] + s[k..] == s
  {
  }

  lemma TakeDrained<T>(s: seq<T>, k: nat)
    requires k <= |s| && s[k..] == []
    ensures s[..k] == s
  {
  }

  lemma AppendKeepsPrefix<T>(s: seq<T>, t: seq<T>, k: nat)
    requires k <= |s|
    ensures (s + t)[..k] == s[..k] && (s + t)[k..] == s[k..] + t
  {
  }

  /** The elements of `s` in order of first occurrence: what a visited set
      lets through of a stream of ids. */
  function Dedup(s: seq<CommitId>): (r: seq<CommitId>)
    ensures Distinct(r)
    ensures forall c :: c in r <==> c in s
  {
    if s == [] then []
    else
      var d := Dedup(s[..|s| - 1]);
      if s[|s| - 1] in d then d else d + [s[|s| - 1]]
  }

  /** What comes first in a stream keeps its place among the first
      occurrences. */
  lemma {:induction false} DedupPrefix(a: seq<CommitId>, b: seq<CommitId>)
    ensures Dedup(a) <= Dedup(a + b)
  {
    if b != [] {
      var init := b[..|b| - 1];
      assert (a + b)[..|a + b| - 1] == a + init;
      DedupPrefix(a, init);
    } else {
      assert a + b == a;
    }
  }

  /** A snapshot of `build_graph`'s loop: the dict (`graph`, with its keys
      in insertion order in `order`) and the queue, together with two
      values the program does not keep: `stream`, every id ever enqueued,
      in order, and `consumed`, how many of them have been dequeued. */
  datatype Walk = Walk(graph: map<CommitId, CommitData>, order: seq<CommitId>, queue: seq<CommitId>,
                       stream: seq<CommitId>, consumed: nat)

  /** One turn of the loop. An id git does not know stops the walk where it
      is (the program raises there). */
  ghost function Step(history: History, w: Walk): Walk
  {
    if w.queue == [] then w
    else
      var c := w.queue[0];
      if c in w.graph then Walk(w.graph, w.order, w.queue[1..], w.stream, w.consumed + 1)
      else if c in history then
        var parents := history[c].parents;
        Walk(w.graph[c := history[c]], w.order + [c], w.queue[1..] + parents, w.stream + parents, w.consumed + 1)
      else w
  }

  /** The loop's state after `n` turns, starting from the seeds. */
  ghost function Run(history: History, seeds: seq<CommitId>, n: nat): Walk
  {
    if n == 0 then Walk(map[], [], seeds, seeds, 0)
    else Step(history, Run(history, seeds, n - 1))
  }

  /** A turn that dequeues a stored id only shortens the queue. */
  lemma RunSkips(history: History, seeds: seq<CommitId>, n: nat)
    requires var w := Run(history, seeds, n); w.queue != [] && w.queue[0] in w.graph
    ensures var w, v := Run(history, seeds, n), Run(history, seeds, n + 1);
            v.graph == w.graph && v.order == w.order && v.queue == w.queue[1..]
  {
  }

  /** A turn that dequeues a new id git knows stores its data and queues
      its parents. */
  lemma RunStores(history: History, seeds: seq<CommitId>, n: nat)
    requires var w := Run(history, seeds, n); w.queue != [] && w.queue[0] !in w.graph && w.queue[0] in history
    ensures var w, v := Run(history, seeds, n), Run(history, seeds, n + 1);
            var c := w.queue[0];
            && v.graph == w.graph[c := history[c]]
            && v.order == w.order + [c]
            && v.queue == w.queue[1..] + history[c].parents
  {
  }

  /** The dict: its keys, in insertion order, fetched from git. */
  ghost predicate Stored(history: History, w: Walk)
  {
    && (forall c :: c in w.order <==> c in w.graph)
    && Distinct(w.order)
    && Fetched(history, w.graph)
  }

  /** FIFO: the queue is the part of the stream not yet dequeued, and the
      keys are the first occurrences in the dequeued part. */
  ghost predicate Fifo(seeds: seq<CommitId>, w: Walk)
  {
    && (forall c :: c in w.order ==> c in w.graph)
    && w.stream == seeds + ParentsOf(w.graph, w.order)
    && w.consumed <= |w.stream| && w.queue == w.stream[w.consumed..]
    && w.order == Dedup(w.stream[..w.consumed])
  }

  /** Nothing unreachable enters, nothing reachable is lost. */
  ghost predicate Covered(history: History, seeds: seq<CommitId>, w: Walk)
  {
    && (forall c :: c in w.queue ==> Reachable(history, seeds, c))
    && (forall c :: c in w.graph ==> Reachable(history, seeds, c))
    && ParentsPending(w.graph, w.queue)
    && SeedsPending(seeds, w.graph, w.queue)
  }

  /** What holds of every snapshot of the loop. */
  ghost predicate Expansion(history: History, seeds: seq<CommitId>, w: Walk)
  {
    Stored(history, w) && Fifo(seeds, w) && Covered(history, seeds, w)
  }

  lemma ExpansionStarts(history: History, seeds: seq<CommitId>)
    ensures Expansion(history, seeds, Run(history, seeds, 0))
  {
    forall c | c in seeds ensures Reachable(history, seeds, c) {
      SeedReachable(history, seeds, c);
    }
    assert seeds + ParentsOf(map[], []) == seeds;
  }

  lemma FifoSkips(seeds: seq<CommitId>, w: Walk)
    requires Fifo(seeds, w) && w.queue != [] && w.queue[0] in w.order
    ensures Fifo(seeds, Walk(w.graph, w.order, w.queue[1..], w.stream, w.consumed + 1))
  {
    TakeOneMore(w.stream, w.consumed);
    DedupSnoc(w.stream[..w.consumed], w.queue[0]);
  }

  lemma CoveredSkips(history: History, seeds: seq<CommitId>, w: Walk)
    requires Covered(history, seeds, w) && w.queue != [] && w.queue[0] in w.graph
    ensures Covered(history, seeds, Walk(w.graph, w.order, w.queue[1..], w.stream, w.consumed + 1))
  {
    SkipStored(seeds, w.graph, w.queue);
    assert forall c :: c in w.queue[1..] ==> c in w.queue;
  }

  /** Dequeuing an id that is already visited. */
  lemma ExpansionSkips(history: History, seeds: seq<CommitId>, w: Walk)
    requires Expansion(history, seeds, w)
    requires w.queue != [] && w.queue[0] in w.graph
    ensures Expansion(history, seeds, Step(history, w))
  {
    var w' := Walk(w.graph, w.order, w.queue[1..], w.stream, w.consumed + 1);
    assert Step(history, w) == w';
    FifoSkips(seeds, w);
    CoveredSkips(history, seeds, w);
    assert Stored(history, w');
  }

  lemma StoredStores(history: History, w: Walk)
    requires Stored(history, w) && w.queue != [] && w.queue[0] !in w.graph && w.queue[0] in history
    ensures var c := w.queue[0];
            var parents := history[c].parents;
            Stored(history, Walk(w.graph[c := history[c]], w.order + [c], w.queue[1..] + parents,
                                 w.stream + parents, w.consumed + 1))
  {
    var c := w.queue[0];
    var graph' := w.graph[c := history[c]];
    var order' := w.order + [c];
    assert forall x :: x in order' <==> x in graph';
  }

  /** Storing a new commit appends its parents to the stream. */
  lemma StreamStores(seeds: seq<CommitId>, graph: map<CommitId, CommitData>, order: seq<CommitId>,
                     stream: seq<CommitId>, c: CommitId, data: CommitData)
    requires forall x :: x in order ==> x in graph
    requires stream == seeds + ParentsOf(graph, order) && c !in order
    ensures stream + data.parents == seeds + ParentsOf(graph[c := data], order + [c])
  {
    ParentsOfStore(graph, order, c, data);
  }

  /** Dequeuing a new id makes it the next key, whatever is enqueued after. */
  lemma DedupStores(stream: seq<CommitId>, consumed: nat, order: seq<CommitId>, parents: seq<CommitId>)
    requires consumed < |stream| && order == Dedup(stream[..consumed]) && stream[consumed] !in order
    ensures order + [stream[consumed]] == Dedup((stream + parents)[..consumed + 1])
    ensures (stream + parents)[consumed + 1..] == stream[consumed + 1..] + parents
  {
    AppendKeepsPrefix(stream, parents, consumed + 1);
    TakeOneMore(stream, consumed);
    DedupSnoc(stream[..consumed], stream[consumed]);
  }

  lemma FifoStores(seeds: seq<CommitId>, w: Walk, data: CommitData)
    requires Fifo(seeds, w) && w.queue != [] && w.queue[0] !in w.order
    ensures var c := w.queue[0];
            Fifo(seeds, Walk(w.graph[c := data], w.order + [c], w.queue[1..] + data.parents,
                             w.stream + data.parents, w.consumed + 1))
  {
    var c := w.queue[0];
    StreamStores(seeds, w.graph, w.order, w.stream, c, data);
    DedupStores(w.stream, w.consumed, w.order, data.parents);
  }

  lemma CoveredStores(history: History, seeds: seq<CommitId>, w: Walk)
    requires Covered(history, seeds, w) && w.queue != [] && w.queue[0] in history
    ensures var c := w.queue[0];
            var parents := history[c].parents;
            Covered(history, seeds, Walk(w.graph[c := history[c]], w.order + [c], w.queue[1..] + parents,
                                         w.stream + parents, w.consumed + 1))
  {
    var c := w.queue[0];
    var data := history[c];
    assert c in w.queue;
    forall p | p in data.parents ensures Reachable(history, seeds, p) {
      ParentReachable(history, seeds, c, p);
    }
    StoreHead(seeds, w.graph, w.queue, data);
    assert forall x :: x in w.queue[1..] ==> x in w.queue;
  }

  /** Dequeuing a new id that git knows: store it and enqueue its parents. */
  lemma ExpansionStores(history: History, seeds: seq<CommitId>, w: Walk)
    requires Expansion(history, seeds, w)
    requires w.queue != [] && w.queue[0] !in w.graph && w.queue[0] in history
    ensures Expansion(history, seeds, Step(history, w))
  {
    var c := w.queue[0];
    var parents := history[c].parents;
    var w' := Walk(w.graph[c := history[c]], w.order + [c], w.queue[1..] + parents, w.stream + parents, w.consumed + 1);
    assert Step(history, w) == w';
    StoredStores(history, w);
    FifoStores(seeds, w, history[c]);
    CoveredStores(history, seeds, w);
  }

  /** Every snapshot of the loop satisfies `Expansion`. */
  lemma {:induction false} RunExpands(history: History, seeds: seq<CommitId>, n: nat)
    ensures Expansion(history, seeds, Run(history, seeds, n))
  {
    if n == 0 {
      ExpansionStarts(history, seeds);
    } else {
      var w := Run(history, seeds, n - 1);
      RunExpands(history, seeds, n - 1);
      if w.queue != [] && w.queue[0] in w.graph {
        ExpansionSkips(history, seeds, w);
      } else if w.queue != [] && w.queue[0] in history {
        ExpansionStores(history, seeds, w);
      }
    }
  }

  /** What a successful build returns: the dict holds exactly the commits
      reachable from the seeds, each with git's data, closed under parents,
      its keys in breadth-first order of first occurrence. */
  ghost predicate Complete(history: History, seeds: seq<CommitId>, g: Graph)
  {
    && g.Valid()
    && Fetched(history, g.nodes)
    && (forall c :: c in seeds ==> c in g.nodes)
    && ParentClosed(g.nodes)
    && (forall c :: c in g.nodes <==> Reachable(history, seeds, c))
    && g.order == Dedup(seeds + ParentsOf(g.nodes, g.order))
  }

  /** What a failed build has fetched: distinct reachable ids, the last one
      unknown to git and all others known, in breadth-first order of first
      occurrence -- so the last is the first unknown id the queue reaches. */
  ghost predicate FailedAt(history: History, seeds: seq<CommitId>, fetched: seq<CommitId>)
  {
    && fetched != []
    && Distinct(fetched)
    && fetched[|fetched| - 1] !in history
    && (forall i :: 0 <= i < |fetched| ==> Reachable(history, seeds, fetched[i]))
    && (forall c :: c in fetched[..|fetched| - 1] ==> c in history)
    && fetched <= Dedup(seeds + ParentsOf(history, fetched[..|fetched| - 1]))
  }

  /** The walk stops at an id git does not know: the id is new and
      reachable, the stored ones are known and reachable, and so not every
      reachable commit is known. */
  lemma StopsAtUnknown(history: History, seeds: seq<CommitId>, w: Walk)
    requires Expansion(history, seeds, w)
    requires w.queue != [] && w.queue[0] !in history
    ensures Reachable(history, seeds, w.queue[0]) && Distinct(w.order + [w.queue[0]])
    ensures forall i :: 0 <= i < |w.order| ==> w.order[i] in history && Reachable(history, seeds, w.order[i])
    ensures !(forall c :: Reachable(history, seeds, c) ==> c in history)
  {
    assert w.queue[0] in w.queue;
    assert forall i :: 0 <= i < |w.order| ==> w.order[i] in w.graph;
  }

  /** A new id after the first `consumed` ids of a stream is the next
      first occurrence of the whole stream. */
  lemma NextFirstOccurrence(stream: seq<CommitId>, consumed: nat, order: seq<CommitId>)
    requires consumed < |stream| && order == Dedup(stream[..consumed]) && stream[consumed] !in order
    ensures order + [stream[consumed]] <= Dedup(stream)
  {
    var head := stream[..consumed + 1];
    TakeOneMore(stream, consumed);
    DedupSnoc(stream[..consumed], stream[consumed]);
    assert Dedup(head) == order + [stream[consumed]];
    DedupPrefix(head, stream[consumed + 1..]);
    TakeDrop(stream, consumed + 1);
  }

  /** The id the walk dequeues next, when it is new, is the next first
      occurrence of the FIFO stream, which is made of the seeds and the
      parents of the commits stored so far. */
  lemma NextIsFirstOccurrence(history: History, seeds: seq<CommitId>, w: Walk)
    requires Expansion(history, seeds, w)
    requires w.queue != [] && w.queue[0] !in w.graph
    ensures forall c :: c in w.order ==> c in history
    ensures w.order + [w.queue[0]] <= Dedup(seeds + ParentsOf(history, w.order))
  {
    ParentsOfFrame(w.graph, history, w.order);
    assert w.stream[w.consumed] == w.queue[0];
    NextFirstOccurrence(w.stream, w.consumed, w.order);
  }

  /** The ids fetched up to a failure, the unknown one last: distinct,
      reachable, all but the last known, and in breadth-first order, so the
      id reported is the first unknown one the queue reaches. */
  lemma ExpansionFails(history: History, seeds: seq<CommitId>, w: Walk, fetched: seq<CommitId>)
    requires Expansion(history, seeds, w)
    requires w.queue != [] && w.queue[0] !in w.graph && w.queue[0] !in history
    requires fetched == w.order + [w.queue[0]]
    ensures FailedAt(history, seeds, fetched)
    ensures !(forall c :: Reachable(history, seeds, c) ==> c in history)
  {
    StopsAtUnknown(history, seeds, w);
    NextIsFirstOccurrence(history, seeds, w);
    assert fetched[..|fetched| - 1] == w.order;
    assert fetched[|fetched| - 1] == w.queue[0];
    forall i | 0 <= i < |fetched|
      ensures Reachable(history, seeds, fetched[i])
    {
      if i < |w.order| {
        assert fetched[i] == w.order[i];
      }
    }
  }

  /** The queue is empty: the graph is complete. */
  lemma ExpansionEnds(history: History, seeds: seq<CommitId>, w: Walk)
    requires Expansion(history, seeds, w) && w.queue == []
    ensures Complete(history, seeds, Graph(w.order, w.graph))
    ensures forall c :: Reachable(history, seeds, c) ==> c in history
  {
    TakeDrained(w.stream, w.consumed);
    ClosedHoldsReachable(history, seeds, w.graph);
  }

  /** The loop's state when its queue runs empty is a complete build. */
  lemma RunEnds(history: History, seeds: seq<CommitId>, n: nat)
    requires Run(history, seeds, n).queue == []
    ensures var w := Run(history, seeds, n);
            Distinct(w.order) && Complete(history, seeds, Graph(w.order, w.graph))
    ensures forall c :: Reachable(history, seeds, c) ==> c in history
  {
    RunExpands(history, seeds, n);
    ExpansionEnds(history, seeds, Run(history, seeds, n));
  }

  /** The loop's state when it dequeues a new id git does not know is a
      failed build, with that id fetched last. */
  lemma RunFails(history: History, seeds: seq<CommitId>, n: nat, fetched: seq<CommitId>)
    requires var w := Run(history, seeds, n);
             w.queue != [] && w.queue[0] !in w.graph && w.queue[0] !in history && fetched == w.order + [w.queue[0]]
    ensures FailedAt(history, seeds, fetched)
    ensures !(forall c :: Reachable(history, seeds, c) ==> c in history)
  {
    RunExpands(history, seeds, n);
    ExpansionFails(history, seeds, Run(history, seeds, n), fetched);
  }

  /** `build_graph(repo, commits)`. `fetch` is `get_commit_data` on the
      repository (`FetchCommitData(repo, _)`), and the ghost `history` is
      what it answers for each commit git knows (`Parsed(repo)`, by
      `FetchAnswersParsed`). Besides the graph, `fetched` lists the ids
      handed to `fetch`, in call order. */
  method BuildGraph(fetch: CommitId -> Result<CommitData>, ghost history: History, seeds: seq<CommitId>)
    returns (r: Result<Graph>, fetched: seq<CommitId>)
    requires forall c :: fetch(c) == if c in history then Ok(history[c]) else Err(HistoryUnavailable(c))
    ensures Distinct(fetched)
    ensures r.Ok? ==> Complete(history, seeds, r.value) && fetched == r.value.order
    ensures r.Ok? <==> forall c :: Reachable(history, seeds, c) ==> c in history
    ensures r.Err? ==> FailedAt(history, seeds, fetched) && r.error == HistoryUnavailable(fetched[|fetched| - 1])
  {
    var graph: map<CommitId, CommitData> := map[];
    var order: seq<CommitId> := [];
    var visited: set<CommitId> := {};
    var queue := seeds;
    ghost var turns: nat := 0;
    fetched := [];
    while queue != []
      invariant visited == graph.Keys && fetched == order
      invariant var w := Run(history, seeds, turns); w.graph == graph && w.order == order && w.queue == queue
      decreases history.Keys - visited, |queue|
    {
      var commit := queue[0];
      if commit in visited {
        RunSkips(history, seeds, turns);
        queue := queue[1..];
        turns := turns + 1;
        continue;
      }
      visited := visited + {commit};
      fetched := fetched + [commit];
      var data := fetch(commit);
      if data.Err? {
        RunFails(history, seeds, turns, fetched);
        r := Err(data.error);
        return;
      }
      RunStores(history, seeds, turns);
      graph := graph[commit := data.value];
      order := order + [commit];
      queue := queue[1..] + data.value.parents;
      turns := turns + 1;
    }
    RunEnds(history, seeds, turns);
    r := Ok(Graph(order, graph));
  }
}
