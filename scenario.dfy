/**
 * The history the tool is exercised with: a file added in one commit
 * (`root`) and changed in the next (`child`). `git log` lists both commits,
 * newest first, so the older one is queued twice -- as a seed and as the
 * parent of the newer one -- and is still fetched once.
 */
module Scenario {
  import opened PyStr
  import opened CommitGraph
  import opened GitLog
  import opened GraphBuilder
  import opened Graphviz

  /** What git prints for the two commits: each message as `%B`, and the
      parent line as `%P` -- the older commit for the newer one, nothing
      for the first commit. */
  function ChildAndRootRepo(child: CommitId, root: CommitId, childBody: string, rootBody: string): Repository
  {
    map[child := CommitOutput(childBody, root + "\n"), root := CommitOutput(rootBody, "\n")]
  }

  function ChildAndRoot(child: CommitId, root: CommitId, childMessage: string, rootMessage: string): History
  {
    map[child := CommitData(childMessage, [root]), root := CommitData(rootMessage, [])]
  }

  /** The newer commit's outputs read back as its message, newlines
      translated and stripped, and its one parent. */
  lemma ChildParsed(root: CommitId, body: string)
    requires IsToken(root)
    ensures ParseCommitData(CommitOutput(body, root + "\n")) == CommitData(Strip(UniversalNewlines(body)), [root])
  {
    OneParentLine(root);
  }

  /** A `%P` line naming one parent reads back as that parent. */
  lemma OneParentLine(root: CommitId)
    requires IsToken(root)
    ensures SplitWhitespace(Strip(UniversalNewlines(root + "\n"))) == [root]
  {
    ParentLineRoundTrip([root]);
    assert Join([root], ' ') == root;
    TokensNoReturn([root], ' ');
    UniversalNewlinesKeep(root + "\n");
  }

  /** The first commit's outputs read back as its message, newlines
      translated and stripped, and no parents. */
  lemma RootParsed(body: string)
    ensures ParseCommitData(CommitOutput(body, "\n")) == CommitData(Strip(UniversalNewlines(body)), [])
  {
    ParentLineRoundTrip([]);
    UniversalNewlinesKeep("\n");
    assert Join([], ' ') + "\n" == "\n";
  }

  /** A map with two keys is the display of its two entries. */
  lemma TwoEntries(m: History, a: CommitId, b: CommitId)
    requires a != b && forall c :: c in m <==> c == a || c == b
    ensures m == map[a := m[a], b := m[b]]
  {
  }

  /** `get_commit_data` on the newer commit. */
  lemma ChildEntry(child: CommitId, root: CommitId, childBody: string, rootBody: string)
    requires child != root && IsToken(root)
    ensures var parsed := Parsed(ChildAndRootRepo(child, root, childBody, rootBody));
            child in parsed && parsed[child] == CommitData(Strip(UniversalNewlines(childBody)), [root])
  {
    var repo := ChildAndRootRepo(child, root, childBody, rootBody);
    assert repo[child] == CommitOutput(childBody, root + "\n");
    ChildParsed(root, childBody);
  }

  /** `get_commit_data` on the first commit. */
  lemma RootEntry(child: CommitId, root: CommitId, childBody: string, rootBody: string)
    requires child != root
    ensures var parsed := Parsed(ChildAndRootRepo(child, root, childBody, rootBody));
            root in parsed && parsed[root] == CommitData(Strip(UniversalNewlines(rootBody)), [])
  {
    var repo := ChildAndRootRepo(child, root, childBody, rootBody);
    assert repo[root] == CommitOutput(rootBody, "\n");
    RootParsed(rootBody);
  }

  /** Git knows the two commits and no other. */
  lemma RepoKeys(child: CommitId, root: CommitId, childBody: string, rootBody: string)
    ensures forall c :: c in ChildAndRootRepo(child, root, childBody, rootBody) <==> c == child || c == root
  {
  }

  /** `get_commit_data` reads the stripped messages and the one parent of
      the newer commit. */
  lemma ChildAndRootParsed(child: CommitId, root: CommitId, childBody: string, rootBody: string)
    requires child != root && IsToken(root)
    ensures Parsed(ChildAndRootRepo(child, root, childBody, rootBody))
            == ChildAndRoot(child, root, Strip(UniversalNewlines(childBody)), Strip(UniversalNewlines(rootBody)))
  {
    var parsed := Parsed(ChildAndRootRepo(child, root, childBody, rootBody));
    ChildEntry(child, root, childBody, rootBody);
    RootEntry(child, root, childBody, rootBody);
    RepoKeys(child, root, childBody, rootBody);
    TwoEntries(parsed, child, root);
  }

  /** Every commit reachable from the two seeds is known to git. */
  lemma ChildAndRootClosed(child: CommitId, root: CommitId, childMessage: string, rootMessage: string)
    ensures var history := ChildAndRoot(child, root, childMessage, rootMessage);
            forall c :: Reachable(history, [child, root], c) ==> c in history
  {
    var history := ChildAndRoot(child, root, childMessage, rootMessage);
    ClosedHoldsReachable(history, [child, root], history);
  }

  /** The build can store nothing but the two commits, and stores both. */
  lemma ChildAndRootNodes(child: CommitId, root: CommitId, childMessage: string, rootMessage: string,
                          nodes: map<CommitId, CommitData>)
    requires var history := ChildAndRoot(child, root, childMessage, rootMessage);
             && Fetched(history, nodes)
             && (forall c :: c in nodes <==> Reachable(history, [child, root], c))
    ensures nodes == ChildAndRoot(child, root, childMessage, rootMessage)
  {
    var history := ChildAndRoot(child, root, childMessage, rootMessage);
    SeedReachable(history, [child, root], child);
    SeedReachable(history, [child, root], root);
    assert nodes.Keys == history.Keys;
  }

  /** The only insertion order with first occurrences: newest first. */
  lemma ChildAndRootOrder(child: CommitId, root: CommitId, nodes: map<CommitId, CommitData>, order: seq<CommitId>)
    requires Distinct(order) && forall c :: c in order ==> c in nodes && (c == child || c == root)
    requires order == Dedup([child, root] + ParentsOf(nodes, order))
    requires child != root
    ensures order == [child, root]
  {
    DedupPrefix([child, root], ParentsOf(nodes, order));
    DedupTwo(child, root);
    assert [child, root] <= order;
    if |order| > 2 {
      ThirdIsNew(order);
      assert false;
    }
  }

  lemma DedupTwo(a: CommitId, b: CommitId)
    requires a != b
    ensures Dedup([a, b]) == [a, b]
  {
    assert [a, b][..1] == [a];
    assert Dedup([a]) == [a];
  }

  lemma ThirdIsNew(order: seq<CommitId>)
    requires |order| > 2 && Distinct(order)
    ensures order[2] in order && order[2] != order[0] && order[2] != order[1]
  {
  }

  /** The only graph the build can return: both commits, newest first. */
  lemma ChildAndRootGraph(child: CommitId, root: CommitId, childMessage: string, rootMessage: string, g: Graph)
    requires child != root
    requires var history := ChildAndRoot(child, root, childMessage, rootMessage);
             && g.Valid() && Fetched(history, g.nodes)
             && (forall c :: c in g.nodes <==> Reachable(history, [child, root], c))
             && g.order == Dedup([child, root] + ParentsOf(g.nodes, g.order))
    ensures g == Graph([child, root], ChildAndRoot(child, root, childMessage, rootMessage))
  {
    ChildAndRootNodes(child, root, childMessage, rootMessage, g.nodes);
    ChildAndRootOrder(child, root, g.nodes, g.order);
  }

  /** The DOT lines of the two commits: two node lines and one edge. */
  lemma ChildAndRootLines(child: CommitId, root: CommitId, childMessage: string, rootMessage: string)
    requires child != root
    ensures var g := Graph([child, root], ChildAndRoot(child, root, childMessage, rootMessage));
            g.Valid()
            && DotLines(g) == Header + [NodeLine(child, Escape(Label(child, childMessage))),
                                        EdgeLine(root, child),
                                        NodeLine(root, Escape(Label(root, rootMessage))),
                                        Footer]
  {
    var order := [child, root];
    var nodes := ChildAndRoot(child, root, childMessage, rootMessage);
    assert EdgeLines([root], child) == [EdgeLine(root, child)];
    assert NodeBlock(child, nodes[child]) == [NodeLine(child, Escape(Label(child, childMessage))), EdgeLine(root, child)];
    assert NodeBlock(root, nodes[root]) == [NodeLine(root, Escape(Label(root, rootMessage)))];
    assert Blocks(nodes, order, 1) == NodeBlock(child, nodes[child]);
    assert Blocks(nodes, order, 2) == [NodeLine(child, Escape(Label(child, childMessage))),
                                    EdgeLine(root, child),
                                    NodeLine(root, Escape(Label(root, rootMessage)))];
  }

  /** `get_commit_data` on the repository answers with the two parsed
      commits, and fails for every other id. */
  lemma ChildAndRootFetch(child: CommitId, root: CommitId, childBody: string, rootBody: string)
    requires child != root && IsToken(root)
    ensures var repo := ChildAndRootRepo(child, root, childBody, rootBody);
            var history := ChildAndRoot(child, root, Strip(UniversalNewlines(childBody)), Strip(UniversalNewlines(rootBody)));
            forall c :: FetchCommitData(repo, c) == if c in history then Ok(history[c]) else Err(HistoryUnavailable(c))
  {
    FetchAnswersParsed(ChildAndRootRepo(child, root, childBody, rootBody));
    ChildAndRootParsed(child, root, childBody, rootBody);
  }

  /** Building from the two listed commits: both are fetched once, newest
      first, although the older one is queued twice. */
  method BuildChildAndRoot(child: CommitId, root: CommitId, childBody: string, rootBody: string, commits: seq<CommitId>)
    returns (r: Result<Graph>, fetched: seq<CommitId>)
    requires child != root && IsToken(root) && commits == [child, root]
    ensures r == Ok(Graph([child, root], ChildAndRoot(child, root, Strip(UniversalNewlines(childBody)), Strip(UniversalNewlines(rootBody)))))
    ensures fetched == [child, root]
  {
    var repo := ChildAndRootRepo(child, root, childBody, rootBody);
    ghost var history := ChildAndRoot(child, root, Strip(UniversalNewlines(childBody)), Strip(UniversalNewlines(rootBody)));
    ChildAndRootFetch(child, root, childBody, rootBody);
    ChildAndRootClosed(child, root, Strip(UniversalNewlines(childBody)), Strip(UniversalNewlines(rootBody)));
    r, fetched := BuildGraph(c => FetchCommitData(repo, c), history, commits);
    ChildAndRootGraph(child, root, Strip(UniversalNewlines(childBody)), Strip(UniversalNewlines(rootBody)), r.value);
  }

  /** Listing, building and rendering the history of the two commits:
      `git log` lists the newer commit first, the older commit is fetched
      once although it is queued twice, and one edge joins the two node
      lines. */
  method RenderChildAndRoot(child: CommitId, root: CommitId, childBody: string, rootBody: string)
    returns (commits: seq<CommitId>, r: Result<Graph>, fetched: seq<CommitId>, code: string)
    requires child != root && IsToken(child) && IsToken(root)
    ensures commits == [child, root]
    ensures r == Ok(Graph([child, root], ChildAndRoot(child, root, Strip(UniversalNewlines(childBody)), Strip(UniversalNewlines(rootBody)))))
    ensures fetched == [child, root]
    ensures code == Join(Header + [NodeLine(child, Escape(Label(child, Strip(UniversalNewlines(childBody))))),
                                   EdgeLine(root, child),
                                   NodeLine(root, Escape(Label(root, Strip(UniversalNewlines(rootBody))))),
                                   Footer], '\n')
  {
    ParseCommitListRoundTrip([child, root]);
    commits := ParseCommitList(Join([child, root], '\n') + "\n");
    r, fetched := BuildChildAndRoot(child, root, childBody, rootBody, commits);
    ChildAndRootLines(child, root, Strip(UniversalNewlines(childBody)), Strip(UniversalNewlines(rootBody)));
    code := GenerateGraphvizCode(r.value);
  }
}
