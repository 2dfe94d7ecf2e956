/**
 * `generate_graphviz_code`: the DOT text for a commit graph. A list of
 * lines is built -- four header lines, then for every key of the dict in
 * insertion order one node line followed by one edge line per entry of its
 * parents list, then a closing brace -- and joined with newlines.
 *
 * The node label is `hash[:7] + ": " + message` with every backslash
 * doubled and then every double quote preceded by a backslash, so that the
 * label can sit between double quotes.
 */
module Graphviz {
  import opened PyStr
  import opened CommitGraph

  /** The opening of the digraph: its name, the charset and the fonts. */
  const Header: seq<string> := [
    "digraph G {",
    "    graph [charset=\"UTF-8\"];",
    "    node [fontname=\"DejaVu Sans\"];",
    "    edge [fontname=\"DejaVu Sans\"];"
  ]

  const Footer: string := "}"

  // ---------------------------------------------------------------------
  // Labels and their escaping
  // ---------------------------------------------------------------------

  /** `f'{commit_hash[:7]}: {message}'`: the first seven characters of the
      hash (all of a shorter one), a colon and a space, then the message. */
  function Label(id: CommitId, message: string): string
  {
    Prefix(id, 7) + ": " + message
  }

  /** A label is the hash cut to at most seven characters, then `": "`, then
      the whole message. */
  lemma LabelParts(id: CommitId, message: string)
    ensures var text := Label(id, message);
            var cut := |text| - |message| - 2;
            && cut == (if |id| < 7 then |id| else 7)
            && text[..cut] <= id
            && text[cut..cut + 2] == ": "
            && text[cut + 2..] == message
  {
  }

  /** `label.replace('\\', '\\\\').replace('"', '\\"')` */
  function Escape(s: string): string
  {
    ReplaceChar(ReplaceChar(s, '\\', "\\\\"), '"', "\\\"")
  }

  /** Undoing the escaping in reverse order: `\"` back to `"`, then `\\`
      back to `\`. */
  function Unescape(e: string): string
  {
    ReplacePair(ReplacePair(e, '\\', '"', '"'), '\\', '\\', '\\')
  }

  /** What one character of the label becomes. */
  function EscapeChar(x: char): string
  {
    if x == '\\' then "\\\\" else if x == '"' then "\\\"" else [x]
  }

  /** Doubling the backslashes of one character and then escaping its
      double quotes gives the escaping of that character. */
  lemma EscapeCharSteps(x: char)
    ensures ReplaceChar(ReplaceChar([x], '\\', "\\\\"), '"', "\\\"") == EscapeChar(x)
  {
    var doubled := ReplaceChar([x], '\\', "\\\\");
    assert [x][1..] == [];
    assert ReplaceChar([], '\\', "\\\\") == [];
    if x == '\\' {
      assert doubled == ['\\'] + ['\\'];
      ReplaceCharAppend(['\\'], ['\\'], '"', "\\\"");
    } else {
      assert doubled == [x];
    }
  }

  /** The escaping works character by character. */
  lemma EscapeCons(x: char, t: string)
    ensures Escape([x] + t) == EscapeChar(x) + Escape(t)
  {
    ReplaceCharAppend([x], t, '\\', "\\\\");
    ReplaceCharAppend(ReplaceChar([x], '\\', "\\\\"), ReplaceChar(t, '\\', "\\\\"), '"', "\\\"");
    EscapeCharSteps(x);
  }

  /** An escaped text is empty only for the empty text, and never starts
      with a double quote. */
  lemma EscapeHead(s: string)
    ensures Escape(s) == [] <==> s == []
    ensures Escape(s) != [] ==> Escape(s)[0] != '"'
  {
    if s != [] {
      EscapeCons(s[0], s[1..]);
      assert s == [s[0]] + s[1..];
    }
  }

  /** A doubled backslash in front of a text that does not start with a
      double quote is not an escaped quote. */
  lemma UndoQuotesBackslash(rest: string)
    requires rest == [] || rest[0] != '"'
    ensures ReplacePair(['\\'] + (['\\'] + rest), '\\', '"', '"')
            == ['\\'] + (['\\'] + ReplacePair(rest, '\\', '"', '"'))
  {
    ReplacePairKeep('\\', rest, '\\', '"', '"');
    ReplacePairKeep('\\', ['\\'] + rest, '\\', '"', '"');
  }

  /** Undoing `\"` after one escaped character, in front of a text that
      does not start with a double quote, leaves that character with a
      backslash doubled. */
  lemma UndoQuotesHead(x: char, rest: string)
    requires rest == [] || rest[0] != '"'
    ensures ReplacePair(EscapeChar(x) + rest, '\\', '"', '"')
            == (if x == '\\' then "\\\\" else [x]) + ReplacePair(rest, '\\', '"', '"')
  {
    if x == '\\' {
      assert EscapeChar(x) + rest == ['\\'] + (['\\'] + rest);
      UndoQuotesBackslash(rest);
      assert ['\\'] + (['\\'] + ReplacePair(rest, '\\', '"', '"')) == "\\\\" + ReplacePair(rest, '\\', '"', '"');
    } else if x == '"' {
      assert EscapeChar(x) + rest == ['\\', '"'] + rest;
      ReplacePairHit(rest, '\\', '"', '"');
    } else {
      ReplacePairKeep(x, rest, '\\', '"', '"');
    }
  }

  /** Undoing `\"` in an escaped text leaves the text with its backslashes
      doubled. */
  lemma {:induction false} UndoQuotes(s: string)
    ensures ReplacePair(Escape(s), '\\', '"', '"') == ReplaceChar(s, '\\', "\\\\")
  {
    if s != [] {
      var x, t := s[0], s[1..];
      assert s == [x] + t;
      EscapeCons(x, t);
      UndoQuotes(t);
      EscapeHead(t);
      UndoQuotesHead(x, Escape(t));
    }
  }

  /** Undoing `\\` in a text with its backslashes doubled gives the text. */
  lemma {:induction false} UndoBackslashes(s: string)
    ensures ReplacePair(ReplaceChar(s, '\\', "\\\\"), '\\', '\\', '\\') == s
  {
    if s != [] {
      var x, t := s[0], s[1..];
      assert s == [x] + t;
      UndoBackslashes(t);
      var dt := ReplaceChar(t, '\\', "\\\\");
      if x == '\\' {
        assert ReplaceChar(s, '\\', "\\\\") == ['\\', '\\'] + dt;
        ReplacePairHit(dt, '\\', '\\', '\\');
      } else {
        assert ReplaceChar(s, '\\', "\\\\") == [x] + dt;
        ReplacePairKeep(x, dt, '\\', '\\', '\\');
      }
    }
  }

  /** Undoing the escaping of any label gives the label back, whatever
      backslashes, quotes or newlines the commit message holds. */
  lemma EscapeRoundTrip(s: string)
    ensures Unescape(Escape(s)) == s
  {
    UndoQuotes(s);
    UndoBackslashes(s);
  }

  /** In an escaped text every double quote is preceded by a backslash. */
  predicate QuotesEscaped(e: string)
  {
    forall i :: 0 <= i < |e| && e[i] == '"' ==> 0 < i && e[i - 1] == '\\'
  }

  lemma {:induction false} EscapeQuotes(s: string)
    ensures QuotesEscaped(Escape(s))
  {
    if s != [] {
      var x, t := s[0], s[1..];
      assert s == [x] + t;
      EscapeCons(x, t);
      EscapeQuotes(t);
      EscapeHead(t);
      var e, head, et := Escape(s), EscapeChar(x), Escape(t);
      forall i | 0 <= i < |e| && e[i] == '"'
        ensures 0 < i && e[i - 1] == '\\'
      {
        if i >= |head| {
          assert e[i] == et[i - |head|];
        }
      }
    }
  }

  /** The escaping of a concatenation is the concatenation of the
      escapings. */
  lemma EscapeAppend(a: string, b: string)
    ensures Escape(a + b) == Escape(a) + Escape(b)
  {
    ReplaceCharAppend(a, b, '\\', "\\\\");
    ReplaceCharAppend(ReplaceChar(a, '\\', "\\\\"), ReplaceChar(b, '\\', "\\\\"), '"', "\\\"");
  }

  /** Escaping never shortens a label. */
  lemma {:induction false} EscapeLength(s: string)
    ensures |Escape(s)| >= |s|
  {
    if s != [] {
      assert s == [s[0]] + s[1..];
      EscapeCons(s[0], s[1..]);
      EscapeLength(s[1..]);
    }
  }

  /** The escaping changes a label exactly when it holds a backslash or a
      double quote. */
  lemma {:induction false} EscapeIdentity(s: string)
    ensures Escape(s) == s <==> '\\' !in s && '"' !in s
  {
    if s != [] {
      var x, t := s[0], s[1..];
      assert s == [x] + t;
      EscapeCons(x, t);
      EscapeIdentity(t);
      EscapeLength(t);
      if x != '\\' && x != '"' {
        assert Escape(s) == [x] + Escape(t);
        assert Escape(s) == s <==> Escape(t) == t;
      } else {
        assert |Escape(s)| > |s|;
      }
    }
  }

  // ---------------------------------------------------------------------
  // The lines of the DOT text
  // ---------------------------------------------------------------------

  /** `f'    "{commit_hash}" [label="{label}"];'` for an escaped label. */
  function NodeLine(id: CommitId, escaped: string): string
  {
    "    \"" + id + "\" [label=\"" + escaped + "\"];"
  }

  /** `f'    "{parent}" -> "{commit_hash}";'` */
  function EdgeLine(parent: CommitId, child: CommitId): string
  {
    "    \"" + parent + "\" -> \"" + child + "\";"
  }

  /** A node line puts the hash between the first two double quotes, and
      the escaped label between `[label="` and the closing `"];`. */
  lemma NodeLineParts(id: CommitId, escaped: string)
    ensures var line := NodeLine(id, escaped);
            && |line| == 18 + |id| + |escaped|
            && line[..5] == "    \"" && line[5..5 + |id|] == id
            && line[5 + |id|..15 + |id|] == "\" [label=\""
            && line[15 + |id|..|line| - 3] == escaped
            && line[|line| - 3..] == "\"];"
  {
  }

  /** A node line read back: the text between `[label="` and the closing
      `"];` unescapes to the label. */
  lemma NodeLineReadBack(id: CommitId, message: string)
    ensures var line := NodeLine(id, Escape(Label(id, message)));
            && 18 + |id| <= |line|
            && Unescape(line[15 + |id|..|line| - 3]) == Label(id, message)
  {
    NodeLineParts(id, Escape(Label(id, message)));
    EscapeRoundTrip(Label(id, message));
  }

  /** An edge line names the parent, quoted, on the left of the arrow and
      the child, quoted, on its right. */
  lemma EdgeLineParts(parent: CommitId, child: CommitId)
    ensures var line := EdgeLine(parent, child);
            && |line| == 13 + |parent| + |child|
            && line[..5] == "    \"" && line[5..5 + |parent|] == parent
            && line[5 + |parent|..11 + |parent|] == "\" -> \""
            && line[11 + |parent|..|line| - 2] == child
            && line[|line| - 2..] == "\";"
  {
  }

  /** One edge line per entry of the parents list, in the list's order. */
  function EdgeLines(parents: seq<CommitId>, child: CommitId): (r: seq<string>)
    ensures |r| == |parents|
    ensures forall k :: 0 <= k < |parents| ==> r[k] == EdgeLine(parents[k], child)
  {
    seq(|parents|, k requires 0 <= k < |parents| => EdgeLine(parents[k], child))
  }

  /** One more parent, one more edge line. */
  lemma EdgeLinesSnoc(parents: seq<CommitId>, j: nat, child: CommitId)
    requires j < |parents|
    ensures EdgeLines(parents[..j + 1], child) == EdgeLines(parents[..j], child) + [EdgeLine(parents[j], child)]
  {
  }

  /** The node line and the edge lines of one commit. */
  function NodeBlock(id: CommitId, data: CommitData): seq<string>
  {
    [NodeLine(id, Escape(Label(id, data.message)))] + EdgeLines(data.parents, id)
  }

  /** The node blocks of the first `n` commits of `order`, one after the
      other. */
  function Blocks(nodes: map<CommitId, CommitData>, order: seq<CommitId>, n: nat): seq<string>
    requires n <= |order| && forall c :: c in order ==> c in nodes
  {
    if n == 0 then []
    else Blocks(nodes, order, n - 1) + NodeBlock(order[n - 1], nodes[order[n - 1]])
  }

  /** All lines of the output of `generate_graphviz_code`. */
  function DotLines(g: Graph): seq<string>
    requires g.Valid()
  {
    Header + Blocks(g.nodes, g.order, |g.order|) + [Footer]
  }

  lemma {:induction false} BlocksLength(nodes: map<CommitId, CommitData>, order: seq<CommitId>, n: nat)
    requires n <= |order| && forall c :: c in order ==> c in nodes
    ensures |Blocks(nodes, order, n)| == n + |ParentsOf(nodes, order[..n])|
  {
    if n > 0 {
      BlocksLength(nodes, order, n - 1);
      assert order[..n][..n - 1] == order[..n - 1];
    }
  }

  /** The blocks of the first `j` commits begin the blocks of the first `n`. */
  lemma {:induction false} BlocksPrefix(nodes: map<CommitId, CommitData>, order: seq<CommitId>, j: nat, n: nat)
    requires j <= n <= |order| && forall c :: c in order ==> c in nodes
    ensures Blocks(nodes, order, j) <= Blocks(nodes, order, n)
  {
    if j < n {
      BlocksPrefix(nodes, order, j, n - 1);
    }
  }

  /** A block that sits after `pre` in a prefix of `whole` sits there in
      `whole` too. */
  lemma BlockInside(pre: seq<string>, block: seq<string>, whole: seq<string>)
    requires pre + block <= whole
    ensures |pre| + |block| <= |whole| && whole[|pre|..|pre| + |block|] == block
  {
    assert (pre + block)[|pre|..] == block;
  }

  /** The block of the commit at position `j` of `order` comes right after
      the blocks of the commits before it. */
  lemma BlockAt(nodes: map<CommitId, CommitData>, order: seq<CommitId>, j: nat)
    requires j < |order| && forall c :: c in order ==> c in nodes
    ensures var at := j + |ParentsOf(nodes, order[..j])|;
            var block := NodeBlock(order[j], nodes[order[j]]);
            var blocks := Blocks(nodes, order, |order|);
            at + |block| <= |blocks| && blocks[at..at + |block|] == block
  {
    BlocksPrefix(nodes, order, j + 1, |order|);
    BlocksLength(nodes, order, j);
    BlockInside(Blocks(nodes, order, j), NodeBlock(order[j], nodes[order[j]]), Blocks(nodes, order, |order|));
  }

  /** The output has the four header lines, one line per key and one per
      parent entry, and the footer. */
  lemma DotLinesShape(g: Graph)
    requires g.Valid()
    ensures |DotLines(g)| == |Header| + |g.order| + |ParentsOf(g.nodes, g.order)| + 1
    ensures DotLines(g)[..|Header|] == Header
    ensures DotLines(g)[|DotLines(g)| - 1] == Footer
  {
    BlocksLength(g.nodes, g.order, |g.order|);
    assert g.order[..|g.order|] == g.order;
  }

  /** A slice of `s` is the same slice of `s` framed by `pre` and `post`,
      shifted by the length of `pre`. */
  lemma SliceFramed(pre: seq<string>, s: seq<string>, post: seq<string>, p: nat, block: seq<string>)
    requires p + |block| <= |s| && s[p..p + |block|] == block
    ensures var whole := pre + s + post;
            |pre| + p + |block| <= |whole| && whole[|pre| + p..|pre| + p + |block|] == block
  {
    var whole := pre + s + post;
    forall i | 0 <= i < |block|
      ensures whole[|pre| + p + i] == block[i]
    {
      assert whole[|pre| + p + i] == s[p + i] == s[p..p + |block|][i];
    }
  }

  /** A node line followed by its edge lines, read back line by line. */
  lemma BlockLines(lines: seq<string>, at: nat, node: string, edges: seq<string>)
    requires at + 1 + |edges| <= |lines| && lines[at..at + 1 + |edges|] == [node] + edges
    ensures lines[at] == node
    ensures forall k :: 0 <= k < |edges| ==> lines[at + 1 + k] == edges[k]
  {
    assert lines[at] == lines[at..at + 1 + |edges|][0];
    forall k | 0 <= k < |edges|
      ensures lines[at + 1 + k] == edges[k]
    {
      assert lines[at + 1 + k] == lines[at..at + 1 + |edges|][1 + k];
    }
  }

  /** The block of the `j`-th key of the dict sits in the output after the
      header, the blocks of the keys before it. */
  lemma DotLinesBlock(g: Graph, j: nat)
    requires g.Valid() && j < |g.order|
    ensures var at := |Header| + j + |ParentsOf(g.nodes, g.order[..j])|;
            var block := NodeBlock(g.order[j], g.nodes[g.order[j]]);
            var lines := DotLines(g);
            at + |block| < |lines| && lines[at..at + |block|] == block
  {
    var blocks := Blocks(g.nodes, g.order, |g.order|);
    var p := j + |ParentsOf(g.nodes, g.order[..j])|;
    var block := NodeBlock(g.order[j], g.nodes[g.order[j]]);
    BlockAt(g.nodes, g.order, j);
    SliceFramed(Header, blocks, [Footer], p, block);
  }

  /** Where the lines of the `j`-th key of the dict sit in the output. */
  lemma DotLinesAt(g: Graph, j: nat)
    requires g.Valid() && j < |g.order|
    ensures var at := |Header| + j + |ParentsOf(g.nodes, g.order[..j])|;
            var c := g.order[j];
            var data := g.nodes[c];
            var lines := DotLines(g);
            && at + 1 + |data.parents| < |lines|
            && lines[at] == NodeLine(c, Escape(Label(c, data.message)))
            && forall k :: 0 <= k < |data.parents| ==> lines[at + 1 + k] == EdgeLine(data.parents[k], c)
  {
    var c := g.order[j];
    var data := g.nodes[c];
    DotLinesBlock(g, j);
    BlockLines(DotLines(g), |Header| + j + |ParentsOf(g.nodes, g.order[..j])|,
               NodeLine(c, Escape(Label(c, data.message))), EdgeLines(data.parents, c));
  }

  /** The DOT text begins with the header lines, each ended by a newline,
      and ends with a newline and the closing brace. */
  lemma CodeEnds(g: Graph)
    requires g.Valid()
    ensures Join(Header, '\n') + "\n" <= Join(DotLines(g), '\n')
    ensures var code := Join(DotLines(g), '\n');
            |code| >= 2 && code[|code| - 2..] == "\n}"
  {
    var blocks := Blocks(g.nodes, g.order, |g.order|);
    SeqAssoc(Header, blocks, [Footer]);
    JoinPrefix(Header, blocks + [Footer], '\n');
    JoinLast(DotLines(g), '\n');
  }

  /** The message of every key appears in the DOT text, escaped; a message
      without backslashes and double quotes appears as it is. */
  lemma MessageInCode(g: Graph, j: nat)
    requires g.Valid() && j < |g.order|
    ensures var message := g.nodes[g.order[j]].message;
            && Contains(Join(DotLines(g), '\n'), Escape(message))
            && ('\\' !in message && '"' !in message ==> Contains(Join(DotLines(g), '\n'), message))
  {
    var c := g.order[j];
    var message := g.nodes[c].message;
    var at := |Header| + j + |ParentsOf(g.nodes, g.order[..j])|;
    DotLinesAt(g, j);
    JoinHasPart(DotLines(g), '\n', at);
    EscapeAppend(Prefix(c, 7) + ": ", message);
    var pre := "    \"" + c + "\" [label=\"" + Escape(Prefix(c, 7) + ": ");
    assert NodeLine(c, Escape(Label(c, message))) == pre + Escape(message) + "\"];";
    ContainsInfix(pre, Escape(message), "\"];");
    ContainsTrans(Join(DotLines(g), '\n'), NodeLine(c, Escape(Label(c, message))), Escape(message));
    EscapeIdentity(message);
  }

  lemma SeqAssoc<T>(a: seq<T>, b: seq<T>, c: seq<T>)
    ensures (a + b) + c == a + (b + c)
  {
  }

  /** The body of the `for` loop over the dict: the node line of one commit,
      with its escaped label, then one edge line per entry of its parents
      list, appended to `lines`. */
  method AppendNodeBlock(lines: seq<string>, commit: CommitId, data: CommitData) returns (out: seq<string>)
    ensures out == lines + NodeBlock(commit, data)
  {
    var text := Label(commit, data.message);
    text := Escape(text);
    out := lines + [NodeLine(commit, text)];
    var j := 0;
    while j < |data.parents|
      invariant 0 <= j <= |data.parents|
      invariant out == lines + [NodeLine(commit, text)] + EdgeLines(data.parents[..j], commit)
    {
      EdgeLinesSnoc(data.parents, j, commit);
      out := out + [EdgeLine(data.parents[j], commit)];
      j := j + 1;
    }
    assert data.parents[..j] == data.parents;
  }

  /** `generate_graphviz_code(graph)` */
  method GenerateGraphvizCode(g: Graph) returns (code: string)
    requires g.Valid()
    ensures code == Join(DotLines(g), '\n')
  {
    var lines: seq<string> := [];
    lines := lines + ["digraph G {"];
    lines := lines + ["    graph [charset=\"UTF-8\"];"];
    lines := lines + ["    node [fontname=\"DejaVu Sans\"];"];
    lines := lines + ["    edge [fontname=\"DejaVu Sans\"];"];
    var i := 0;
    while i < |g.order|
      invariant 0 <= i <= |g.order|
      invariant lines == Header + Blocks(g.nodes, g.order, i)
    {
      var commit := g.order[i];
      lines := AppendNodeBlock(lines, commit, g.nodes[commit]);
      assert lines == Header + (Blocks(g.nodes, g.order, i) + NodeBlock(commit, g.nodes[commit])) by {
        SeqAssoc(Header, Blocks(g.nodes, g.order, i), NodeBlock(commit, g.nodes[commit]));
      }
      i := i + 1;
    }
    lines := lines + [Footer];
    code := Join(lines, '\n');
  }
}
