/**
 * How the tool reads git's answers, with the git processes themselves left
 * out: `get_commits` parses the output of `git log --pretty=%H -- <file>`,
 * and `get_commit_data` parses the outputs of `git log -1 --pretty=%B` (the
 * message) and `git log -1 --pretty=%P` (the parent hashes) for a commit.
 */
module GitLog {
  import opened PyStr
  import opened CommitGraph

  /** The two outputs git prints for one commit, as `get_commit_data`
      reads them before text-mode newline translation. */
  datatype CommitOutput = CommitOutput(body: string, parentLine: string)

  /** `get_commits` on the log output: read in text mode, then
      `result.strip().split('\n')`. The result is never empty, so an empty
      log yields one empty id. */
  function ParseCommitList(logOutput: string): (ids: seq<CommitId>)
    ensures |ids| >= 1
    ensures forall i :: 0 <= i < |ids| ==> '\n' !in ids[i]
  {
    Split(Strip(UniversalNewlines(logOutput)), '\n')
  }

  /** A file without history gives the list `[""]`, not `[]`. */
  lemma EmptyLogGivesOneEmptyId(logOutput: string)
    requires AllSpace(logOutput)
    ensures ParseCommitList(logOutput) == [""]
  {
    var text := UniversalNewlines(logOutput);
    UniversalNewlinesSpace(logOutput);
    assert text + "" + "" == text;
    StripPadded(text, "", "");
  }

  /** Hashes printed one per line are read back, in order. */
  lemma ParseCommitListRoundTrip(ids: seq<CommitId>)
    requires |ids| >= 1
    requires forall i :: 0 <= i < |ids| ==> IsToken(ids[i])
    ensures ParseCommitList(Join(ids, '\n') + "\n") == ids
  {
    TokensNoReturn(ids, '\n');
    UniversalNewlinesKeep(Join(ids, '\n') + "\n");
    JoinTokensTrimmed(ids, '\n');
    assert AllSpace("\n");
    StripTrailing(Join(ids, '\n'), "\n");
    forall i | 0 <= i < |ids| ensures '\n' !in ids[i] {
      assert IsToken(ids[i]);
    }
    SplitJoin(ids, '\n');
  }

  /** The list `get_commits` evidently means to return: no ids at all for a
      file without history, which is what the `if not commits` check in
      `main` tests for. */
  function CommitList(logOutput: string): (ids: seq<CommitId>)
    ensures ids == [] <==> AllSpace(logOutput)
    ensures forall i :: 0 <= i < |ids| ==> '\n' !in ids[i]
  {
    if AllSpace(logOutput) then [] else ParseCommitList(logOutput)
  }

  /** Hashes printed one per line are read back, in order, and an empty log
      is read as no hashes. */
  lemma CommitListRoundTrip(ids: seq<CommitId>)
    requires forall i :: 0 <= i < |ids| ==> IsToken(ids[i])
    ensures CommitList(Join(ids, '\n') + "\n") == ids
  {
    if ids == [] {
      assert AllSpace(Join(ids, '\n') + "\n");
    } else {
      LogNotBlank(ids);
      ParseCommitListRoundTrip(ids);
    }
  }

  /** A log that lists at least one hash is not blank. */
  lemma LogNotBlank(ids: seq<CommitId>)
    requires ids != [] && forall i :: 0 <= i < |ids| ==> IsToken(ids[i])
    ensures !AllSpace(Join(ids, '\n') + "\n")
  {
    var text := Join(ids, '\n') + "\n";
    assert forall i :: 0 <= i < |ids| ==> ids[i] != [];
    JoinEnds(ids, '\n');
    assert text[0] == ids[0][0] && IsToken(ids[0]);
  }

  /** `get_commit_data` on git's two outputs, each read in text mode: the
      stripped message and the whitespace-separated parent hashes. */
  function ParseCommitData(out: CommitOutput): (d: CommitData)
    ensures Trimmed(d.message)
    ensures forall i :: 0 <= i < |d.parents| ==> IsToken(d.parents[i])
  {
    CommitData(Strip(UniversalNewlines(out.body)), SplitWhitespace(Strip(UniversalNewlines(out.parentLine))))
  }

  /** Parent hashes printed space-separated on one line are read back. */
  lemma ParentLineRoundTrip(parents: seq<CommitId>)
    requires forall i :: 0 <= i < |parents| ==> IsToken(parents[i])
    ensures SplitWhitespace(Strip(Join(parents, ' ') + "\n")) == parents
  {
    JoinTokensTrimmed(parents, ' ');
    assert AllSpace("\n");
    StripTrailing(Join(parents, ' '), "\n");
    SplitWhitespaceJoin(parents);
  }

  /** A message followed by git's trailing whitespace, and parent hashes
      printed space-separated on one line, are read back: the parents
      unchanged, the message with its line endings translated, and so
      unchanged when it holds no `\r`. */
  lemma ParseCommitDataRoundTrip(message: string, trailer: string, parents: seq<CommitId>)
    requires Trimmed(message) && AllSpace(trailer)
    requires forall i :: 0 <= i < |parents| ==> IsToken(parents[i])
    ensures ParseCommitData(CommitOutput(message + trailer, Join(parents, ' ') + "\n"))
            == CommitData(UniversalNewlines(message), parents)
    ensures '\r' !in message ==> ParseCommitData(CommitOutput(message + trailer, Join(parents, ' ') + "\n"))
                                 == CommitData(message, parents)
  {
    MessageRoundTrip(message, trailer);
    ParentOutputRoundTrip(parents);
    UniversalNewlinesIdentity(message);
  }

  /** The `%B` output: a message with trailing whitespace reads back as the
      message, its line endings translated. */
  lemma MessageRoundTrip(message: string, trailer: string)
    requires Trimmed(message) && AllSpace(trailer)
    ensures Strip(UniversalNewlines(message + trailer)) == UniversalNewlines(message)
  {
    assert message == [] || IsSpace('\r');
    UniversalNewlinesAppend(message, trailer);
    UniversalNewlinesTrimmed(message);
    UniversalNewlinesSpace(trailer);
    StripTrailing(UniversalNewlines(message), UniversalNewlines(trailer));
  }

  /** The `%P` output, read in text mode: the parents read back. */
  lemma ParentOutputRoundTrip(parents: seq<CommitId>)
    requires forall i :: 0 <= i < |parents| ==> IsToken(parents[i])
    ensures SplitWhitespace(Strip(UniversalNewlines(Join(parents, ' ') + "\n"))) == parents
  {
    TokensNoReturn(parents, ' ');
    UniversalNewlinesKeep(Join(parents, ' ') + "\n");
    ParentLineRoundTrip(parents);
  }

}
