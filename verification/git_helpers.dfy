/** The range-history helper of src/git-helpers.ts: pairing the non-merge
    commits of a `git log --pretty=format:"%H %P" previousHead..newHead`
    listing into (from, to) diff pairs, and folding the per-pair diffs into one
    text. The output of `git log` is a parameter of the model and `git diff` is a
    function parameter; neither command is run. */
module GitHelpers {
  import opened JsString

  /** One `git diff fromHash toHash` request. */
  datatype DiffPair = DiffPair(fromHash: string, toHash: string)

  /** The result of the aggregation: `null` is None. */
  datatype Option<T> = None | Some(value: T)

  /** The log text as lines: `logResult.split('\n')`, never empty. */
  function LogLines(logText: string): (lines: seq<string>)
    ensures |lines| >= 1
    ensures forall k :: 0 <= k < |lines| ==> '\n' !in lines[k]
  {
    Split(logText, '\n')
  }

  /** A log line "hash parent..." is a merge when it splits into more than two
      words, that is, when it holds at least two spaces. */
  predicate IsMergeLine(line: string)
  {
    |Split(line, ' ')| > 2
  }

  /** The first word of a log line, the commit's own hash: the longest prefix
      of the line without a space. */
  function CommitHash(line: string): (h: string)
    ensures h <= line && ' ' !in h
    ensures |h| < |line| ==> line[|h|] == ' '
  {
    SplitFirstPiece(line, ' ');
    Split(line, ' ')[0]
  }

  /** The non-merge lines, in log order (newest first). */
  function NonMergeLines(lines: seq<string>): (r: seq<string>)
  {
    if lines == [] then []
    else if IsMergeLine(lines[0]) then NonMergeLines(lines[1..])
    else [lines[0]] + NonMergeLines(lines[1..])
  }

  /** The hashes of the non-merge lines in the order the walk meets them:
      from the bottom line of the log up to the top one (oldest first). */
  function VisitOrder(lines: seq<string>): (hs: seq<string>)
  {
    if lines == [] then []
    else VisitOrder(lines[1..]) + (if IsMergeLine(lines[0]) then [] else [CommitHash(lines[0])])
  }

  /** The cursor after visiting `hs`, starting from `newHead`. */
  function LastVisited(hs: seq<string>, newHead: string): string
  {
    if hs == [] then newHead else hs[|hs| - 1]
  }

  /** One pair per visited hash, in visiting order: from that hash to the
      cursor as it stood before the hash was visited. */
  function StepPairs(hs: seq<string>, newHead: string): (r: seq<DiffPair>)
    ensures |r| == |hs|
    ensures hs != [] ==> r[0] == DiffPair(hs[0], newHead)
  {
    if hs == [] then []
    else
      var before := hs[..|hs| - 1];
      StepPairs(before, newHead) + [DiffPair(hs[|hs| - 1], LastVisited(before, newHead))]
  }

  /** The pair list for log lines: the step pairs, then (previousHead, cursor). */
  function PairsOfLines(lines: seq<string>, previousHead: string, newHead: string): seq<DiffPair>
  {
    var hs := VisitOrder(lines);
    StepPairs(hs, newHead) + [DiffPair(previousHead, LastVisited(hs, newHead))]
  }

  /** What getDiffPairsExcludingMerges returns for the given log text: never
      empty, the first pair ends at newHead and the last starts at previousHead. */
  function Pairs(logText: string, previousHead: string, newHead: string): (r: seq<DiffPair>)
    ensures |r| >= 1
    ensures r[0].toHash == newHead
    ensures r[|r| - 1].fromHash == previousHead
  {
    PairsOfLines(LogLines(logText), previousHead, newHead)
  }

  /** getDiffPairsExcludingMerges (src/git-helpers.ts:18-56) with the `git log`
      output as a parameter: walk the lines bottom-up, emit (hash, cursor) for
      each non-merge line and move the cursor, then close with (previousHead, cursor). */
  method GetDiffPairsExcludingMerges(logText: string, previousHead: string, newHead: string)
    returns (diffPairs: seq<DiffPair>)
    ensures diffPairs == Pairs(logText, previousHead, newHead)
  {
    var lines := Split(logText, '\n');
    diffPairs := [];
    var prevNonMergeHash := newHead;
    var i := |lines| - 1;
    while i >= 0
      invariant -1 <= i < |lines|
      invariant diffPairs == StepPairs(VisitOrder(lines[i + 1..]), newHead)
      invariant prevNonMergeHash == LastVisited(VisitOrder(lines[i + 1..]), newHead)
    {
      var words := Split(lines[i], ' ');
      var commitHash := words[0];
      var isMergeCommit := |words| > 2;
      assert lines[i..][1..] == lines[i + 1..];
      assert VisitOrder(lines[i..]) == VisitOrder(lines[i + 1..]) + (if isMergeCommit then [] else [commitHash]);
      if !isMergeCommit {
        ghost var hs := VisitOrder(lines[i + 1..]);
        assert (hs + [commitHash])[..|hs|] == hs;
        assert StepPairs(hs + [commitHash], newHead) ==
          StepPairs(hs, newHead) + [DiffPair(commitHash, LastVisited(hs, newHead))];
        diffPairs := diffPairs + [DiffPair(commitHash, prevNonMergeHash)];
        prevNonMergeHash := commitHash;
        assert diffPairs == StepPairs(hs + [commitHash], newHead);
      } else {
        assert VisitOrder(lines[i..]) == VisitOrder(lines[i + 1..]);
      }
      assert diffPairs == StepPairs(VisitOrder(lines[i..]), newHead);
      i := i - 1;
    }
    assert lines[0..] == lines;
    diffPairs := diffPairs + [DiffPair(previousHead, prevNonMergeHash)];
  }

  /** The diffs of the pairs, `git diff from to` for each, one after the other
      in pair order. */
  function FullDiff(pairs: seq<DiffPair>, diff: (string, string) -> string): string
  {
    if pairs == [] then "" else diff(pairs[0].fromHash, pairs[0].toHash) + FullDiff(pairs[1..], diff)
  }

  /** Diffing one more pair appends its diff to the accumulated text. */
  lemma {:induction false} FullDiffSnoc(pairs: seq<DiffPair>, p: DiffPair, diff: (string, string) -> string)
    ensures FullDiff(pairs + [p], diff) == FullDiff(pairs, diff) + diff(p.fromHash, p.toHash)
  {
    if pairs == [] {
      assert pairs + [p] == [p];
      assert [p][1..] == [];
    } else {
      assert (pairs + [p])[1..] == pairs[1..] + [p];
      FullDiffSnoc(pairs[1..], p, diff);
    }
  }

  /** The diff of the first i + 1 pairs is the diff of the first i followed by
      the diff of pair i. */
  lemma FullDiffPrefix(pairs: seq<DiffPair>, i: nat, diff: (string, string) -> string)
    requires i < |pairs|
    ensures FullDiff(pairs[..i + 1], diff) == FullDiff(pairs[..i], diff) + diff(pairs[i].fromHash, pairs[i].toHash)
  {
    assert pairs[..i + 1] == pairs[..i] + [pairs[i]];
    FullDiffSnoc(pairs[..i], pairs[i], diff);
  }

  /** The result of getDiffExcludingMerges for the given pairs: null exactly
      when the full diff is whitespace only, the full diff itself otherwise. */
  function Aggregate(pairs: seq<DiffPair>, diff: (string, string) -> string): (r: Option<string>)
    ensures r == None <==> IsBlank(FullDiff(pairs, diff))
    ensures r != None ==> r.value == FullDiff(pairs, diff)
  {
    var full := FullDiff(pairs, diff);
    if Trim(full) == "" then None else Some(full)
  }

  /** getDiffExcludingMerges (src/git-helpers.ts:58-82) with `git log` output and
      `git diff` as parameters: diff every pair in order, append each diff to
      the accumulator, and give null when the accumulated text trims to "". */
  method GetDiffExcludingMerges(logText: string, previousHead: string, newHead: string,
                                diff: (string, string) -> string)
    returns (result: Option<string>)
    ensures result == Aggregate(Pairs(logText, previousHead, newHead), diff)
  {
    var diffPairs := GetDiffPairsExcludingMerges(logText, previousHead, newHead);
    var fullDiff := "";
    for i := 0 to |diffPairs|
      invariant fullDiff == FullDiff(diffPairs[..i], diff)
    {
      var diffResult := diff(diffPairs[i].fromHash, diffPairs[i].toHash);
      FullDiffPrefix(diffPairs, i, diff);
      fullDiff := fullDiff + diffResult;
    }
    assert diffPairs[..|diffPairs|] == diffPairs;
    if Trim(fullDiff) == "" {
      return None;
    }
    return Some(fullDiff);
  }
}
