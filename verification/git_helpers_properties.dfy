/** What the pairing of src/git-helpers.ts promises about its pair list, and
    what the aggregation promises about its result, proved about the
    specification functions of module GitHelpers (which the two methods there
    are proved to compute). */
module GitHelpersProperties {
  import opened JsString
  import opened GitHelpers

  /** The number of non-merge lines, counted from the bottom of the log up. */
  function CountNonMergeLines(lines: seq<string>): nat
  {
    if lines == [] then 0
    else CountNonMergeLines(lines[..|lines| - 1]) + (if IsMergeLine(lines[|lines| - 1]) then 0 else 1)
  }

  /** The hash of the top-most (newest) non-merge line, if there is one. */
  function TopMostNonMergeHash(lines: seq<string>): Option<string>
  {
    if lines == [] then None
    else if !IsMergeLine(lines[0]) then Some(CommitHash(lines[0]))
    else TopMostNonMergeHash(lines[1..])
  }

  /** A line is a merge exactly when it holds at least two spaces, since each
      space ends a word. */
  lemma MergeLineIffTwoSpaces(line: string)
    ensures IsMergeLine(line) <==> multiset(line)[' '] >= 2
  {
    SplitCount(line, ' ');
  }

  /** The filter keeps exactly the non-merge lines: what it keeps is a
      non-merge line of the log, and every non-merge line of the log is kept. */
  lemma {:induction false} NonMergeLinesKeep(lines: seq<string>)
    ensures forall k :: 0 <= k < |NonMergeLines(lines)| ==>
      NonMergeLines(lines)[k] in lines && !IsMergeLine(NonMergeLines(lines)[k])
    ensures forall l :: l in lines && !IsMergeLine(l) ==> l in NonMergeLines(lines)
  {
    if lines != [] {
      NonMergeLinesKeep(lines[1..]);
      assert forall l :: l in lines ==> l == lines[0] || l in lines[1..];
    }
  }

  /** Filtering distributes over appending one line at the bottom. */
  lemma {:induction false} NonMergeLinesSnoc(lines: seq<string>, line: string)
    ensures NonMergeLines(lines + [line]) ==
      NonMergeLines(lines) + (if IsMergeLine(line) then [] else [line])
  {
    if lines == [] {
      assert [] + [line] == [line];
    } else {
      assert (lines + [line])[1..] == lines[1..] + [line];
      NonMergeLinesSnoc(lines[1..], line);
    }
  }

  /** The filter keeps exactly as many lines as there are non-merge lines. */
  lemma {:induction false} NonMergeLinesCount(lines: seq<string>)
    ensures |NonMergeLines(lines)| == CountNonMergeLines(lines)
  {
    if lines != [] {
      var init := lines[..|lines| - 1];
      assert lines == init + [lines[|lines| - 1]];
      NonMergeLinesSnoc(init, lines[|lines| - 1]);
      NonMergeLinesCount(init);
    }
  }

  /** The walk visits the hashes of the kept lines, from the bottom of the log
      to the top. */
  lemma {:induction false} VisitOrderBottomUp(lines: seq<string>)
    ensures var hs, nm := VisitOrder(lines), NonMergeLines(lines);
      && |hs| == |nm|
      && forall k :: 0 <= k < |nm| ==> hs[k] == CommitHash(nm[|nm| - 1 - k])
  {
    if lines != [] {
      var rest := lines[1..];
      VisitOrderBottomUp(rest);
      var hs, nm := VisitOrder(lines), NonMergeLines(lines);
      var hs', nm' := VisitOrder(rest), NonMergeLines(rest);
      if IsMergeLine(lines[0]) {
        assert hs == hs' + [];
        assert hs == hs';
      } else {
        assert hs == hs' + [CommitHash(lines[0])];
        assert nm == [lines[0]] + nm';
        forall k | 0 <= k < |nm| ensures hs[k] == CommitHash(nm[|nm| - 1 - k]) {
          if k < |nm'| {
            assert nm[|nm| - 1 - k] == nm'[|nm'| - 1 - k];
          }
        }
      }
    }
  }

  /** Step pair k starts at the k-th visited hash and ends at the one visited
      before it, or at newHead for the first. */
  lemma {:induction false} StepPairsAt(hs: seq<string>, newHead: string)
    ensures |StepPairs(hs, newHead)| == |hs|
    ensures forall k :: 0 <= k < |hs| ==> StepPairs(hs, newHead)[k].fromHash == hs[k]
    ensures hs != [] ==> StepPairs(hs, newHead)[0].toHash == newHead
    ensures forall k :: 0 < k < |hs| ==> StepPairs(hs, newHead)[k].toHash == hs[k - 1]
  {
    if hs != [] {
      var before := hs[..|hs| - 1];
      StepPairsAt(before, newHead);
      var steps := StepPairs(before, newHead);
      var last := DiffPair(hs[|hs| - 1], LastVisited(before, newHead));
      var r := StepPairs(hs, newHead);
      assert r == steps + [last];
      forall k | 0 <= k < |hs| ensures r[k].fromHash == hs[k] {
        if k < |before| {
          assert r[k] == steps[k];
          assert before[k] == hs[k];
        }
      }
      if before == [] {
        assert r[0] == last;
      } else {
        assert r[0] == steps[0];
      }
      forall k | 0 < k < |hs| ensures r[k].toHash == hs[k - 1] {
        assert before[k - 1] == hs[k - 1];
        if k < |before| {
          assert r[k] == steps[k];
        } else {
          assert r[k] == last;
        }
      }
    }
  }

  /** A pair list built from visited hashes `hs` has one pair per hash plus
      the closing pair, and step pair k starts at the k-th hash. */
  lemma ChainFrom(hs: seq<string>, previousHead: string, newHead: string)
    ensures var r := StepPairs(hs, newHead) + [DiffPair(previousHead, LastVisited(hs, newHead))];
      && |r| == |hs| + 1
      && (forall k :: 0 <= k < |hs| ==> r[k].fromHash == hs[k])
  {
    var steps := StepPairs(hs, newHead);
    var r := steps + [DiffPair(previousHead, LastVisited(hs, newHead))];
    StepPairsAt(hs, newHead);
    forall k | 0 <= k < |hs| ensures r[k].fromHash == hs[k] {
      assert r[k] == steps[k];
    }
  }

  /** The shape of a pair list built from visited hashes `hs`: each step pair
      starts at its hash, the first ends at newHead, each later pair ends
      where the one before it starts, and the closing pair starts at previousHead. */
  lemma ChainShape(hs: seq<string>, previousHead: string, newHead: string)
    ensures var r := StepPairs(hs, newHead) + [DiffPair(previousHead, LastVisited(hs, newHead))];
      && |r| == |hs| + 1
      && (forall k :: 0 <= k < |hs| ==> r[k].fromHash == hs[k])
      && r[|hs|].fromHash == previousHead
      && r[0].toHash == newHead
      && (forall k :: 0 <= k < |r| - 1 ==> r[k + 1].toHash == r[k].fromHash)
  {
    var steps := StepPairs(hs, newHead);
    var r := steps + [DiffPair(previousHead, LastVisited(hs, newHead))];
    ChainFrom(hs, previousHead, newHead);
    StepPairsAt(hs, newHead);
    if hs == [] {
      assert r[0].toHash == newHead;
    } else {
      assert r[0] == steps[0];
    }
    forall k | 0 <= k < |r| - 1 ensures r[k + 1].toHash == r[k].fromHash {
      assert r[k].fromHash == hs[k];
      if k + 1 < |hs| {
        assert r[k + 1] == steps[k + 1];
      } else {
        assert r[k + 1].toHash == hs[|hs| - 1];
      }
    }
  }

  /** There is one pair per line with at most two words, plus the closing pair. */
  lemma PairsCount(logText: string, previousHead: string, newHead: string)
    ensures |Pairs(logText, previousHead, newHead)| == CountNonMergeLines(LogLines(logText)) + 1
  {
    var lines := LogLines(logText);
    NonMergeLinesCount(lines);
    VisitOrderBottomUp(lines);
    StepPairsAt(VisitOrder(lines), newHead);
  }

  /** The first kept line is the top-most non-merge line. */
  lemma {:induction false} TopMostIsFirstKept(lines: seq<string>)
    ensures NonMergeLines(lines) == [] <==> TopMostNonMergeHash(lines) == None
    ensures NonMergeLines(lines) != [] ==>
      TopMostNonMergeHash(lines) == Some(CommitHash(NonMergeLines(lines)[0]))
  {
    if lines != [] && IsMergeLine(lines[0]) {
      TopMostIsFirstKept(lines[1..]);
    }
  }

  /** The closing pair goes from previousHead to the hash of the top-most
      non-merge line, or to newHead when every line is a merge. */
  lemma LastPair(logText: string, previousHead: string, newHead: string)
    ensures var r := Pairs(logText, previousHead, newHead);
      r[|r| - 1] == DiffPair(previousHead,
        match TopMostNonMergeHash(LogLines(logText))
        case None => newHead
        case Some(h) => h)
  {
    var lines := LogLines(logText);
    TopMostIsFirstKept(lines);
    VisitOrderBottomUp(lines);
    StepPairsAt(VisitOrder(lines), newHead);
  }

  /** When every line is a merge, the filter keeps nothing. */
  lemma {:induction false} OnlyMergesKeepNothing(lines: seq<string>)
    requires forall k :: 0 <= k < |lines| ==> IsMergeLine(lines[k])
    ensures NonMergeLines(lines) == []
  {
    if lines != [] {
      assert IsMergeLine(lines[0]);
      forall k | 0 <= k < |lines[1..]| ensures IsMergeLine(lines[1..][k]) {
        assert lines[1..][k] == lines[k + 1];
      }
      OnlyMergesKeepNothing(lines[1..]);
    }
  }

  /** A log made only of merge lines gives the single pair (previousHead, newHead). */
  lemma OnlyMergesGiveOnePair(logText: string, previousHead: string, newHead: string)
    requires forall k :: 0 <= k < |LogLines(logText)| ==> IsMergeLine(LogLines(logText)[k])
    ensures Pairs(logText, previousHead, newHead) == [DiffPair(previousHead, newHead)]
  {
    var lines := LogLines(logText);
    OnlyMergesKeepNothing(lines);
    VisitOrderBottomUp(lines);
  }

  /** The pairs form a chain: the first ends at newHead and every later pair
      ends where the one before it starts. */
  lemma PairsChain(logText: string, previousHead: string, newHead: string)
    ensures var r := Pairs(logText, previousHead, newHead);
      && r[0].toHash == newHead
      && forall k :: 0 <= k < |r| - 1 ==> r[k + 1].toHash == r[k].fromHash
  {
    ChainShape(VisitOrder(LogLines(logText)), previousHead, newHead);
  }

  /** When the visited hashes are the hashes of `nm` in reverse, the pairs
      before the closing one start at those hashes, from the last of `nm` to
      the first. */
  lemma ChainFromReversed(hs: seq<string>, nm: seq<string>, previousHead: string, newHead: string)
    requires |hs| == |nm|
    requires forall k :: 0 <= k < |nm| ==> hs[k] == CommitHash(nm[|nm| - 1 - k])
    ensures var r := StepPairs(hs, newHead) + [DiffPair(previousHead, LastVisited(hs, newHead))];
      |r| == |nm| + 1 &&
      forall k :: 0 <= k < |nm| ==> r[k].fromHash == CommitHash(nm[|nm| - 1 - k])
  {
    ChainFrom(hs, previousHead, newHead);
  }

  /** For log lines: all pairs but the last start at the hashes of the kept
      lines, from the bottom one to the top one. */
  lemma KeptLinesStartPairs(lines: seq<string>, previousHead: string, newHead: string)
    ensures var r := PairsOfLines(lines, previousHead, newHead);
      var nm := NonMergeLines(lines);
      |r| == |nm| + 1 &&
      forall k :: 0 <= k < |nm| ==> r[k].fromHash == CommitHash(nm[|nm| - 1 - k])
  {
    VisitOrderBottomUp(lines);
    ChainFromReversed(VisitOrder(lines), NonMergeLines(lines), previousHead, newHead);
  }

  /** All pairs but the last start at the hashes of the non-merge lines, taken
      from the bottom of the log to the top. */
  lemma StepPairsFromBottomUp(logText: string, previousHead: string, newHead: string)
    ensures var r := Pairs(logText, previousHead, newHead);
      var nm := NonMergeLines(LogLines(logText));
      |r| == |nm| + 1 &&
      forall k :: 0 <= k < |nm| ==> r[k].fromHash == CommitHash(nm[|nm| - 1 - k])
  {
    KeptLinesStartPairs(LogLines(logText), previousHead, newHead);
  }

  /** `h` is the hash of some non-merge line among `lines`. */
  predicate IsNonMergeHash(lines: seq<string>, h: string)
  {
    exists l :: l in lines && !IsMergeLine(l) && h == CommitHash(l)
  }

  /** Every hash the walk visits is the hash of a non-merge line. */
  lemma {:induction false} VisitedAreNonMergeHashes(lines: seq<string>)
    ensures forall k :: 0 <= k < |VisitOrder(lines)| ==> IsNonMergeHash(lines, VisitOrder(lines)[k])
  {
    if lines != [] {
      var rest := lines[1..];
      VisitedAreNonMergeHashes(rest);
      var hs, hs' := VisitOrder(lines), VisitOrder(rest);
      forall k | 0 <= k < |hs| ensures IsNonMergeHash(lines, hs[k]) {
        if k < |hs'| {
          assert hs[k] == hs'[k];
          var l :| l in rest && !IsMergeLine(l) && hs'[k] == CommitHash(l);
          assert l in lines;
        } else {
          assert lines[0] in lines;
        }
      }
    }
  }

  /** Every endpoint of a pair list built from visited hashes `hs` is one of
      those hashes, or previousHead (for a `from`) or newHead (for a `to`). */
  lemma ChainEndpoints(hs: seq<string>, previousHead: string, newHead: string)
    ensures var r := StepPairs(hs, newHead) + [DiffPair(previousHead, LastVisited(hs, newHead))];
      forall k :: 0 <= k < |r| ==>
        && (r[k].fromHash == previousHead || r[k].fromHash in hs)
        && (r[k].toHash == newHead || r[k].toHash in hs)
  {
    var steps := StepPairs(hs, newHead);
    var r := steps + [DiffPair(previousHead, LastVisited(hs, newHead))];
    StepPairsAt(hs, newHead);
    forall k | 0 <= k < |r|
      ensures r[k].fromHash == previousHead || r[k].fromHash in hs
      ensures r[k].toHash == newHead || r[k].toHash in hs
    {
      if k < |hs| {
        assert r[k] == steps[k];
      } else if hs != [] {
        assert r[k].toHash == hs[|hs| - 1];
      }
    }
  }

  /** Every endpoint is one of the two heads or the hash of a non-merge line:
      every `from` is previousHead or such a hash, every `to` is newHead or
      such a hash. With unique hashes, no merge commit other than the heads
      themselves is an endpoint. */
  lemma PairEndpoints(logText: string, previousHead: string, newHead: string)
    ensures var r := Pairs(logText, previousHead, newHead);
      var lines := LogLines(logText);
      forall k :: 0 <= k < |r| ==>
        && (r[k].fromHash == previousHead || IsNonMergeHash(lines, r[k].fromHash))
        && (r[k].toHash == newHead || IsNonMergeHash(lines, r[k].toHash))
  {
    var lines := LogLines(logText);
    var hs := VisitOrder(lines);
    assert Pairs(logText, previousHead, newHead) ==
      StepPairs(hs, newHead) + [DiffPair(previousHead, LastVisited(hs, newHead))];
    ChainEndpoints(hs, previousHead, newHead);
    VisitedAreNonMergeHashes(lines);
    forall h | h in hs ensures IsNonMergeHash(lines, h) {
      var j :| 0 <= j < |hs| && hs[j] == h;
    }
  }

  /** The walk over the non-merge lines alone visits the same hashes as the
      walk over all lines. */
  lemma {:induction false} VisitOrderIgnoresMerges(lines: seq<string>)
    ensures VisitOrder(NonMergeLines(lines)) == VisitOrder(lines)
  {
    if lines != [] {
      VisitOrderIgnoresMerges(lines[1..]);
      if !IsMergeLine(lines[0]) {
        assert ([lines[0]] + NonMergeLines(lines[1..]))[1..] == NonMergeLines(lines[1..]);
      }
    }
  }

  /** Merge lines contribute nothing: pairing only the non-merge lines gives
      the same pair list. */
  lemma MergeLinesIgnored(lines: seq<string>, previousHead: string, newHead: string)
    ensures PairsOfLines(NonMergeLines(lines), previousHead, newHead) == PairsOfLines(lines, previousHead, newHead)
  {
    VisitOrderIgnoresMerges(lines);
  }

  /** Deleting the merge lines from the log text leaves the pair list unchanged,
      as long as some non-merge line remains. */
  lemma MergeLinesDeletedFromText(logText: string, previousHead: string, newHead: string)
    requires NonMergeLines(LogLines(logText)) != []
    ensures Pairs(Join(NonMergeLines(LogLines(logText)), '\n'), previousHead, newHead)
         == Pairs(logText, previousHead, newHead)
  {
    var lines := LogLines(logText);
    var kept := NonMergeLines(lines);
    NonMergeLinesKeep(lines);
    forall k | 0 <= k < |kept| ensures '\n' !in kept[k] {
      assert kept[k] in lines;
    }
    SplitJoin(kept, '\n');
    MergeLinesIgnored(lines, previousHead, newHead);
  }

  /** When every line is a merge, deleting them all leaves the empty text, which
      splits into one empty non-merge line: the pair list then changes. */
  lemma DeletingEveryLineChangesPairs(logText: string, previousHead: string, newHead: string)
    requires forall k :: 0 <= k < |LogLines(logText)| ==> IsMergeLine(LogLines(logText)[k])
    ensures Join(NonMergeLines(LogLines(logText)), '\n') == ""
    ensures Pairs("", previousHead, newHead) != Pairs(logText, previousHead, newHead)
  {
    OnlyMergesKeepNothing(LogLines(logText));
    OnlyMergesGiveOnePair(logText, previousHead, newHead);
    EmptyLog(previousHead, newHead);
  }

  /** An empty log is one empty line, which is not a merge, so it yields a pair
      from the empty hash as well as the closing pair to the empty hash. */
  lemma EmptyLog(previousHead: string, newHead: string)
    ensures Pairs("", previousHead, newHead) == [DiffPair("", newHead), DiffPair(previousHead, "")]
  {
    assert LogLines("") == [""];
    assert Split("", ' ') == [""];
    assert !IsMergeLine("");
    assert CommitHash("") == "";
    assert [""][1..] == [];
    assert VisitOrder([""]) == [""];
    assert [""][..0] == [];
    assert StepPairs([""], newHead) == [DiffPair("", newHead)];
  }

  /** Two separator-free pieces joined by the separator split back into them. */
  lemma SplitTwo(x: string, sep: char, y: string)
    requires sep !in x && sep !in y
    ensures Split(x + [sep] + y, sep) == [x, y]
  {
    SplitAfterPiece(x, sep, y);
    SplitWithoutSeparator(y, sep);
  }

  /** Two non-merge lines, newest on top: the walk pairs the bottom hash with
      newHead, then the top hash with the bottom one, then closes on the top hash. */
  lemma TwoNonMergeLines(top: string, bottom: string, previousHead: string, newHead: string)
    requires !IsMergeLine(top) && !IsMergeLine(bottom)
    ensures PairsOfLines([top, bottom], previousHead, newHead) == [
      DiffPair(CommitHash(bottom), newHead),
      DiffPair(CommitHash(top), CommitHash(bottom)),
      DiffPair(previousHead, CommitHash(top))]
  {
    var lines := [top, bottom];
    var hb, ht := CommitHash(bottom), CommitHash(top);
    assert lines[1..] == [bottom] && [bottom][1..] == [];
    assert VisitOrder([bottom]) == [hb];
    assert VisitOrder(lines) == [hb, ht];
    assert [hb, ht][..1] == [hb] && [hb][..0] == [];
    assert StepPairs([hb], newHead) == [DiffPair(hb, newHead)];
    assert StepPairs([hb, ht], newHead) == [DiffPair(hb, newHead), DiffPair(ht, hb)];
  }

  /** "x y" splits on the space into its two words. */
  lemma TwoWords(x: string, y: string)
    requires ' ' !in x && ' ' !in y
    ensures Split(x + " " + y, ' ') == [x, y]
  {
    assert x + " " + y == x + [' '] + y;
    SplitTwo(x, ' ', y);
  }

  /** "t\nb" splits on the newline into its two lines. */
  lemma TwoLines(t: string, b: string)
    requires '\n' !in t && '\n' !in b
    ensures LogLines(t + "\n" + b) == [t, b]
  {
    assert t + "\n" + b == t + ['\n'] + b;
    SplitTwo(t, '\n', b);
  }

  /** A linear history C -> B -> A listed as "C B\nB A" (newest first), paired
      with heads (A, C): the walk meets B, then C, giving (B, C), (C, B) and
      the closing (A, C). Holds for any hashes free of spaces and newlines. */
  lemma LinearTrace(a: string, b: string, c: string)
    requires ' ' !in a && ' ' !in b && ' ' !in c
    requires '\n' !in a && '\n' !in b && '\n' !in c
    ensures Pairs(c + " " + b + "\n" + b + " " + a, a, c) == [DiffPair(b, c), DiffPair(c, b), DiffPair(a, c)]
  {
    var top, bottom := c + " " + b, b + " " + a;
    assert c + " " + b + "\n" + b + " " + a == top + "\n" + bottom;
    TwoLines(top, bottom);
    TwoWords(c, b);
    TwoWords(b, a);
    TwoNonMergeLines(top, bottom, a, c);
  }

  /** The same trace on the hashes A, B and C themselves. */
  lemma LinearTraceABC()
    ensures Pairs("C B\nB A", "A", "C") == [DiffPair("B", "C"), DiffPair("C", "B"), DiffPair("A", "C")]
  {
    LinearTrace("A", "B", "C");
    assert "C" + " " + "B" + "\n" + "B" + " " + "A" == "C B\nB A";
  }

  /** The diff of pair k sits in the full diff right after the diffs of the
      pairs before it and right before the diffs of the pairs after it. */
  lemma {:induction false} DiffsInPairOrder(pairs: seq<DiffPair>, diff: (string, string) -> string, k: nat)
    requires k < |pairs|
    ensures FullDiff(pairs, diff) ==
      FullDiff(pairs[..k], diff) + diff(pairs[k].fromHash, pairs[k].toHash) + FullDiff(pairs[k + 1..], diff)
  {
    if k == 0 {
      assert pairs[..0] == [];
      assert pairs[1..] == pairs[k + 1..];
    } else {
      var rest := pairs[1..];
      DiffsInPairOrder(rest, diff, k - 1);
      assert rest[..k - 1] == pairs[..k][1..];
      assert rest[k - 1] == pairs[k];
      assert rest[k..] == pairs[k + 1..];
      assert pairs[..k][0] == pairs[0];
    }
  }
}
