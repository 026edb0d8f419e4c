/** The chat-history cleanup of backend/services/document_preprocessor.py:
    segmentation (timestamp split, reply split, blank-line runs), the
    "meaningful content" filter, and recombination. The language model is
    an arbitrary function from prompts to text, and the two regular
    expression splits are arbitrary functions returning what `re.split`
    returns: the pieces of the text with each captured separator in between. */
module Preprocessor {
  import opened Wrappers
  import opened Text

  datatype SegmentKind = TimestampSegment | ReplySegment | FinalSegment | LineSegment | SingleSegment

  /** A segment dict: its `content`, its `type`, and the optional
      `timestamp` and `reply_indicator` keys. */
  datatype Segment = Segment(content: string, kind: SegmentKind, timestamp: Option<string>, replyIndicator: Option<string>)

  // ---------------------------------------------------------------------
  // Pattern 3: runs of non-blank lines (`_process_line_segments`)

  /** The lines of `content`, each stripped. */
  function StrippedLines(content: string): (lines: seq<string>)
    ensures AllClean(lines)
  {
    var raw := SplitOn(content, '\n');
    seq(|raw|, i requires 0 <= i < |raw| => Strip(raw[i]))
  }

  /** The accumulating loop of `_process_line_segments`: `current` holds
      the lines of the run being built. */
  function LineRuns(lines: seq<string>, current: seq<string>): (groups: seq<seq<string>>)
    decreases |lines|
  {
    if |lines| == 0 then (if |current| > 0 then [current] else [])
    else if lines[0] == "" then (if |current| > 0 then [current] else []) + LineRuns(lines[1..], [])
    else LineRuns(lines[1..], current + [lines[0]])
  }

  /** `_process_line_segments(content)` */
  function ProcessLineSegments(content: string): (segs: seq<Segment>)
    ensures forall k :: 0 <= k < |segs| ==> segs[k].kind == LineSegment
  {
    var groups := LineRuns(StrippedLines(content), []);
    seq(|groups|, k requires 0 <= k < |groups| => Segment(Join("\n", groups[k]), LineSegment, None, None))
  }

  /** Splitting a sequence at every occurrence of `sep` (the fields may be empty). */
  function SplitSeq<T(==)>(xs: seq<T>, sep: T): (fields: seq<seq<T>>)
    ensures |fields| >= 1
    decreases |xs|
  {
    if |xs| == 0 then [[]]
    else if xs[0] == sep then [[]] + SplitSeq(xs[1..], sep)
    else
      var rest := SplitSeq(xs[1..], sep);
      [[xs[0]] + rest[0]] + rest[1..]
  }

  function NonEmptyGroups<T>(gs: seq<seq<T>>): (r: seq<seq<T>>)
    ensures forall k :: 0 <= k < |r| ==> r[k] != []
    decreases |gs|
  {
    if |gs| == 0 then []
    else (if gs[0] != [] then [gs[0]] else []) + NonEmptyGroups(gs[1..])
  }

  function Flatten<T>(gs: seq<seq<T>>): seq<T>
    decreases |gs|
  {
    if |gs| == 0 then [] else gs[0] + Flatten(gs[1..])
  }

  function NonEmptyLines(lines: seq<string>): (r: seq<string>)
    ensures forall k :: 0 <= k < |r| ==> r[k] != ""
    decreases |lines|
  {
    if |lines| == 0 then []
    else (if lines[0] != "" then [lines[0]] else []) + NonEmptyLines(lines[1..])
  }

  lemma {:induction false} NonEmptyGroupsAppend<T>(a: seq<seq<T>>, b: seq<seq<T>>)
    ensures NonEmptyGroups(a + b) == NonEmptyGroups(a) + NonEmptyGroups(b)
    decreases |a|
  {
    if |a| > 0 {
      assert (a + b)[1..] == a[1..] + b;
      NonEmptyGroupsAppend(a[1..], b);
    } else {
      assert a + b == b;
    }
  }

  /** The runs are exactly the non-empty fields obtained by cutting the
      stripped lines at the empty ones: every run is maximal. */
  lemma {:induction false} LineRunsAreNonEmptyFields(lines: seq<string>, current: seq<string>)
    ensures var fields := SplitSeq(lines, "");
      LineRuns(lines, current) == NonEmptyGroups([current + fields[0]] + fields[1..])
    decreases |lines|
  {
    var fields := SplitSeq(lines, "");
    if |lines| == 0 {
      assert current + [] == current;
      assert NonEmptyGroups([current]) == (if current != [] then [current] else []) by {
        assert [current][1..] == [];
      }
    } else if lines[0] == "" {
      var rest := SplitSeq(lines[1..], "");
      LineRunsAreNonEmptyFields(lines[1..], []);
      assert [] + rest[0] == rest[0];
      assert [[] + rest[0]] + rest[1..] == rest;
      assert fields == [[]] + rest;
      assert current + fields[0] == current;
      var all := [current] + fields[1..];
      assert all == [current] + rest;
      NonEmptyGroupsAppend([current], rest);
      assert NonEmptyGroups([current]) == (if current != [] then [current] else []) by {
        assert [current][1..] == [];
      }
    } else {
      var rest := SplitSeq(lines[1..], "");
      LineRunsAreNonEmptyFields(lines[1..], current + [lines[0]]);
      assert fields == [[lines[0]] + rest[0]] + rest[1..];
      assert current + [lines[0]] + rest[0] == current + fields[0];
    }
  }

  /** Every run is non-empty and holds only non-empty lines, and the runs
      concatenated are the non-empty lines in input order. */
  lemma {:induction false} LineRunsShape(lines: seq<string>, current: seq<string>)
    requires forall i :: 0 <= i < |current| ==> current[i] != ""
    ensures var groups := LineRuns(lines, current);
      && (forall k, j :: 0 <= k < |groups| && 0 <= j < |groups[k]| ==> groups[k][j] != "")
      && (forall k :: 0 <= k < |groups| ==> groups[k] != [])
      && Flatten(groups) == current + NonEmptyLines(lines)
    decreases |lines|
  {
    if |lines| == 0 {
      if |current| > 0 {
        assert Flatten([current]) == current + [] by { assert [current][1..] == []; }
      }
    } else if lines[0] == "" {
      LineRunsShape(lines[1..], []);
      var prefix: seq<seq<string>> := if |current| > 0 then [current] else [];
      var rest := LineRuns(lines[1..], []);
      FlattenAppend(prefix, rest);
      assert Flatten(prefix) == current by {
        if |current| > 0 { assert prefix[1..] == []; }
      }
      assert NonEmptyLines(lines) == NonEmptyLines(lines[1..]);
      assert [] + NonEmptyLines(lines[1..]) == NonEmptyLines(lines[1..]);
    } else {
      LineRunsShape(lines[1..], current + [lines[0]]);
      assert NonEmptyLines(lines) == [lines[0]] + NonEmptyLines(lines[1..]);
      assert current + [lines[0]] + NonEmptyLines(lines[1..]) == current + NonEmptyLines(lines);
    }
  }

  lemma {:induction false} FlattenAppend<T>(a: seq<seq<T>>, b: seq<seq<T>>)
    ensures Flatten(a + b) == Flatten(a) + Flatten(b)
    decreases |a|
  {
    if |a| > 0 {
      assert (a + b)[1..] == a[1..] + b;
      FlattenAppend(a[1..], b);
      assert a[0] + (Flatten(a[1..]) + Flatten(b)) == (a[0] + Flatten(a[1..])) + Flatten(b);
    } else {
      assert a + b == b;
    }
  }

  /** Each line segment is non-empty text whose lines (split at "\n") are
      exactly its run: non-empty, stripped, in order. */
  lemma LineSegmentLines(content: string)
    ensures var segs := ProcessLineSegments(content);
      var groups := LineRuns(StrippedLines(content), []);
      && |segs| == |groups|
      && forall k :: 0 <= k < |segs| ==>
           && segs[k].content != ""
           && SplitOn(segs[k].content, '\n') == groups[k]
           && forall j :: 0 <= j < |groups[k]| ==> groups[k][j] != "" && IsStripped(groups[k][j])
  {
    var lines := StrippedLines(content);
    var groups := LineRuns(lines, []);
    LineRunsShape(lines, []);
    LineRunsFromLines(lines, []);
    forall k | 0 <= k < |groups|
      ensures Join("\n", groups[k]) != ""
      ensures SplitOn(Join("\n", groups[k]), '\n') == groups[k]
    {
      SplitOnJoin(groups[k], '\n');
    }
  }

  /** A line as `_process_line_segments` keeps it: stripped, no newline. */
  predicate CleanLine(l: string) {
    IsStripped(l) && '\n' !in l
  }

  predicate AllClean(lines: seq<string>) {
    forall i :: 0 <= i < |lines| ==> CleanLine(lines[i])
  }

  predicate CleanGroups(gs: seq<seq<string>>) {
    forall k :: 0 <= k < |gs| ==> AllClean(gs[k])
  }

  /** Every line of every run is one of the given lines. */
  lemma {:induction false} LineRunsFromLines(lines: seq<string>, current: seq<string>)
    requires AllClean(current) && AllClean(lines)
    ensures CleanGroups(LineRuns(lines, current))
    decreases |lines|
  {
    if |lines| > 0 {
      assert AllClean(lines[1..]) by {
        forall i | 0 <= i < |lines| - 1 ensures CleanLine(lines[1..][i]) {
          assert lines[1..][i] == lines[i + 1];
        }
      }
      if lines[0] == "" {
        LineRunsFromLines(lines[1..], []);
        var prefix: seq<seq<string>> := if |current| > 0 then [current] else [];
        var rest := LineRuns(lines[1..], []);
        assert LineRuns(lines, current) == prefix + rest;
        forall k | 0 <= k < |prefix + rest|
          ensures AllClean((prefix + rest)[k])
        {
          if k >= |prefix| {
            assert (prefix + rest)[k] == rest[k - |prefix|];
          } else {
            assert (prefix + rest)[k] == current;
          }
        }
      } else {
        var next := current + [lines[0]];
        assert AllClean(next) by {
          forall i | 0 <= i < |next| ensures CleanLine(next[i]) {
            if i < |current| { assert next[i] == current[i]; } else { assert next[i] == lines[0]; }
          }
        }
        LineRunsFromLines(lines[1..], next);
      }
    }
  }

  // ---------------------------------------------------------------------
  // Pattern 2: reply indicators (`_process_reply_splits`)

  /** The loop of `_process_reply_splits` over the parts not yet visited;
      `isText` is the parity of the current position (even positions hold
      text, odd positions the captured indicators). Text is appended to the
      segment being built; an indicator closes that segment (unless it is
      blank) and opens the next one. */
  function ReplyFold(parts: seq<string>, isText: bool, current: string): seq<Segment>
    decreases |parts|
  {
    if |parts| == 0 then
      (if !IsBlank(current) then [Segment(Strip(current), FinalSegment, None, None)] else [])
    else if isText then
      ReplyFold(parts[1..], false, current + parts[0])
    else
      (if !IsBlank(current) then [Segment(Strip(current), ReplySegment, None, Some(parts[0]))] else [])
      + ReplyFold(parts[1..], true, parts[0])
  }

  /** `_process_reply_splits(reply_splits)`: at most one segment per
      indicator plus one, each stripped and non-empty, only the last one
      final. */
  function ProcessReplySplits(xs: seq<string>): (segs: seq<Segment>)
    ensures forall k :: 0 <= k < |segs| ==> segs[k].content != "" && IsStripped(segs[k].content)
    ensures forall k :: 0 <= k < |segs| - 1 ==> segs[k].kind == ReplySegment
    ensures forall k :: 0 <= k < |segs| ==> segs[k].kind in {ReplySegment, FinalSegment}
    ensures |segs| <= |xs| / 2 + 1
  {
    ReplyFoldShape(xs, true, "");
    ReplyFold(xs, true, "")
  }

  lemma {:induction false} ReplyFoldShape(parts: seq<string>, isText: bool, current: string)
    ensures var segs := ReplyFold(parts, isText, current);
      && (forall k :: 0 <= k < |segs| ==> segs[k].content != "" && IsStripped(segs[k].content))
      && (forall k :: 0 <= k < |segs| - 1 ==> segs[k].kind == ReplySegment)
      && (forall k :: 0 <= k < |segs| ==> segs[k].kind in {ReplySegment, FinalSegment})
      && |segs| <= (if isText then |parts| / 2 else (|parts| + 1) / 2) + 1
    decreases |parts|
  {
    if |parts| > 0 {
      if isText {
        ReplyFoldShape(parts[1..], false, current + parts[0]);
      } else {
        ReplyFoldShape(parts[1..], true, parts[0]);
      }
    }
  }

  /** An indicator as the reply pattern captures it: non-empty and neither
      starting nor ending with whitespace. */
  predicate WellFormedIndicator(d: string) {
    d != [] && !IsSpace(d[0]) && !IsSpace(d[|d| - 1])
  }

  /** In `[t, d, t, d, ...]` (text first, as `re.split` with one capture
      group returns it) every captured indicator is well formed. */
  predicate IndicatorsWellFormed(ys: seq<string>)
    decreases |ys|
  {
    |ys| <= 1 || (WellFormedIndicator(ys[1]) && IndicatorsWellFormed(ys[2..]))
  }

  /** Reference segmentation: the piece opened by indicator `d` runs to the
      next indicator in `ys = [t, d', t', ...]` and is closed by it; the
      last piece is final. */
  function PiecesFrom(d: string, ys: seq<string>): seq<Segment>
    decreases |ys|
  {
    if |ys| == 0 then [Segment(Strip(d), FinalSegment, None, None)]
    else if |ys| == 1 then [Segment(Strip(d + ys[0]), FinalSegment, None, None)]
    else [Segment(Strip(d + ys[0]), ReplySegment, None, Some(ys[1]))] + PiecesFrom(ys[1], ys[2..])
  }

  /** The indicator that opens each piece of `PiecesFrom(d, ys)`. */
  function OpenersFrom(d: string, ys: seq<string>): seq<string>
    decreases |ys|
  {
    if |ys| <= 1 then [d] else [d] + OpenersFrom(ys[1], ys[2..])
  }

  lemma {:induction false} ReplyTail(d: string, ys: seq<string>)
    requires WellFormedIndicator(d) && IndicatorsWellFormed(ys)
    ensures ReplyFold(ys, true, d) == PiecesFrom(d, ys)
    decreases |ys|
  {
    if |ys| == 0 {
      assert !IsBlank(d) by { assert !IsSpace(d[0]); }
    } else {
      var p := d + ys[0];
      assert !IsBlank(p) by { assert p[0] == d[0]; }
      assert ReplyFold(ys, true, d) == ReplyFold(ys[1..], false, p);
      if |ys| > 1 {
        assert ys[1..][1..] == ys[2..];
        ReplyTail(ys[1], ys[2..]);
      }
    }
  }

  /** Closed form of the reply segmentation: the leading text yields a
      segment only when it is not blank, and after it every indicator opens
      exactly one segment. */
  lemma ReplySegmentsClosedForm(xs: seq<string>)
    requires |xs| >= 1 && IndicatorsWellFormed(xs)
    ensures ProcessReplySplits(xs) ==
      if |xs| == 1 then
        (if IsBlank(xs[0]) then [] else [Segment(Strip(xs[0]), FinalSegment, None, None)])
      else
        (if IsBlank(xs[0]) then [] else [Segment(Strip(xs[0]), ReplySegment, None, Some(xs[1]))])
        + PiecesFrom(xs[1], xs[2..])
  {
    assert "" + xs[0] == xs[0];
    assert ReplyFold(xs, true, "") == ReplyFold(xs[1..], false, xs[0]);
    if |xs| > 1 {
      assert xs[1..][1..] == xs[2..];
      ReplyTail(xs[1], xs[2..]);
    }
  }

  /** Each reference piece starts with the indicator that opened it, is
      closed by the next opener, and only the last piece is final. */
  lemma PiecesStartWithOpener(d: string, ys: seq<string>)
    requires WellFormedIndicator(d) && IndicatorsWellFormed(ys)
    ensures var r := PiecesFrom(d, ys);
      var o := OpenersFrom(d, ys);
      && |r| == |o| == |ys| / 2 + 1
      && (forall k :: 0 <= k < |r| ==> o[k] <= r[k].content)
      && (forall k :: 0 <= k < |r| - 1 ==> r[k].kind == ReplySegment && r[k].replyIndicator == Some(o[k + 1]))
      && r[|r| - 1].kind == FinalSegment
  {
    PiecesLength(d, ys);
    PiecesOpenerPrefix(d, ys);
    PiecesClosed(d, ys);
    LastPieceFinal(d, ys);
  }

  /** One piece per opener: the leading one and one per later indicator. */
  lemma {:induction false} PiecesLength(d: string, ys: seq<string>)
    ensures |PiecesFrom(d, ys)| == |OpenersFrom(d, ys)| == |ys| / 2 + 1
    decreases |ys|
  {
    if |ys| > 1 {
      PiecesLength(ys[1], ys[2..]);
    }
  }

  lemma {:induction false} PiecesOpenerPrefix(d: string, ys: seq<string>)
    requires WellFormedIndicator(d) && IndicatorsWellFormed(ys)
    ensures var r := PiecesFrom(d, ys);
      var o := OpenersFrom(d, ys);
      |r| == |o| && forall k :: 0 <= k < |r| ==> o[k] <= r[k].content
    decreases |ys|
  {
    PiecesLength(d, ys);
    if |ys| == 0 {
      StripFixpoint(d);
    } else {
      StripKeepsPrefix(d, ys[0]);
      if |ys| > 1 {
        PiecesOpenerPrefix(ys[1], ys[2..]);
        var r := PiecesFrom(d, ys);
        var o := OpenersFrom(d, ys);
        var r' := PiecesFrom(ys[1], ys[2..]);
        var o' := OpenersFrom(ys[1], ys[2..]);
        assert r == [r[0]] + r' && o == [d] + o';
        forall k | 1 <= k < |r|
          ensures o[k] <= r[k].content
        {
          assert o[k] == o'[k - 1] && r[k] == r'[k - 1];
        }
      }
    }
  }

  lemma {:induction false} LastPieceFinal(d: string, ys: seq<string>)
    ensures |PiecesFrom(d, ys)| > 0 && PiecesFrom(d, ys)[|PiecesFrom(d, ys)| - 1].kind == FinalSegment
    decreases |ys|
  {
    if |ys| > 1 {
      LastPieceFinal(ys[1], ys[2..]);
      var r := PiecesFrom(d, ys);
      var r' := PiecesFrom(ys[1], ys[2..]);
      assert r == [r[0]] + r';
      assert r[|r| - 1] == r'[|r'| - 1];
    }
  }

  lemma {:induction false} PiecesClosed(d: string, ys: seq<string>)
    ensures var r := PiecesFrom(d, ys);
      var o := OpenersFrom(d, ys);
      |r| == |o| && forall k :: 0 <= k < |r| - 1 ==> r[k].kind == ReplySegment && r[k].replyIndicator == Some(o[k + 1])
    decreases |ys|
  {
    PiecesLength(d, ys);
    if |ys| > 1 {
      PiecesClosed(ys[1], ys[2..]);
      var r := PiecesFrom(d, ys);
      var o := OpenersFrom(d, ys);
      var r' := PiecesFrom(ys[1], ys[2..]);
      var o' := OpenersFrom(ys[1], ys[2..]);
      assert r == [r[0]] + r' && o == [d] + o';
      forall k | 0 <= k < |r| - 1
        ensures r[k].kind == ReplySegment && r[k].replyIndicator == Some(o[k + 1])
      {
        if k > 0 {
          assert r[k] == r'[k - 1] && o[k + 1] == o'[k];
        }
      }
    }
  }

  // ---------------------------------------------------------------------
  // Pattern 1: timestamps (the comprehension in `_extract_conversation_segments`)

  function TimestampSegmentOf(text: string, stamp: string): Segment {
    Segment(Strip(text) + "\n" + Strip(stamp), TimestampSegment, Some(Strip(text)), None)
  }

  /** The comprehension over `range(i, len(splits) - 1, 2)`: the piece at an
      even position is paired with the captured timestamp after it. */
  function TimestampPairs(xs: seq<string>, i: nat): (segs: seq<Segment>)
    ensures forall k :: 0 <= k < |segs| ==> segs[k].kind == TimestampSegment
    decreases |xs| - i
  {
    if i + 1 >= |xs| then []
    else
      (if !IsBlank(xs[i + 1]) then [TimestampSegmentOf(xs[i], xs[i + 1])] else [])
      + TimestampPairs(xs, i + 2)
  }

  /** A timestamp split: odd length, every captured timestamp non-blank. */
  predicate IsTimestampSplit(xs: seq<string>) {
    |xs| % 2 == 1 && forall j :: 0 <= j < |xs| && j % 2 == 1 ==> !IsBlank(xs[j])
  }

  lemma StampAt(xs: seq<string>, i: nat)
    requires IsTimestampSplit(xs) && i % 2 == 0 && i + 1 < |xs|
    ensures !IsBlank(xs[i + 1])
  {
    assert (i + 1) % 2 == 1;
  }

  /** For `[t0, ts1, t1, ..., tsn, tn]` there are exactly n segments and
      segment k pairs text `t(k-1)` with timestamp `tsk`. */
  lemma TimestampPairsClosedForm(xs: seq<string>, i: nat)
    requires IsTimestampSplit(xs) && i % 2 == 0 && i < |xs|
    ensures var segs := TimestampPairs(xs, i);
      && |segs| == (|xs| - 1 - i) / 2
      && forall k :: 0 <= k < |segs| ==> segs[k] == TimestampSegmentOf(xs[i + 2 * k], xs[i + 2 * k + 1])
  {
    TimestampPairsAreStamps(xs, i);
    StampSegmentsArePairs(xs, i);
    PairMapIndex(xs, i, TimestampSegmentOf);
    assert (|xs| - i) % 2 == 1;
  }

  /** Every pair from position `i` on, blank timestamp or not. */
  function StampSegments(xs: seq<string>, i: nat): seq<Segment>
    decreases |xs| - i
  {
    if i + 1 >= |xs| then [] else [TimestampSegmentOf(xs[i], xs[i + 1])] + StampSegments(xs, i + 2)
  }

  /** In a timestamp split no pair is filtered out. */
  lemma {:induction false} TimestampPairsAreStamps(xs: seq<string>, i: nat)
    requires IsTimestampSplit(xs) && i % 2 == 0
    ensures TimestampPairs(xs, i) == StampSegments(xs, i)
    decreases |xs| - i
  {
    if i + 1 < |xs| {
      StampAt(xs, i);
      assert (i + 2) % 2 == 0;
      TimestampPairsAreStamps(xs, i + 2);
    }
  }

  /** The pairs from position `i` on, each combined by `f`. */
  function PairMap<T>(xs: seq<string>, i: nat, f: (string, string) -> T): seq<T>
    decreases |xs| - i
  {
    if i + 1 >= |xs| then [] else [f(xs[i], xs[i + 1])] + PairMap(xs, i + 2, f)
  }

  lemma {:induction false} StampSegmentsArePairs(xs: seq<string>, i: nat)
    ensures StampSegments(xs, i) == PairMap(xs, i, TimestampSegmentOf)
    decreases |xs| - i
  {
    if i + 1 < |xs| {
      StampSegmentsArePairs(xs, i + 2);
    }
  }

  lemma {:induction false} PairMapIndex<T>(xs: seq<string>, i: nat, f: (string, string) -> T)
    requires i <= |xs|
    ensures var r := PairMap(xs, i, f);
      && |r| == (|xs| - i) / 2
      && forall k :: 0 <= k < |r| ==> r[k] == f(xs[i + 2 * k], xs[i + 2 * k + 1])
    decreases |xs| - i
  {
    if i + 1 < |xs| {
      var rest := PairMap(xs, i + 2, f);
      var r := PairMap(xs, i, f);
      PairMapIndex(xs, i + 2, f);
      forall k | 1 <= k < |r|
        ensures r[k] == f(xs[i + 2 * k], xs[i + 2 * k + 1])
      {
        assert r[k] == rest[k - 1];
        assert (i + 2) + 2 * (k - 1) == i + 2 * k;
      }
    }
  }

  /** The text after the last timestamp is in no segment: replacing it
      leaves the segments unchanged. */
  lemma {:induction false} TimestampTrailingTextIgnored(xs: seq<string>, a: string, b: string, i: nat)
    requires |xs| % 2 == 0 && i % 2 == 0 && i <= |xs|
    ensures TimestampPairs(xs + [a], i) == TimestampPairs(xs + [b], i)
    decreases |xs| - i
  {
    if i + 1 < |xs| + 1 {
      assert (xs + [a])[i] == (xs + [b])[i] == xs[i];
      assert (xs + [a])[i + 1] == (xs + [b])[i + 1] == xs[i + 1];
      TimestampTrailingTextIgnored(xs, a, b, i + 2);
    }
  }

  // ---------------------------------------------------------------------
  // Strategy choice (`_extract_conversation_segments`)

  /** Timestamp split first, then the reply split, then blank-line runs; a
      strategy that yields nothing falls back to one segment holding the
      whole content. */
  function ExtractSegments(content: string, tsSplit: seq<string>, replySplit: seq<string>): (segs: seq<Segment>)
    ensures segs != []
    ensures |tsSplit| > 1 ==> forall k :: 0 <= k < |segs| ==> segs[k].kind in {TimestampSegment, SingleSegment}
    ensures |tsSplit| <= 1 && |replySplit| > 1 ==>
              forall k :: 0 <= k < |segs| ==> segs[k].kind in {ReplySegment, FinalSegment, SingleSegment}
    ensures |tsSplit| <= 1 && |replySplit| <= 1 ==>
              forall k :: 0 <= k < |segs| ==> segs[k].kind in {LineSegment, SingleSegment}
    ensures (exists k :: 0 <= k < |segs| && segs[k].kind == SingleSegment) ==>
              segs == [Segment(content, SingleSegment, None, None)]
    ensures Strategy(content, tsSplit, replySplit) == [] ==> segs == [Segment(content, SingleSegment, None, None)]
    ensures Strategy(content, tsSplit, replySplit) != [] ==> segs == Strategy(content, tsSplit, replySplit)
  {
    var found := Strategy(content, tsSplit, replySplit);
    if found == [] then [Segment(content, SingleSegment, None, None)] else found
  }

  /** The segments of the first strategy whose split applies. */
  function Strategy(content: string, tsSplit: seq<string>, replySplit: seq<string>): seq<Segment> {
    if |tsSplit| > 1 then TimestampPairs(tsSplit, 0)
    else if |replySplit| > 1 then ProcessReplySplits(replySplit)
    else ProcessLineSegments(content)
  }

  // ---------------------------------------------------------------------
  // The meaningful-content filter (`_is_meaningful_content`)

  /** The two emoji blocks of the emoji-only pattern. */
  predicate IsEmoji(c: char) {
    ('\U{1F600}' <= c <= '\U{1F64F}') || ('\U{1F300}' <= c <= '\U{1F5FF}')
  }

  /** `^\s*[emoji]+$` on stripped text. */
  predicate EmojiOnly(t: string) {
    |t| > 0 && forall i :: 0 <= i < |t| ==> IsEmoji(t[i])
  }

  /** `^\s*(w1|w2|...)\s*$` with IGNORECASE on stripped text. */
  predicate OneOfWords(t: string, words: seq<string>) {
    Lower(t) in words
  }

  const Acknowledgements: seq<string> := ["ok", "yes", "no", "maybe", "sure", "fine", "good", "bad"]
  const Laughter: seq<string> := ["haha", "lol", "lmao", "rofl"]

  /** One of the four compiled meaningless patterns matches. */
  predicate MatchesMeaninglessPattern(t: string) {
    || OneOfWords(t, Acknowledgements)
    || OneOfWords(t, Laughter)
    || EmojiOnly(t)
    || OneOfWords(t, ["filter_out"])
  }

  /** `_is_meaningful_content(content)` */
  predicate IsMeaningfulContent(content: string) {
    if content == "" || Strip(content) == "FILTER_OUT" then false
    else if |Strip(content)| < 20 then false
    else !MatchesMeaninglessPattern(Strip(content))
  }

  /** Text is kept exactly when it strips to at least 20 characters that
      are not all emoji: the word patterns and the "FILTER_OUT" test can
      never fire at that length. */
  lemma MeaningfulCharacterisation(content: string)
    ensures IsMeaningfulContent(content) <==> |Strip(content)| >= 20 && !EmojiOnly(Strip(content))
  {
    var t := Strip(content);
    if |t| >= 20 {
      assert |Lower(t)| >= 20;
      assert Lower(t) !in Acknowledgements;
      assert Lower(t) !in Laughter;
      assert Lower(t) !in ["filter_out"];
      assert t != "FILTER_OUT";
      assert content != "";
    }
  }

  // ---------------------------------------------------------------------
  // Recombination (`_combine_segments`)

  /** Length of the leading run of newlines. */
  function NewlineRun(s: string): (n: nat)
    ensures n <= |s|
    ensures forall i :: 0 <= i < n ==> s[i] == '\n'
    ensures n < |s| ==> s[n] != '\n'
  {
    if |s| == 0 || s[0] != '\n' then 0 else 1 + NewlineRun(s[1..])
  }

  /** `re.sub(r'\n{3,}', '\n\n', s)`: every run of three or more newlines
      becomes exactly two. */
  function CollapseNewlines(s: string): (r: string)
    ensures |r| <= |s|
    ensures r != [] && r[0] != '\n' ==> s != [] && r[0] == s[0]
    ensures s != [] && s[0] != '\n' ==> r != [] && r[0] == s[0]
    decreases |s|
  {
    if |s| == 0 then ""
    else if s[0] != '\n' then [s[0]] + CollapseNewlines(s[1..])
    else
      var k := NewlineRun(s);
      (if k >= 3 then "\n\n" else s[..k]) + CollapseNewlines(s[k..])
  }

  /** No three consecutive newlines. */
  predicate NoTripleNewline(s: string) {
    forall i :: 0 <= i < |s| - 2 ==> !TripleAt(s, i)
  }

  /** Three newlines start at `i`. */
  predicate TripleAt(s: string, i: nat)
    requires i + 2 < |s|
  {
    s[i] == '\n' && s[i + 1] == '\n' && s[i + 2] == '\n'
  }

  lemma {:induction false} CollapseLeavesNoTriple(s: string)
    ensures NoTripleNewline(CollapseNewlines(s))
    decreases |s|
  {
    if |s| > 0 {
      if s[0] != '\n' {
        CollapseLeavesNoTriple(s[1..]);
        NoTripleGlue([s[0]], CollapseNewlines(s[1..]));
      } else {
        var k := NewlineRun(s);
        var p: string := if k >= 3 then "\n\n" else s[..k];
        var rest := CollapseNewlines(s[k..]);
        CollapseLeavesNoTriple(s[k..]);
        assert |p| <= 2;
        assert rest != [] ==> rest[0] != '\n';
        NoTripleGlue(p, rest);
      }
    }
  }

  /** Collapsing changes nothing in text that has no triple newline, so it
      is idempotent. */
  lemma {:induction false} CollapseFixpoint(s: string)
    requires NoTripleNewline(s)
    ensures CollapseNewlines(s) == s
    decreases |s|
  {
    if |s| > 0 {
      ShortNewlineRun(s);
      var k := CollapseStep(s);
      NoTripleSuffix(s, k);
      CollapseFixpoint(s[k..]);
      Rejoin(s, k);
    }
  }

  /** The first step of collapsing, when it keeps its piece unchanged: one
      ordinary character, or a run of at most two newlines. */
  lemma CollapseStep(s: string) returns (k: nat)
    requires |s| > 0 && (s[0] == '\n' ==> NewlineRun(s) < 3)
    ensures 0 < k <= |s|
    ensures CollapseNewlines(s) == s[..k] + CollapseNewlines(s[k..])
  {
    if s[0] != '\n' {
      k := 1;
      assert s[..1] == [s[0]];
    } else {
      k := NewlineRun(s);
    }
  }

  /** Without a triple newline, no newline run is longer than two. */
  lemma ShortNewlineRun(s: string)
    requires NoTripleNewline(s)
    ensures NewlineRun(s) < 3
  {
    assert |s| >= 3 ==> !TripleAt(s, 0);
  }

  lemma NoTripleSuffix(s: string, k: nat)
    requires NoTripleNewline(s) && k <= |s|
    ensures NoTripleNewline(s[k..])
  {
    NoTripleSlice(s, k, |s|);
    assert s[k..|s|] == s[k..];
  }

  lemma Rejoin(s: string, k: nat)
    requires k <= |s|
    ensures s[..k] + s[k..] == s
  {
  }

  lemma NoTripleSlice(s: string, a: nat, b: nat)
    requires NoTripleNewline(s) && a <= b <= |s|
    ensures NoTripleNewline(s[a..b])
  {
    var t := s[a..b];
    forall i | 0 <= i < |t| - 2
      ensures !TripleAt(t, i)
    {
      assert t[i] == s[a + i] && t[i + 1] == s[a + i + 1] && t[i + 2] == s[a + i + 2];
      assert !TripleAt(s, a + i);
    }
  }

  lemma NoTripleStrip(s: string)
    requires NoTripleNewline(s)
    ensures NoTripleNewline(Strip(s))
  {
    var t := s[LeadingSpace(s)..];
    NoTripleSlice(s, LeadingSpace(s), |s|);
    assert s[LeadingSpace(s)..|s|] == t;
    NoTripleSlice(t, 0, |t| - TrailingSpace(t));
    assert t[0..|t| - TrailingSpace(t)] == Strip(s);
  }

  /** Collapsing shortens newline runs but never empties one, so the text
      keeps exactly the characters it had. */
  lemma {:induction false} CollapseSameChars(s: string)
    ensures forall c :: c in CollapseNewlines(s) <==> c in s
    decreases |s|
  {
    if |s| > 0 {
      if s[0] != '\n' {
        CollapseSameChars(s[1..]);
        assert s == [s[0]] + s[1..];
      } else {
        var k := NewlineRun(s);
        var p: string := if k >= 3 then "\n\n" else s[..k];
        CollapseSameChars(s[k..]);
        assert s == s[..k] + s[k..];
        assert forall c :: c in p <==> c == '\n' by {
          assert p[0] == '\n';
        }
        assert forall c :: c in s[..k] <==> c == '\n' by {
          assert s[..k][0] == '\n';
        }
      }
    }
  }

  /** Blankness is a matter of which characters occur. */
  lemma BlankByChars(a: string, b: string)
    requires forall c :: c in a <==> c in b
    ensures IsBlank(a) <==> IsBlank(b)
  {
    if !IsBlank(a) {
      var i :| 0 <= i < |a| && !IsSpace(a[i]);
      assert a[i] in b;
    }
    if !IsBlank(b) {
      var i :| 0 <= i < |b| && !IsSpace(b[i]);
      assert b[i] in a;
    }
  }

  /** Stripped text is blank only when it is empty. */
  lemma StripBlank(s: string)
    ensures IsBlank(Strip(s)) <==> IsBlank(s)
  {
    var t := Strip(s);
    if t != [] {
      assert !IsSpace(t[0]);
    }
  }

  /** A segment followed by the separator and another segment is never
      blank: the separator holds `-`. */
  lemma SeparatorNotBlank(a: string, b: string)
    ensures !IsBlank(a + SegmentSeparator + b)
  {
    assert (a + SegmentSeparator + b)[|a| + 2] == '-';
  }

  const SegmentSeparator := "\n\n---\n\n"

  /** `_combine_segments(segments)` */
  function CombineSegments(segs: seq<string>): (r: string)
    ensures segs == [] ==> r == ""
    ensures IsStripped(r)
    ensures NoTripleNewline(r)
  {
    if segs == [] then ""
    else
      var collapsed := CollapseNewlines(Join(SegmentSeparator, segs));
      CollapseLeavesNoTriple(Join(SegmentSeparator, segs));
      NoTripleStrip(collapsed);
      Strip(collapsed)
  }

  /** The combined text is blank only when there is nothing to combine or a
      single blank segment. */
  lemma CombineBlank(segs: seq<string>)
    ensures IsBlank(CombineSegments(segs)) <==> segs == [] || (|segs| == 1 && IsBlank(segs[0]))
  {
    if segs != [] {
      var j := Join(SegmentSeparator, segs);
      CollapseSameChars(j);
      BlankByChars(CollapseNewlines(j), j);
      StripBlank(CollapseNewlines(j));
      if |segs| > 1 {
        SeparatorNotBlank(segs[0], Join(SegmentSeparator, segs[1..]));
      }
    }
  }

  /** Gluing two texts without a triple newline creates none unless a
      newline meets a newline at the seam. */
  lemma NoTripleGlue(a: string, b: string)
    requires NoTripleNewline(a) && NoTripleNewline(b)
    requires a == [] || b == [] || a[|a| - 1] != '\n' || b[0] != '\n'
    ensures NoTripleNewline(a + b)
  {
    var s := a + b;
    forall i | 0 <= i < |s| - 2
      ensures !TripleAt(s, i)
    {
      if i + 2 < |a| {
        assert s[i] == a[i] && s[i + 1] == a[i + 1] && s[i + 2] == a[i + 2];
        assert !TripleAt(a, i);
      } else if i >= |a| {
        assert s[i] == b[i - |a|] && s[i + 1] == b[i + 1 - |a|] && s[i + 2] == b[i + 2 - |a|];
        assert !TripleAt(b, i - |a|);
      } else {
        assert s[|a| - 1] == a[|a| - 1] && s[|a|] == b[0];
      }
    }
  }

  /** Non-blank, stripped segments without triple newlines. */
  predicate CleanSegment(t: string) {
    t != [] && IsStripped(t) && NoTripleNewline(t)
  }

  /** Clean segments join to clean text that starts and ends as they do. */
  lemma {:induction false} JoinClean(segs: seq<string>)
    requires segs != []
    requires forall k :: 0 <= k < |segs| ==> CleanSegment(segs[k])
    ensures var j := Join(SegmentSeparator, segs);
      && j != [] && NoTripleNewline(j)
      && CleanSegment(segs[0]) && CleanSegment(segs[|segs| - 1])
      && j[0] == segs[0][0] && j[|j| - 1] == segs[|segs| - 1][|segs[|segs| - 1]| - 1]
    decreases |segs|
  {
    if |segs| > 1 {
      var rest := Join(SegmentSeparator, segs[1..]);
      JoinClean(segs[1..]);
      var head := segs[0] + SegmentSeparator;
      assert NoTripleNewline(SegmentSeparator) by {
        assert SegmentSeparator[2] == '-';
      }
      NoTripleGlue(segs[0], SegmentSeparator);
      NoTripleGlue(head, rest);
      assert Join(SegmentSeparator, segs) == head + rest;
    }
  }

  /** Clean segments combine to their plain join: collapsing and stripping
      have nothing left to do. */
  lemma CombineClean(segs: seq<string>)
    requires segs != []
    requires forall k :: 0 <= k < |segs| ==> CleanSegment(segs[k])
    ensures CombineSegments(segs) == Join(SegmentSeparator, segs)
  {
    JoinClean(segs);
    CleanTextUnchanged(Join(SegmentSeparator, segs));
    CombineUnfold(segs);
  }

  lemma CleanTextUnchanged(j: string)
    requires IsStripped(j) && NoTripleNewline(j)
    ensures Strip(CollapseNewlines(j)) == j
  {
    CollapseFixpoint(j);
    StripFixpoint(j);
  }

  lemma CombineUnfold(segs: seq<string>)
    requires segs != []
    ensures CombineSegments(segs) == Strip(CollapseNewlines(Join(SegmentSeparator, segs)))
  {
  }

  /** A single clean segment comes back unchanged. */
  lemma CombineSingle(s: string)
    requires IsStripped(s) && NoTripleNewline(s)
    ensures CombineSegments([s]) == s
  {
    CollapseFixpoint(s);
    StripFixpoint(s);
  }

  // ---------------------------------------------------------------------
  // Per-document pipeline

  /** The prompt templates, by the segment text they embed. */
  datatype Prompt = TimestampPrompt(content: string) | ReplyPrompt(content: string) | GeneralPrompt(content: string)

  function PromptFor(seg: Segment): Prompt {
    match seg.kind
    case TimestampSegment => TimestampPrompt(seg.content)
    case ReplySegment => ReplyPrompt(seg.content)
    case _ => GeneralPrompt(seg.content)
  }

  /** `_process_conversation_segment(segment)`: blank segments are skipped,
      otherwise the model's rewrite is kept when it is meaningful. */
  function ProcessConversationSegment(seg: Segment, llm: Prompt -> string): (r: Option<string>)
    ensures r.Some? ==> IsMeaningfulContent(r.value) && r.value == llm(PromptFor(seg))
    ensures r.Some? ==> !IsBlank(r.value)
    ensures r.None? <==> IsBlank(seg.content) || !IsMeaningfulContent(llm(PromptFor(seg)))
  {
    if IsBlank(seg.content) then None
    else
      var out := llm(PromptFor(seg));
      if IsMeaningfulContent(out) then
        assert Strip(out) != [];
        Some(out)
      else None
  }

  /** `_process_segments_parallel(segments)` as an order-preserving map
      followed by dropping the empty results. */
  function ProcessSegments(segs: seq<Segment>, llm: Prompt -> string): (r: seq<string>)
    ensures |r| <= |segs|
    ensures forall k :: 0 <= k < |r| ==> IsMeaningfulContent(r[k])
    decreases |segs|
  {
    if |segs| == 0 then []
    else
      var head := ProcessConversationSegment(segs[0], llm);
      (if head.Some? && head.value != "" then [head.value] else []) + ProcessSegments(segs[1..], llm)
  }

  /** Processing the segments is collecting each segment's result, so
      the results come in segment order and a segment contributes its own
      rewrite or nothing. */
  lemma {:induction false} ProcessSegmentsCollects(segs: seq<Segment>, llm: Prompt -> string)
    ensures ProcessSegments(segs, llm) == Collect(segs, seg => ProcessConversationSegment(seg, llm))
    decreases |segs|
  {
    if |segs| > 0 {
      ProcessSegmentsCollects(segs[1..], llm);
    }
  }

  /** Processing a concatenation processes the two parts in order. */
  lemma ProcessSegmentsConcat(a: seq<Segment>, b: seq<Segment>, llm: Prompt -> string)
    ensures ProcessSegments(a + b, llm) == ProcessSegments(a, llm) + ProcessSegments(b, llm)
  {
    var f := seg => ProcessConversationSegment(seg, llm);
    ProcessSegmentsCollects(a + b, llm);
    ProcessSegmentsCollects(a, llm);
    ProcessSegmentsCollects(b, llm);
    CollectConcat(a, b, f);
  }

  /** One segment yields its meaningful rewrite, or nothing. */
  lemma ProcessSegmentsSingle(seg: Segment, llm: Prompt -> string)
    ensures var r := ProcessSegments([seg], llm);
      && (r == [] <==> IsBlank(seg.content) || !IsMeaningfulContent(llm(PromptFor(seg))))
      && (r != [] ==> r == [llm(PromptFor(seg))])
  {
    assert [seg][1..] == [];
  }

  /** `_preprocess_single_document(content)` */
  function PreprocessSingleDocument(content: string, llm: Prompt -> string,
                                    tsSplit: string -> seq<string>, replySplit: string -> seq<string>): (r: string)
    ensures var processed := ProcessSegments(ExtractSegments(content, tsSplit(content), replySplit(content)), llm);
      && (processed == [] ==> r == content)
      && (processed != [] ==> IsStripped(r) && NoTripleNewline(r))
      && (processed != [] ==> r == CombineSegments(processed))
    ensures !IsBlank(content) ==> !IsBlank(r)
  {
    var segments := ExtractSegments(content, tsSplit(content), replySplit(content));
    var processed := ProcessSegments(segments, llm);
    if processed == [] then content
    else
      assert IsMeaningfulContent(processed[0]);
      assert Strip(processed[0]) != [];
      CombineBlank(processed);
      CombineSegments(processed)
  }

  // ---------------------------------------------------------------------
  // preprocess_documents

  datatype ProcessedDoc = ProcessedDoc(content: string, originalLength: nat, processedLength: nat)

  /** `doc.get('content', '')` */
  function ContentOf(doc: map<string, string>): string {
    if "content" in doc then doc["content"] else ""
  }

  /** `process_one(doc)` */
  function ProcessOne(doc: map<string, string>, llm: Prompt -> string,
                      tsSplit: string -> seq<string>, replySplit: string -> seq<string>): (r: Option<ProcessedDoc>)
    ensures r.None? <==> IsBlank(ContentOf(doc))
    ensures r.Some? ==>
      && !IsBlank(r.value.content)
      && r.value.content == PreprocessSingleDocument(ContentOf(doc), llm, tsSplit, replySplit)
      && r.value.originalLength == |ContentOf(doc)|
      && r.value.processedLength == |r.value.content|
  {
    var original := ContentOf(doc);
    if IsBlank(original) then None
    else
      var p := PreprocessSingleDocument(original, llm, tsSplit, replySplit);
      if p != "" && !IsBlank(p) then Some(ProcessedDoc(p, |original|, |p|)) else None
  }

  /** A processed document is not blank and records its own length. */
  predicate GoodDoc(d: ProcessedDoc) {
    !IsBlank(d.content) && d.processedLength == |d.content|
  }

  /** `preprocess_documents(documents)` with the thread pool as a sequential,
      order-preserving map. */
  function PreprocessDocuments(docs: seq<map<string, string>>, llm: Prompt -> string,
                               tsSplit: string -> seq<string>, replySplit: string -> seq<string>): (r: seq<ProcessedDoc>)
    ensures |r| <= |docs|
    ensures forall k :: 0 <= k < |r| ==> !IsBlank(r[k].content) && r[k].processedLength == |r[k].content|
  {
    var f := d => ProcessOne(d, llm, tsSplit, replySplit);
    CollectAll(docs, f, GoodDoc);
    Collect(docs, f)
  }

  /** Order is preserved: processing a concatenation is the concatenation of
      the results, and a document contributes at most itself. */
  lemma PreprocessDocumentsConcat(a: seq<map<string, string>>, b: seq<map<string, string>>,
                                  llm: Prompt -> string, tsSplit: string -> seq<string>,
                                  replySplit: string -> seq<string>)
    ensures PreprocessDocuments(a + b, llm, tsSplit, replySplit) ==
              PreprocessDocuments(a, llm, tsSplit, replySplit) + PreprocessDocuments(b, llm, tsSplit, replySplit)
  {
    CollectConcat(a, b, d => ProcessOne(d, llm, tsSplit, replySplit));
  }

  /** A document whose content is blank (or missing) is dropped; any other
      document yields at most one processed document with its lengths. */
  lemma PreprocessSingleton(doc: map<string, string>, llm: Prompt -> string,
                            tsSplit: string -> seq<string>, replySplit: string -> seq<string>)
    ensures var r := PreprocessDocuments([doc], llm, tsSplit, replySplit);
      && |r| <= 1
      && (|r| == 1 <==> !IsBlank(ContentOf(doc)))
      && (IsBlank(ContentOf(doc)) ==> r == [])
      && (|r| == 1 ==> r[0].originalLength == |ContentOf(doc)| && !IsBlank(r[0].content))
  {
    assert [doc][1..] == [];
  }

  /** The documents `preprocess_documents` keeps: those with non-blank content. */
  function NonBlankDocs(docs: seq<map<string, string>>): seq<map<string, string>> {
    Filter(docs, d => !IsBlank(ContentOf(d)))
  }

  /** What processing one kept document produces. */
  predicate ProcessedFrom(d: ProcessedDoc, doc: map<string, string>, llm: Prompt -> string,
                          tsSplit: string -> seq<string>, replySplit: string -> seq<string>) {
    var p := PreprocessSingleDocument(ContentOf(doc), llm, tsSplit, replySplit);
    d == ProcessedDoc(p, |ContentOf(doc)|, |p|)
  }

  /** Exactly the non-blank documents come out, in order, each as its own
      processed text with both lengths. */
  lemma PreprocessDocumentsKeepsNonBlank(docs: seq<map<string, string>>, llm: Prompt -> string,
                                         tsSplit: string -> seq<string>, replySplit: string -> seq<string>)
    ensures var r := PreprocessDocuments(docs, llm, tsSplit, replySplit);
      && |r| == |NonBlankDocs(docs)|
      && forall k :: 0 <= k < |r| ==> ProcessedFrom(r[k], NonBlankDocs(docs)[k], llm, tsSplit, replySplit)
  {
    var f := d => ProcessOne(d, llm, tsSplit, replySplit);
    CollectFilter(docs, f, d => !IsBlank(ContentOf(d)));
  }
}
