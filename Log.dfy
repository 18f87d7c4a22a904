/**
 * Log: one immutable record of a tag-driven rename, and the line the
 * history file receives for it.
 */
module Logs {
  import opened Tags

  /** The four final fields; each getter of the source returns one of them as given. */
  datatype Log = Log(oldName: string, newName: string, oldTags: seq<Tag>, newTags: seq<Tag>) {
    /** A log is listed under the name the file had before the rename. */
    function ToString(): string {
      oldName
    }
  }

  /** generateLogString, with the date rendered by the caller. */
  function LogLine(log: Log, timestamp: string): string {
    "(" + log.oldName + "|" + log.newName + "," + timestamp + ")"
  }

  /** What writeToLogFile appends: the line and two line separators, that is one blank line. */
  function LogRecord(log: Log, timestamp: string, lineSeparator: string): string {
    LogLine(log, timestamp) + lineSeparator + lineSeparator
  }

  /**
   * The history file after writeToLogFile has appended the records of logs,
   * in order, each with its timestamp, to a file that started empty.
   */
  function History(logs: seq<Log>, stamps: seq<string>, lineSeparator: string): string
    requires |logs| == |stamps|
  {
    if logs == [] then ""
    else LogRecord(logs[0], stamps[0], lineSeparator) + History(logs[1..], stamps[1..], lineSeparator)
  }

  /** Within a mark-free text followed by more text, a mark at or before the text's end is right after it. */
  lemma FirstMarkAfter(x: string, xr: string, k: nat, mark: char)
    requires mark !in x && k <= |x| && k < |x + xr|
    ensures (x + xr)[k] == mark ==> k == |x|
  {
    if k < |x| {
      assert (x + xr)[k] == x[k];
    }
  }

  /** Two strings that agree and each start with a mark-free text followed by the mark have the same text. */
  lemma {:induction false} TextBeforeMark(x: string, xr: string, y: string, yr: string, mark: char)
    requires mark !in x && mark !in y
    requires xr != [] && xr[0] == mark && yr != [] && yr[0] == mark
    requires x + xr == y + yr
    ensures x == y && xr == yr
  {
    if |y| <= |x| {
      assert (y + yr)[|y|] == mark;
      FirstMarkAfter(x, xr, |y|, mark);
    }
    if |x| <= |y| {
      assert (x + xr)[|x|] == mark;
      FirstMarkAfter(y, yr, |x|, mark);
    }
    assert x == (x + xr)[..|x|];
    assert y == (y + yr)[..|y|];
    assert xr == (x + xr)[|x|..];
    assert yr == (y + yr)[|y|..];
  }

  /**
   * The history file can be read back: when no audit line holds the first
   * character of the line separator, two histories are equal only if they
   * hold the same number of records with equal audit lines, in order.
   */
  lemma {:induction false} HistoryDetermined(logs1: seq<Log>, stamps1: seq<string>, logs2: seq<Log>, stamps2: seq<string>, lineSeparator: string)
    requires |logs1| == |stamps1| && |logs2| == |stamps2| && lineSeparator != []
    requires forall k :: 0 <= k < |logs1| ==> lineSeparator[0] !in LogLine(logs1[k], stamps1[k])
    requires forall k :: 0 <= k < |logs2| ==> lineSeparator[0] !in LogLine(logs2[k], stamps2[k])
    requires History(logs1, stamps1, lineSeparator) == History(logs2, stamps2, lineSeparator)
    ensures |logs1| == |logs2|
    ensures forall k :: 0 <= k < |logs1| ==> LogLine(logs1[k], stamps1[k]) == LogLine(logs2[k], stamps2[k])
    decreases |logs1|
  {
    if logs1 != [] && logs2 != [] {
      var rest1 := HistoryCons(logs1, stamps1, lineSeparator);
      var rest2 := HistoryCons(logs2, stamps2, lineSeparator);
      TextBeforeMark(LogLine(logs1[0], stamps1[0]), lineSeparator + rest1,
                     LogLine(logs2[0], stamps2[0]), lineSeparator + rest2, lineSeparator[0]);
      CommonPrefix(lineSeparator, rest1, rest2);
      CommonPrefix(lineSeparator, History(logs1[1..], stamps1[1..], lineSeparator), History(logs2[1..], stamps2[1..], lineSeparator));
      TailLines(logs1, stamps1, lineSeparator[0]);
      TailLines(logs2, stamps2, lineSeparator[0]);
      HistoryDetermined(logs1[1..], stamps1[1..], logs2[1..], stamps2[1..], lineSeparator);
      ShiftLines(logs1, stamps1, logs2, stamps2);
    } else if logs1 != [] {
      var _ := HistoryCons(logs1, stamps1, lineSeparator);
    } else if logs2 != [] {
      var _ := HistoryCons(logs2, stamps2, lineSeparator);
    }
  }

  /** A non-empty history is the first audit line, a separator, and rest: the second separator and the later records. */
  lemma HistoryCons(logs: seq<Log>, stamps: seq<string>, lineSeparator: string) returns (rest: string)
    requires |logs| == |stamps| && logs != []
    ensures rest == lineSeparator + History(logs[1..], stamps[1..], lineSeparator)
    ensures History(logs, stamps, lineSeparator) == LogLine(logs[0], stamps[0]) + (lineSeparator + rest)
    ensures History(logs, stamps, lineSeparator)[0] == '('
  {
    rest := lineSeparator + History(logs[1..], stamps[1..], lineSeparator);
    var x := LogLine(logs[0], stamps[0]);
    assert x[0] == '(';
    assert (x + (lineSeparator + rest))[0] == x[0];
  }

  lemma CommonPrefix(p: string, r1: string, r2: string)
    requires p + r1 == p + r2
    ensures r1 == r2
  {
    assert r1 == (p + r1)[|p|..];
    assert r2 == (p + r2)[|p|..];
  }

  lemma TailLines(logs: seq<Log>, stamps: seq<string>, mark: char)
    requires |logs| == |stamps| && logs != []
    requires forall k :: 0 <= k < |logs| ==> mark !in LogLine(logs[k], stamps[k])
    ensures forall k :: 0 <= k < |logs| - 1 ==> mark !in LogLine(logs[1..][k], stamps[1..][k])
  {
    forall k | 0 <= k < |logs| - 1 ensures mark !in LogLine(logs[1..][k], stamps[1..][k]) {
      assert logs[1..][k] == logs[k + 1] && stamps[1..][k] == stamps[k + 1];
    }
  }

  lemma ShiftLines(logs1: seq<Log>, stamps1: seq<string>, logs2: seq<Log>, stamps2: seq<string>)
    requires |logs1| == |stamps1| == |logs2| == |stamps2| && logs1 != []
    requires LogLine(logs1[0], stamps1[0]) == LogLine(logs2[0], stamps2[0])
    requires forall k :: 0 <= k < |logs1| - 1 ==> LogLine(logs1[1..][k], stamps1[1..][k]) == LogLine(logs2[1..][k], stamps2[1..][k])
    ensures forall k :: 0 <= k < |logs1| ==> LogLine(logs1[k], stamps1[k]) == LogLine(logs2[k], stamps2[k])
  {
    forall k | 0 < k < |logs1| ensures LogLine(logs1[k], stamps1[k]) == LogLine(logs2[k], stamps2[k]) {
      assert logs1[1..][k - 1] == logs1[k] && stamps1[1..][k - 1] == stamps1[k];
      assert logs2[1..][k - 1] == logs2[k] && stamps2[1..][k - 1] == stamps2[k];
    }
  }

  /**
   * The audit line names the rename it records: when the old names hold no
   * '|', two lines with the same timestamp are equal only if both old and
   * new names are.
   */
  lemma LogLineIdentifiesRename(a: Log, b: Log, timestamp: string)
    requires '|' !in a.oldName && '|' !in b.oldName
    requires LogLine(a, timestamp) == LogLine(b, timestamp)
    ensures a.oldName == b.oldName && a.newName == b.newName
  {
    var tail := "," + timestamp + ")";
    LineAfterParen(a, timestamp);
    LineAfterParen(b, timestamp);
    TextBeforeMark(a.oldName, "|" + a.newName + tail, b.oldName, "|" + b.newName + tail, '|');
    NewNameBetween(a.newName, tail);
    NewNameBetween(b.newName, tail);
  }

  /** After the opening parenthesis: the old name, then '|', the new name and the timestamp part. */
  lemma LineAfterParen(log: Log, timestamp: string)
    ensures LogLine(log, timestamp)[1..] == log.oldName + ("|" + log.newName + ("," + timestamp + ")"))
  {
    var rest := log.oldName + ("|" + log.newName + ("," + timestamp + ")"));
    assert LogLine(log, timestamp) == "(" + rest;
  }

  /** The new name is what lies between the '|' and the timestamp part. */
  lemma NewNameBetween(n: string, tail: string)
    ensures ("|" + n + tail)[1..1 + |n|] == n
  {
  }
}
