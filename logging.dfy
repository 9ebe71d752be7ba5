/** What one call of the request logger leaves in its file: each datum on a
    line of its own, then a separator line, stopping at the first write that
    fails and leaving the separator out when the sync fails. */
module Logging {

  /** `strings.Repeat(c, n)`. */
  function Repeat(c: char, n: nat): (s: string)
    ensures |s| == n && forall i :: 0 <= i < n ==> s[i] == c
  {
    if n == 0 then "" else [c] + Repeat(c, n - 1)
  }

  /** The marker line that closes a record: fifteen `*`. */
  const Separator: string := Repeat('*', 15)

  /** The lines written for `data`, one per datum, in argument order. */
  function Lines(data: seq<string>): (ls: seq<string>)
    ensures |ls| == |data|
    ensures forall i :: 0 <= i < |data| ==> ls[i] == data[i] + "\n"
  {
    seq(|data|, i requires 0 <= i < |data| => data[i] + "\n")
  }

  /** The complete record of one call. */
  function Record(data: seq<string>): seq<string>
  {
    Lines(data) + [Separator + "\n"]
  }

  /** How the log file behaves during one call of the logger: how many writes
      it accepts before one fails, and whether its sync succeeds. The file is
      reopened on every call, so each call has an outcome of its own. A call
      whose open fails writes to a nil descriptor, where every write fails:
      it is a call with `accepts == 0`. */
  datatype LogCall = LogCall(accepts: nat, syncOk: bool)

  /** The lines a call actually appends when the file accepts `quota` more
      writes and its sync succeeds exactly when `syncOk` holds. */
  function Logged(data: seq<string>, quota: nat, syncOk: bool): (lines: seq<string>)
    ensures |lines| <= quota
    ensures lines <= Record(data)
    ensures lines == Record(data) <==> syncOk && |data| < quota
    ensures |lines| >= if |data| < quota then |data| else quota
  {
    if quota < |data| then Lines(data[..quota])
    else if syncOk && |data| < quota then Record(data)
    else Lines(data)
  }

  /** A call that completes leaves each datum followed by a newline, in
      order, then one line of exactly fifteen `*`. */
  lemma CompleteRecord(data: seq<string>, quota: nat, syncOk: bool)
    requires syncOk && |data| < quota
    ensures var lines := Logged(data, quota, syncOk);
      && |lines| == |data| + 1
      && (forall i :: 0 <= i < |data| ==> lines[i] == data[i] + "\n")
      && lines[|data|] == Separator + "\n"
      && |Separator| == 15 && forall k :: 0 <= k < 15 ==> Separator[k] == '*'
  {
  }

  /** When a datum write or the sync fails, no separator line is written:
      every appended line is a datum line. */
  lemma NoSeparatorOnFailure(data: seq<string>, quota: nat, syncOk: bool)
    requires !syncOk || quota <= |data|
    ensures var lines := Logged(data, quota, syncOk);
      |lines| <= |data| && forall i :: 0 <= i < |lines| ==> lines[i] == data[i] + "\n"
  {
  }
}
