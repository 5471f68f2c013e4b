/** The finalisation poll at the end of a game: the match file may not be
    complete yet, so the bot re-reads it once a second, up to ten times, until
    its result is known and it lists two impostors. */
module Poller {

  /** The two fields of a processed match the poll looks at. */
  datatype MatchResult = MatchResult(result: string, impostorsCount: int)

  const Retries: nat := 10

  /** A match record that is complete enough to report. */
  predicate Acceptable(m: MatchResult)
  {
    m.result != "Unknown" && m.impostorsCount == 2
  }

  /** The poll loop.  `fetch(k)` is what the k-th call of `process_match_by_id`
      (counting from 0) returns for this match id.  Returns the record used, how
      many calls and sleeps were made, and whether the "not loaded correctly"
      warning was logged. */
  method Poll(fetch: nat -> MatchResult) returns (last: MatchResult, calls: nat, sleeps: nat, warned: bool)
    ensures 1 <= calls <= Retries + 1 && sleeps == calls - 1
    ensures last == fetch(calls - 1)
    ensures forall k :: 0 <= k < calls - 1 ==> !Acceptable(fetch(k))
    ensures calls <= Retries ==> Acceptable(last)
    ensures warned <==> calls == Retries + 1
  {
    last := fetch(0);
    calls, sleeps, warned := 1, 0, false;
    for i := 0 to Retries
      invariant calls == i + 1 && sleeps == i && last == fetch(i)
      invariant forall k :: 0 <= k < i ==> !Acceptable(fetch(k))
      invariant warned <==> i == Retries
    {
      if !Acceptable(last) {
        sleeps := sleeps + 1;
        last := fetch(calls);
        calls := calls + 1;
        if i == Retries - 1 {
          warned := true;
        }
      } else {
        break;
      }
    }
  }

  /** The poll's outcome is determined by the fetches: it is the first acceptable
      record among the first ten, or else the eleventh. */
  lemma PollOutcomeDetermined(fetch: nat -> MatchResult, calls1: nat, calls2: nat)
    requires 1 <= calls1 <= Retries + 1 && 1 <= calls2 <= Retries + 1
    requires forall k :: 0 <= k < calls1 - 1 ==> !Acceptable(fetch(k))
    requires forall k :: 0 <= k < calls2 - 1 ==> !Acceptable(fetch(k))
    requires calls1 <= Retries ==> Acceptable(fetch(calls1 - 1))
    requires calls2 <= Retries ==> Acceptable(fetch(calls2 - 1))
    ensures calls1 == calls2
  {
  }
}
