/**
 * The loop the three workers share: try candidates in order, report throttled
 * progress, stop at the first match or when the stop flag is seen, and close
 * the run with a fixed tail of signals.
 */
module Search {
  import opened Wrappers
  import opened Arith

  /** A match: the plaintext that was compared and the digest that equalled the target. */
  datatype Hit = Hit(text: string, digest: string)

  /** The worker's signals: `update_progress(pct, text)`, `found_match(text, digest)`, `finished_task()`. */
  datatype Event = Progress(pct: nat, text: string) | Match(text: string, digest: string) | Finished

  /** How a run ended: a match, every candidate tried while still running, or stopped. */
  datatype Outcome = Matched(hit: Hit) | Exhausted | Cancelled

  /**
   * The running flag as the worker reads it once `tried` candidates are done.
   * `stop()` only ever clears the flag; `cancel == Some(k)` says it was cleared
   * after candidate `k` was tried and before the next read, `None` that it never was.
   */
  predicate Running(cancel: Option<nat>, tried: nat)
  {
    cancel.None? || tried < cancel.value
  }

  /** How many of `n` candidates the worker reaches before it sees the flag cleared. */
  function Limit(n: nat, cancel: Option<nat>): (k: nat)
    ensures k <= n
    ensures forall j :: 0 <= j < k ==> Running(cancel, j)
    ensures k < n ==> !Running(cancel, k)
  {
    if cancel.Some? && cancel.value < n then cancel.value else n
  }

  /** The progress percentage `min(100, tried * 100 / total)`, clamped to 100. */
  function Percent(tried: nat, total: nat): (p: nat)
    requires 0 < total
    ensures p <= 100
    ensures total <= tried ==> p == 100
  {
    if total <= tried then
      MulLe(total, tried, 100);
      DivMonotone(total * 100, tried * 100, total);
      assert total * 100 == 100 * total;
      MulDivCancel(100, total);
      100
    else
      var p := tried * 100 / total;
      if p < 100 then p else 100
  }

  /** The percentage never goes down as more candidates are tried. */
  lemma PercentMonotone(a: nat, b: nat, total: nat)
    requires a <= b && 0 < total
    ensures Percent(a, total) <= Percent(b, total)
  {
    MulLe(a, b, 100);
    DivMonotone(a * 100, b * 100, total);
  }

  /** A progress signal is due after `tried` candidates: every `every`-th one, and the last. */
  predicate Reports(tried: nat, total: nat, every: nat)
    requires 0 < every
  {
    tried % every == 0 || tried == total
  }

  /** The progress signal, if any, emitted right after the `tried`-th candidate is counted. */
  function Tick(tried: nat, total: nat, every: nat, text: string): seq<Event>
    requires 0 < tried <= total && 0 < every
  {
    if Reports(tried, total, every) then [Progress(Percent(tried, total), text)] else []
  }

  /** The progress signals emitted while the first `tried` candidates were counted. */
  function Ticks<T>(items: seq<T>, shown: T -> string, tried: nat, total: nat, every: nat): seq<Event>
    requires tried <= |items| && tried <= total && 0 < every
  {
    if tried == 0 then []
    else Ticks(items, shown, tried - 1, total, every) + Tick(tried, total, every, shown(items[tried - 1]))
  }

  /** The signals after the last counted candidate, for each way a run ends. */
  function Closing(outcome: Outcome): seq<Event>
  {
    match outcome
    case Matched(hit) => [Match(hit.text, hit.digest), Progress(100, hit.text), Finished]
    case Exhausted => [Progress(100, ""), Finished]
    case Cancelled => [Finished]
  }

  /** None of the first `n` candidates matches. */
  predicate NoHit<T>(items: seq<T>, probe: T -> Option<Hit>, n: nat)
    requires n <= |items|
  {
    forall k :: 0 <= k < n ==> probe(items[k]).None?
  }

  /**
   * The shape every signal trace has: `finished_task` once and last; at most one
   * `found_match`, right before a 100% progress signal for the same text and the
   * final signal; percentages within 0..100 and never decreasing.
   */
  predicate Protocol(events: seq<Event>)
  {
    && |events| > 0
    && events[|events| - 1] == Finished
    && (forall i :: 0 <= i < |events| - 1 ==> !events[i].Finished?)
    && (forall i :: 0 <= i < |events| && events[i].Match? ==>
          i == |events| - 3 && events[i + 1] == Progress(100, events[i].text))
    && (forall i :: 0 <= i < |events| && events[i].Progress? ==> events[i].pct <= 100)
    && (forall i, j :: 0 <= i < j < |events| && events[i].Progress? && events[j].Progress? ==>
          events[i].pct <= events[j].pct)
  }

  /** Every signal counted so far is a progress signal whose percentage is at most the current one. */
  lemma {:induction false} TicksBelow<T>(items: seq<T>, shown: T -> string, tried: nat, total: nat, every: nat)
    requires tried <= |items| && tried <= total && 0 < every
    ensures forall i :: 0 <= i < |Ticks(items, shown, tried, total, every)| ==>
      Ticks(items, shown, tried, total, every)[i].Progress? &&
      (0 < tried ==> Ticks(items, shown, tried, total, every)[i].pct <= Percent(tried, total))
  {
    if tried > 0 {
      TicksBelow(items, shown, tried - 1, total, every);
      if tried > 1 {
        PercentMonotone(tried - 1, tried, total);
      }
    }
  }

  /** Progress percentages never decrease while candidates are counted. */
  lemma {:induction false} TicksMonotone<T>(items: seq<T>, shown: T -> string, tried: nat, total: nat, every: nat)
    requires tried <= |items| && tried <= total && 0 < every
    ensures forall i, j :: 0 <= i < j < |Ticks(items, shown, tried, total, every)| ==>
      && Ticks(items, shown, tried, total, every)[i].Progress?
      && Ticks(items, shown, tried, total, every)[j].Progress?
      && Ticks(items, shown, tried, total, every)[i].pct <= Ticks(items, shown, tried, total, every)[j].pct
  {
    if tried > 0 {
      TicksMonotone(items, shown, tried - 1, total, every);
      TicksBelow(items, shown, tried - 1, total, every);
      if tried > 1 {
        PercentMonotone(tried - 1, tried, total);
      }
      var prev := Ticks(items, shown, tried - 1, total, every);
      var tick := Tick(tried, total, every, shown(items[tried - 1]));
      var all := Ticks(items, shown, tried, total, every);
      assert all == prev + tick;
      forall i, j | 0 <= i < j < |all|
        ensures all[i].Progress? && all[j].Progress? && all[i].pct <= all[j].pct
      {
        if j < |prev| {
          assert all[i] == prev[i] && all[j] == prev[j];
        } else {
          assert all[j] == tick[0] && all[j].pct == Percent(tried, total);
          assert all[i] == prev[i];
        }
      }
    } else {
      assert Ticks(items, shown, tried, total, every) == [];
    }
  }

  /** `e` is the progress signal of a counted candidate `k <= tried` at which a report was due. */
  predicate ReportedAt<T>(e: Event, items: seq<T>, shown: T -> string, tried: nat, total: nat, every: nat)
    requires tried <= |items| && tried <= total && 0 < every
  {
    exists k :: 0 < k <= tried && Reports(k, total, every) && e == Progress(Percent(k, total), shown(items[k - 1]))
  }

  /**
   * Progress is reported only at reporting points: each signal is the percentage
   * and shown text of some counted candidate `k` with `k % every == 0` or `k == total`.
   */
  lemma {:induction false} TicksOnlyAtReports<T>(items: seq<T>, shown: T -> string, tried: nat, total: nat, every: nat)
    requires tried <= |items| && tried <= total && 0 < every
    ensures forall i :: 0 <= i < |Ticks(items, shown, tried, total, every)| ==>
      ReportedAt(Ticks(items, shown, tried, total, every)[i], items, shown, tried, total, every)
  {
    if tried > 0 {
      TicksOnlyAtReports(items, shown, tried - 1, total, every);
      var prev := Ticks(items, shown, tried - 1, total, every);
      var all := Ticks(items, shown, tried, total, every);
      forall i | 0 <= i < |all|
        ensures ReportedAt(all[i], items, shown, tried, total, every)
      {
        if i < |prev| {
          assert ReportedAt(prev[i], items, shown, tried - 1, total, every);
          var k :| 0 < k <= tried - 1 && Reports(k, total, every) &&
            prev[i] == Progress(Percent(k, total), shown(items[k - 1]));
          assert all[i] == prev[i];
        } else {
          assert Reports(tried, total, every);
          assert all[i] == Progress(Percent(tried, total), shown(items[tried - 1]));
        }
      }
    } else {
      assert Ticks(items, shown, tried, total, every) == [];
    }
  }

  /**
   * The number of progress signals: one per full block of `every` candidates,
   * plus one for the last candidate when the total is not a multiple of `every`.
   */
  lemma {:induction false} TickCount<T>(items: seq<T>, shown: T -> string, tried: nat, total: nat, every: nat)
    requires tried <= |items| && tried <= total && 0 < every
    ensures |Ticks(items, shown, tried, total, every)| ==
      tried / every + (if tried == total && tried % every != 0 then 1 else 0)
  {
    if tried > 0 {
      TickCount(items, shown, tried - 1, total, every);
      DivStep(tried, every);
    }
  }

  /** When every candidate was counted, the last progress signal says 100% with the last candidate. */
  lemma LastTickFull<T>(items: seq<T>, shown: T -> string, total: nat, every: nat)
    requires 0 < total == |items| && 0 < every
    ensures var t := Ticks(items, shown, total, total, every);
      |t| > 0 && t[|t| - 1] == Progress(100, shown(items[total - 1]))
  {
  }

  /** Every trace a run produces has the protocol's shape. */
  lemma TraceProtocol<T>(items: seq<T>, shown: T -> string, tried: nat, total: nat, every: nat, outcome: Outcome)
    requires tried <= |items| && tried <= total && 0 < every
    ensures Protocol(Ticks(items, shown, tried, total, every) + Closing(outcome))
  {
    var t := Ticks(items, shown, tried, total, every);
    var c := Closing(outcome);
    var e := t + c;
    TicksBelow(items, shown, tried, total, every);
    TicksMonotone(items, shown, tried, total, every);
    assert forall i :: 0 <= i < |e| ==> e[i] == (if i < |t| then t[i] else c[i - |t|]);
  }

  /**
   * The candidate loop of a worker run: before each item the running flag is
   * read, the item is counted, a progress signal is emitted at reporting
   * points, and the item is probed; the loop ends at the first hit, at the
   * cut point, or after the last item.
   */
  method Sweep<T>(items: seq<T>, total: nat, every: nat, shown: T -> string, probe: T -> Option<Hit>, cancel: Option<nat>)
    returns (events: seq<Event>, tried: nat, hit: Option<Hit>)
    requires |items| <= total && 0 < every
    ensures tried <= Limit(|items|, cancel)
    ensures events == Ticks(items, shown, tried, total, every)
    ensures hit.Some? ==> 0 < tried && probe(items[tried - 1]) == hit && NoHit(items, probe, tried - 1)
    ensures hit.None? ==> tried == Limit(|items|, cancel) && NoHit(items, probe, tried)
  {
    events := [];
    tried := 0;
    hit := None;
    while tried < |items|
      invariant tried <= Limit(|items|, cancel)
      invariant events == Ticks(items, shown, tried, total, every)
      invariant NoHit(items, probe, tried) && hit.None?
    {
      if !Running(cancel, tried) {
        return;
      }
      var item := items[tried];
      tried := tried + 1;
      if tried % every == 0 || tried == total {
        events := events + [Progress(Percent(tried, total), shown(item))];
      }
      hit := probe(item);
      if hit.Some? {
        return;
      }
    }
  }

  /**
   * One worker run over `items`: the candidate loop, then the closing signals.
   * The first hit is reported with 100% for its text; a run that was still
   * running after the last item reports 100% with empty text; a stopped run
   * reports nothing more; every run ends with `finished_task`.
   */
  method Scan<T>(items: seq<T>, total: nat, every: nat, shown: T -> string, probe: T -> Option<Hit>, cancel: Option<nat>)
    returns (events: seq<Event>, tried: nat, outcome: Outcome)
    requires |items| <= total && 0 < every
    ensures tried <= |items|
    ensures events == Ticks(items, shown, tried, total, every) + Closing(outcome)
    ensures Protocol(events)
    ensures outcome.Matched? ==>
      && 0 < tried <= Limit(|items|, cancel)
      && probe(items[tried - 1]) == Some(outcome.hit)
      && NoHit(items, probe, tried - 1)
    ensures !outcome.Matched? ==> tried == Limit(|items|, cancel) && NoHit(items, probe, tried)
    ensures outcome.Exhausted? <==> !outcome.Matched? && Running(cancel, tried)
  {
    var hit;
    events, tried, hit := Sweep(items, total, every, shown, probe, cancel);
    outcome := if hit.Some? then Matched(hit.value) else if Running(cancel, tried) then Exhausted else Cancelled;
    events := events + Closing(outcome);
    TraceProtocol(items, shown, tried, total, every, outcome);
  }
}
