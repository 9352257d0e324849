/** The rolling record of what the autonomy loop has spent, in money and in cycles. */
module SpendLedger {
  import opened Collections

  datatype SpendEntry = SpendEntry(at: int, usd: real, cycles: nat)

  /** What the sums add up. */
  datatype Measure = Usd | Cycles

  const DAY_MS: int := 24 * 60 * 60 * 1000
  const MONTH_MS: int := 30 * DAY_MS

  function Amount(e: SpendEntry, m: Measure): real {
    match m
    case Usd => e.usd
    case Cycles => e.cycles as real
  }

  function Since(since: int): SpendEntry -> bool {
    (e: SpendEntry) => e.at >= since
  }

  /** The total of the entries from `since` on. */
  function TotalSince(entries: seq<SpendEntry>, since: int, m: Measure): real {
    if entries == [] then 0.0
    else
      var last := entries[|entries| - 1];
      TotalSince(entries[..|entries| - 1], since, m) + if last.at >= since then Amount(last, m) else 0.0
  }

  /** Appends an entry; entries older than a month are dropped once the oldest one is. */
  function Record(entries: seq<SpendEntry>, entry: SpendEntry): seq<SpendEntry> {
    var all := entries + [entry];
    if all[0].at < entry.at - MONTH_MS then Filter(all, Since(entry.at - MONTH_MS)) else all
  }

  ghost predicate NonNegative(entries: seq<SpendEntry>, m: Measure) {
    forall e :: e in entries ==> Amount(e, m) >= 0.0
  }

  /** A later start of the period never raises the total: yesterday's spend drops out. */
  lemma {:induction false} TotalSinceAntitone(entries: seq<SpendEntry>, since: int, since': int, m: Measure)
    requires NonNegative(entries, m) && since <= since'
    ensures 0.0 <= TotalSince(entries, since', m) <= TotalSince(entries, since, m)
  {
    if entries != [] {
      assert entries[|entries| - 1] in entries;
      TotalSinceAntitone(entries[..|entries| - 1], since, since', m);
    }
  }

  lemma TotalSinceSnoc(entries: seq<SpendEntry>, last: SpendEntry, since: int, m: Measure)
    ensures TotalSince(entries + [last], since, m) ==
            TotalSince(entries, since, m) + if last.at >= since then Amount(last, m) else 0.0
  {
    assert (entries + [last])[..|entries|] == entries;
  }

  /** Dropping entries from before the period changes no total over it. */
  lemma {:induction false} TotalSinceFilter(entries: seq<SpendEntry>, cutoff: int, since: int, m: Measure)
    requires cutoff <= since
    ensures TotalSince(Filter(entries, Since(cutoff)), since, m) == TotalSince(entries, since, m)
  {
    if entries != [] {
      var n := |entries| - 1;
      var front, last := entries[..n], entries[n];
      TotalSinceFilter(front, cutoff, since, m);
      FilterSnoc(entries, n, Since(cutoff));
      assert entries[..n + 1] == entries;
      TotalSinceSnoc(Filter(front, Since(cutoff)), last, since, m);
      if last.at < cutoff {
        assert Filter(entries, Since(cutoff)) == Filter(front, Since(cutoff));
      }
    }
  }

  /** Recording, with its pruning, adds exactly the new amount to every period of at most a month. */
  lemma RecordAdds(entries: seq<SpendEntry>, entry: SpendEntry, period: int, m: Measure)
    requires 0 <= period <= MONTH_MS
    ensures TotalSince(Record(entries, entry), entry.at - period, m) ==
            TotalSince(entries, entry.at - period, m) + Amount(entry, m)
  {
    TotalSinceSnoc(entries, entry, entry.at - period, m);
    TotalSinceFilter(entries + [entry], entry.at - MONTH_MS, entry.at - period, m);
  }

  class Ledger {
    var entries: seq<SpendEntry>

    constructor ()
      ensures entries == []
    {
      entries := [];
    }

    method RecordSpend(usd: real, cycles: nat, now: int)
      modifies this
      ensures entries == Record(old(entries), SpendEntry(now, usd, cycles))
    {
      entries := entries + [SpendEntry(now, usd, cycles)];
      var since := now - MONTH_MS;
      if entries[0].at < since {
        entries := Filter(entries, Since(since));
      }
    }

    /** `dailyUsd` and `monthlyUsd`. */
    method SumUsd(since: int) returns (total: real)
      ensures total == TotalSince(entries, since, Usd)
    {
      total := 0.0;
      for n := 0 to |entries|
        invariant total == TotalSince(entries[..n], since, Usd)
      {
        assert entries[..n + 1][..n] == entries[..n];
        if entries[n].at >= since {
          total := total + entries[n].usd;
        }
      }
      assert entries[..|entries|] == entries;
    }

    method SumCycles(since: int) returns (total: nat)
      ensures total as real == TotalSince(entries, since, Cycles)
    {
      total := 0;
      for n := 0 to |entries|
        invariant total as real == TotalSince(entries[..n], since, Cycles)
      {
        assert entries[..n + 1][..n] == entries[..n];
        if entries[n].at >= since {
          total := total + entries[n].cycles;
        }
      }
      assert entries[..|entries|] == entries;
    }

    method Reset()
      modifies this
      ensures entries == []
    {
      entries := [];
    }
  }
}
