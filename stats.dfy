/** The per-name statistics record `Stats` and its two updates. */
module Statistics {
  import opened Bytes
  import opened Temperature

  function Min(a: Int16, b: Int16): Int16 { if b < a then b else a }
  function Max(a: Int16, b: Int16): Int16 { if a < b then b else a }

  /** Minimum and maximum in tenths, the sum of all temperatures and their
      number. `Stats` is a value type in the program: map entries hold it by
      value and `update`/`merge` replace its four fields. */
  datatype Stats = Stats(min: Int16, max: Int16, sum: int, count: int)
  {
    /** `update(temp)`: fold one temperature in. */
    function Update(t: Int16): Stats
    {
      Stats(Min(min, t), Max(max, t), sum + t, count + 1)
    }

    /** `merge(o)`: fold another record in, field by field. */
    function Merge(o: Stats): Stats
    {
      Stats(Min(min, o.min), Max(max, o.max), sum + o.sum, count + o.count)
    }
  }

  /** A default-constructed `Stats`: `min_ = INT16_MAX`, `max_ = INT16_MIN`. */
  const Default: Stats := Stats(INT16_MAX, INT16_MIN, 0, 0)

  /** The record of a single temperature. */
  function Single(t: Int16): Stats
  {
    Stats(t, t, t, 1)
  }

  /** What `update` promises: the new minimum and maximum bracket `t`, the
      sum grows by exactly `t` and the count by exactly one. */
  lemma UpdateBrackets(s: Stats, t: Int16)
    ensures s.Update(t).min <= t <= s.Update(t).max
    ensures s.Update(t).min <= s.min && s.Update(t).max >= s.max
    ensures s.Update(t).min == s.min || s.Update(t).min == t
    ensures s.Update(t).max == s.max || s.Update(t).max == t
    ensures s.Update(t).sum == s.sum + t && s.Update(t).count == s.count + 1
  {
  }

  /** Updating with `t` is merging with the record of `t` alone. */
  lemma UpdateIsMergeSingle(s: Stats, t: Int16)
    ensures s.Update(t) == s.Merge(Single(t))
  {
  }

  lemma MergeCommutative(a: Stats, b: Stats)
    ensures a.Merge(b) == b.Merge(a)
  {
  }

  lemma MergeAssociative(a: Stats, b: Stats, c: Stats)
    ensures a.Merge(b).Merge(c) == a.Merge(b.Merge(c))
  {
  }

  /** The default record is the identity of `merge` on both sides; this is
      what makes `merged[city].merge(stats)` on a freshly inserted entry
      store `stats` itself. */
  lemma DefaultIsIdentity(s: Stats)
    ensures Default.Merge(s) == s
    ensures s.Merge(Default) == s
  {
  }

  function Sum(ts: seq<Int16>): int
  {
    if ts == [] then 0 else Sum(ts[..|ts| - 1]) + ts[|ts| - 1]
  }

  /** The record after updating a default record with `ts`, in order. */
  function Summarize(ts: seq<Int16>): Stats
  {
    if ts == [] then Default else Summarize(ts[..|ts| - 1]).Update(ts[|ts| - 1])
  }

  /** Starting from the defaults, the record counts and sums the temperatures,
      and after one update or more its minimum and maximum are the least and
      the greatest of them, so `min <= max`. */
  lemma {:induction false} SummarizeFields(ts: seq<Int16>)
    ensures Summarize(ts).count == |ts|
    ensures Summarize(ts).sum == Sum(ts)
    ensures ts == [] ==> Summarize(ts) == Default
    ensures ts != [] ==> Summarize(ts).min in ts && Summarize(ts).max in ts
    ensures forall t :: t in ts ==> Summarize(ts).min <= t <= Summarize(ts).max
    ensures ts != [] ==> Summarize(ts).min <= Summarize(ts).max
  {
    if ts != [] {
      var init, last := ts[..|ts| - 1], ts[|ts| - 1];
      SummarizeFields(init);
      assert ts == init + [last];
      forall t | t in ts ensures Summarize(ts).min <= t <= Summarize(ts).max {
        if t != last {
          assert t in init;
        }
      }
    }
  }

  /** Merging the records of two runs of temperatures gives the record of
      the two runs one after the other. */
  lemma {:induction false} SummarizeAppend(a: seq<Int16>, b: seq<Int16>)
    ensures Summarize(a + b) == Summarize(a).Merge(Summarize(b))
    decreases |b|
  {
    if b == [] {
      assert a + b == a;
      DefaultIsIdentity(Summarize(a));
    } else {
      var init, last := b[..|b| - 1], b[|b| - 1];
      assert (a + b)[..|a + b| - 1] == a + init;
      SummarizeAppend(a, init);
      UpdateIsMergeSingle(Summarize(a + init), last);
      UpdateIsMergeSingle(Summarize(init), last);
      MergeAssociative(Summarize(a), Summarize(init), Single(last));
    }
  }

  /** The map from city name to its record (`StatsMap`). */
  type StatsMap = map<seq<Byte>, Stats>

  /** The entry for `k`, or a default record where there is none: what
      `operator[]` finds after inserting a default entry for a missing key. */
  function EntryOrDefault(m: StatsMap, k: seq<Byte>): Stats
  {
    if k in m then m[k] else Default
  }
}
