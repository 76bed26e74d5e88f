/** Per-segment aggregation: the `process_segment` lambda of `process_file`,
    which reads a segment line by line and folds each temperature into the
    record of its city. */
module Aggregation {
  import opened Bytes
  import opened Temperature
  import opened Statistics
  import opened LineScanner

  /** `line.substr(0, sep)` with `sep = line.find(';')`: the city name. When
      there is no separator `sep` is `npos` and the whole line is taken. */
  function City(line: seq<Byte>): seq<Byte>
  {
    match Find(line, ';', 0)
    case Npos => line
    case At(k) => line[..k]
  }

  /** `line.substr(sep + 1)`: the value text. When there is no separator
      `npos + 1` wraps to 0 and the whole line is taken. */
  function ValueText(line: seq<Byte>): seq<Byte>
  {
    line[AfterFound(Find(line, ';', 0))..]
  }

  /** A line of a well-formed file is cut by its FIRST separator: the name
      never holds a `;`, and name, separator and value make up the line. */
  lemma SplitAtSeparator(line: seq<Byte>)
    requires ';' in line
    ensures ';' !in City(line)
    ensures line == City(line) + [';'] + ValueText(line)
  {
    var i :| 0 <= i < |line| && line[i] == ';';
    FindSome(line, ';', 0, i);
    FindResult(line, ';', 0);
    var k := Find(line, ';', 0).index;
    assert line == line[..k] + [';'] + line[k + 1..];
  }

  /** A line without a separator is taken whole, both as name and as value. */
  lemma NoSeparator(line: seq<Byte>)
    requires ';' !in line
    ensures City(line) == line && ValueText(line) == line
  {
  }

  /** The lines `get_temperature` can read without leaving the value text. */
  predicate LineParsable(line: seq<Byte>)
  {
    Readable(ValueText(line))
  }

  predicate AllParsable(ls: seq<seq<Byte>>)
  {
    forall l :: l in ls ==> LineParsable(l)
  }

  function Temp(line: seq<Byte>): Int16
    requires LineParsable(line)
  {
    GetTemperature(ValueText(line))
  }

  /** A line `name;value` with a well-shaped value contributes that value. */
  lemma TempOfRecord(name: seq<Byte>, value: seq<Byte>)
    requires ';' !in name && WellShaped(value)
    ensures City(name + [';'] + value) == name
    ensures LineParsable(name + [';'] + value)
    ensures Temp(name + [';'] + value) == Tenths(value)
  {
    var line := name + [';'] + value;
    assert line[|name|] == ';';
    FindIs(line, ';', 0, At(|name|));
    assert line[..|name|] == name;
    assert line[|name| + 1..] == value;
    ParseWellShaped(value);
  }

  /** Folding one line in: find the city's entry, insert a default record if
      there is none, then update it with the temperature. */
  function Insert(m: StatsMap, line: seq<Byte>): StatsMap
    requires LineParsable(line)
  {
    m[City(line) := EntryOrDefault(m, City(line)).Update(Temp(line))]
  }

  /** The map `process_segment` builds from a sequence of lines. */
  function Aggregate(ls: seq<seq<Byte>>): StatsMap
    requires AllParsable(ls)
  {
    if ls == [] then map[] else Insert(Aggregate(ls[..|ls| - 1]), ls[|ls| - 1])
  }

  /** The temperatures of the lines of `ls` whose name is `k`, in order. */
  function TempsFor(ls: seq<seq<Byte>>, k: seq<Byte>): seq<Int16>
    requires AllParsable(ls)
  {
    if ls == [] then []
    else
      var init, last := ls[..|ls| - 1], ls[|ls| - 1];
      TempsFor(init, k) + (if City(last) == k then [Temp(last)] else [])
  }

  /** The names of the map are the names of the lines. */
  lemma {:induction false} AggregateKeys(ls: seq<seq<Byte>>, k: seq<Byte>)
    requires AllParsable(ls)
    ensures k in Aggregate(ls) <==> exists l :: l in ls && City(l) == k
  {
    if ls != [] {
      var init, last := ls[..|ls| - 1], ls[|ls| - 1];
      assert AllParsable(init);
      AggregateKeys(init, k);
      assert ls == init + [last];
      if k in Aggregate(ls) && City(last) != k {
        var l :| l in init && City(l) == k;
        assert l in ls;
      }
      if exists l :: l in ls && City(l) == k {
        var l :| l in ls && City(l) == k;
        if l != last {
          assert l in init;
        }
      }
    }
  }

  /** The record of a name is the fold of that name's temperatures. */
  lemma {:induction false} AggregateRecord(ls: seq<seq<Byte>>, k: seq<Byte>)
    requires AllParsable(ls)
    ensures EntryOrDefault(Aggregate(ls), k) == Summarize(TempsFor(ls, k))
  {
    if ls != [] {
      var init, last := ls[..|ls| - 1], ls[|ls| - 1];
      assert AllParsable(init);
      AggregateRecord(init, k);
      var ts := TempsFor(init, k);
      if City(last) == k {
        assert TempsFor(ls, k) == ts + [Temp(last)];
        assert (ts + [Temp(last)])[..|ts|] == ts;
      } else {
        assert TempsFor(ls, k) == ts;
      }
    }
  }

  /** The map built from `ls` has one key per distinct name of `ls`, and the
      entry of a name is the fold of exactly that name's temperatures, in
      order, into a default record. */
  lemma AggregateAt(ls: seq<seq<Byte>>, k: seq<Byte>)
    requires AllParsable(ls)
    ensures k in Aggregate(ls) <==> exists l :: l in ls && City(l) == k
    ensures EntryOrDefault(Aggregate(ls), k) == Summarize(TempsFor(ls, k))
  {
    AggregateKeys(ls, k);
    AggregateRecord(ls, k);
  }

  /** What `process_segment` promises for each name of its lines: the count
      is the number of lines carrying that name, the sum is the sum of their
      temperatures, and the minimum and maximum are the least and the
      greatest of them. */
  lemma AggregateEntry(ls: seq<seq<Byte>>, k: seq<Byte>)
    requires AllParsable(ls)
    requires k in Aggregate(ls)
    ensures |TempsFor(ls, k)| > 0
    ensures Aggregate(ls)[k].count == |TempsFor(ls, k)|
    ensures Aggregate(ls)[k].sum == Sum(TempsFor(ls, k))
    ensures Aggregate(ls)[k].min in TempsFor(ls, k) && Aggregate(ls)[k].max in TempsFor(ls, k)
    ensures forall t :: t in TempsFor(ls, k) ==> Aggregate(ls)[k].min <= t <= Aggregate(ls)[k].max
  {
    AggregateAt(ls, k);
    SummarizeFields(TempsFor(ls, k));
    if TempsFor(ls, k) == [] {
      var l :| l in ls && City(l) == k;
      TempsForNonEmpty(ls, l);
    }
  }

  lemma {:induction false} TempsForNonEmpty(ls: seq<seq<Byte>>, l: seq<Byte>)
    requires AllParsable(ls) && l in ls
    ensures Temp(l) in TempsFor(ls, City(l))
  {
    var init, last := ls[..|ls| - 1], ls[|ls| - 1];
    assert ls == init + [last];
    if l != last {
      assert l in init;
      TempsForNonEmpty(init, l);
    }
  }

  lemma AggregateSnoc(ls: seq<seq<Byte>>, line: seq<Byte>)
    requires AllParsable(ls) && LineParsable(line)
    ensures AllParsable(ls + [line])
    ensures Aggregate(ls + [line]) == Insert(Aggregate(ls), line)
  {
    assert (ls + [line])[..|ls|] == ls;
  }

  /** One step of the scan: the line just folded in moves from the lines
      still to do to the lines done. */
  lemma ScanStep(all: seq<seq<Byte>>, done: seq<seq<Byte>>, line: seq<Byte>, rest: seq<seq<Byte>>,
                 ok: bool, next: seq<Byte>, rest': seq<seq<Byte>>)
    requires all == done + [line] + rest
    requires ok ==> rest == [next] + rest'
    requires !ok ==> rest == []
    ensures ok ==> all == (done + [line]) + [next] + rest'
    ensures !ok ==> all == done + [line]
  {
  }

  /** `process_segment`: scan the segment with a `Reader` and fold every line
      into the map: look the name up, emplace a default record when it is
      missing, then update the record with the temperature. */
  method ProcessSegment(data: seq<Byte>) returns (cities: StatsMap)
    requires AllParsable(Lines(data))
    ensures cities == Aggregate(Lines(data))
  {
    cities := map[];
    var reader := new Reader(data);
    ghost var done: seq<seq<Byte>> := [];
    assert reader.Remaining() == data;
    var ok, line := reader.Getline([]);
    while ok
      invariant reader.Valid() && reader.data == data
      invariant ok ==> Lines(data) == done + [line] + Lines(reader.Remaining())
      invariant !ok ==> Lines(data) == done
      invariant AllParsable(done) && cities == Aggregate(done)
      decreases |data| - reader.pos, ok
    {
      assert LineParsable(line) by {
        assert line in Lines(data);
      }
      AggregateSnoc(done, line);
      var city := City(line);
      var temp := GetTemperature(ValueText(line));
      var entry := Default;
      if city in cities {
        entry := cities[city];
      }
      cities := cities[city := entry.Update(temp)];
      ghost var rest := Lines(reader.Remaining());
      ghost var prev := line;
      ok, line := reader.Getline(line);
      ScanStep(Lines(data), done, prev, rest, ok, line, Lines(reader.Remaining()));
      done := done + [prev];
    }
  }
}
