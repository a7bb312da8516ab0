/**
 * `combine_entries` (merge.py): folds the raw per-module timetable entries
 * into one session per (module, location, day, details), merging a new time
 * range into the stored one when the two overlap or touch within one minute.
 *
 * Times are minutes since midnight of the first day; an end before its start
 * is moved to the next day, so a stored end may reach 2 * 1440 - 1. Output
 * times are written back as wall-clock HHMM, i.e. modulo one day.
 *
 * The source keeps one range per key: a same-key range that does not touch
 * the stored one REPLACES it (merge.py:43-44). The model keeps that
 * behaviour; `MergeExamples.SameSessionPair` states it and the examples
 * beside it show what it loses.
 */
module Merge {
  import opened Wrappers
  import opened Seqs
  import Strings
  import Clock

  /** The `timedelta(minutes=1)` slack of the overlap test. */
  const Tolerance: nat := 1

  /** One raw entry of a module's list: `{"location", "day", "time", "details"}`. */
  datatype Entry = Entry(location: string, day: string, time: string, details: string)

  /** One item of the input dict: a module code and its entries. */
  datatype ModuleEntries = ModuleEntries(code: string, entries: seq<Entry>)

  /** The key of the `combined` dict. */
  datatype SessionKey = SessionKey(code: string, location: string, day: string, details: string)

  /** A stored `{"start_time", "end_time"}` pair, in minutes. */
  datatype Span = Span(start: nat, end: nat)

  /** One output record: `{"location", "day", "details", "time"}`. */
  datatype Record = Record(location: string, day: string, details: string, time: string)

  /** One item of the output dict: a module code and its records. */
  datatype ModuleRecords = ModuleRecords(code: string, records: seq<Record>)

  function KeyOf(code: string, e: Entry): SessionKey {
    SessionKey(code, e.location, e.day, e.details)
  }

  // ---------------------------------------------------------------- times

  /** Moves an end that lies before its start to the next day (merge.py:27-28). */
  function Shift(start: nat, end: nat): (sp: Span)
    requires start < Clock.MinutesPerDay && end < Clock.MinutesPerDay
    ensures sp.start == start && sp.start <= sp.end < sp.start + Clock.MinutesPerDay
    ensures sp.end % Clock.MinutesPerDay == end
  {
    if end < start then Span(start, end + Clock.MinutesPerDay) else Span(start, end)
  }

  /** A span as the merge keeps them: it starts on the first day and does not end before it starts. */
  predicate GoodSpan(sp: Span) {
    sp.start < Clock.MinutesPerDay && sp.start <= sp.end < 2 * Clock.MinutesPerDay
  }

  /**
   * The range of an entry: `entry["time"].split('-')`, both halves read by
   * strptime, the end shifted past midnight when needed. None where the
   * source raises (fewer than two pieces, or a piece strptime rejects).
   */
  function EntrySpan(e: Entry): (r: Option<Span>)
    ensures r.Some? ==> GoodSpan(r.value)
  {
    var parts := Strings.Split(e.time, '-');
    if |parts| < 2 then None
    else
      match (Clock.Strptime(parts[0]), Clock.Strptime(parts[1]))
      case (Some(s), Some(en)) => Some(Shift(s, en))
      case _ => None
  }

  predicate WellFormed(e: Entry) {
    EntrySpan(e).Some?
  }

  predicate AllWellFormed(es: seq<Entry>) {
    forall e :: e in es ==> WellFormed(e)
  }

  predicate AllModulesWellFormed(data: seq<ModuleEntries>) {
    forall i :: 0 <= i < |data| ==> AllWellFormed(data[i].entries)
  }

  /** Reordering the entries does not change whether they all parse. */
  lemma WellFormedPermutation(a: seq<Entry>, b: seq<Entry>)
    requires multiset(a) == multiset(b)
    ensures AllWellFormed(a) <==> AllWellFormed(b)
  {
    assert forall e :: e in a <==> e in multiset(b);
  }

  // ---------------------------------------------------------------- sorting

  /** The start time of the sort key: `strptime(x["time"].split('-')[0])`. */
  function SortStart(e: Entry): nat {
    Clock.Strptime(Strings.Split(e.time, '-')[0]).GetOr(0)
  }

  /** For a well-formed entry the sort key's start is the start of its range. */
  lemma SortStartIsStart(e: Entry)
    requires WellFormed(e)
    ensures SortStart(e) == EntrySpan(e).value.start
  {
  }

  /** The sort key `(x["day"], start)` compared as a Python tuple: day as a string first, then start. */
  predicate KeyLe(x: Entry, y: Entry) {
    (x.day != y.day && Strings.LexLe(x.day, y.day)) || (x.day == y.day && SortStart(x) <= SortStart(y))
  }

  lemma KeyLeTotal(x: Entry, y: Entry)
    ensures KeyLe(x, y) || KeyLe(y, x)
  {
    Strings.LexLeTotal(x.day, y.day);
  }

  lemma KeyLeTransitive(x: Entry, y: Entry, z: Entry)
    requires KeyLe(x, y) && KeyLe(y, z)
    ensures KeyLe(x, z)
  {
    if x.day != y.day && y.day != z.day {
      Strings.LexLeTransitive(x.day, y.day, z.day);
      if x.day == z.day {
        Strings.LexLeAntisymmetric(y.day, z.day);
      }
    }
  }

  predicate Sorted(s: seq<Entry>) {
    forall i, j :: 0 <= i < j < |s| ==> KeyLe(s[i], s[j])
  }

  /** Puts `x` after every element whose key is not greater, so equal keys keep their input order. */
  function Insert(x: Entry, s: seq<Entry>): (r: seq<Entry>)
    ensures multiset(r) == multiset(s) + multiset{x}
  {
    if s == [] then [x]
    else if KeyLe(s[0], x) then
      assert s == [s[0]] + s[1..];
      [s[0]] + Insert(x, s[1..])
    else [x] + s
  }

  /** `sorted(entries, key=(day, start))`: a stable sort; its result is a permutation of the input. */
  function SortEntries(s: seq<Entry>): (r: seq<Entry>)
    ensures multiset(r) == multiset(s)
  {
    if s == [] then []
    else
      assert s == s[..|s| - 1] + [s[|s| - 1]];
      Insert(s[|s| - 1], SortEntries(s[..|s| - 1]))
  }

  lemma {:induction false} InsertSorted(x: Entry, s: seq<Entry>)
    requires Sorted(s)
    ensures Sorted(Insert(x, s))
  {
    if s != [] {
      var r := Insert(x, s);
      if KeyLe(s[0], x) {
        InsertSorted(x, s[1..]);
        forall j | 1 <= j < |r| ensures KeyLe(s[0], r[j]) {
          assert r[j] in multiset(Insert(x, s[1..]));
          if r[j] != x {
            assert r[j] in s[1..];
          }
        }
      } else {
        KeyLeTotal(x, s[0]);
        forall j | 1 <= j < |r| ensures KeyLe(x, r[j]) {
          if j > 1 { KeyLeTransitive(x, s[0], s[j - 1]); }
        }
      }
    }
  }

  /** The entries of a module are visited in key order: by day name as a string, then by start. */
  lemma {:induction false} SortEntriesSorted(s: seq<Entry>)
    ensures Sorted(SortEntries(s))
  {
    if s != [] {
      SortEntriesSorted(s[..|s| - 1]);
      InsertSorted(s[|s| - 1], SortEntries(s[..|s| - 1]));
    }
  }

  // ---------------------------------------------------------------- the combined dict

  /** The `combined` dict: its keys in insertion order and the span stored for each. */
  datatype Table = Table(keys: seq<SessionKey>, spans: map<SessionKey, Span>)

  const EmptyTable := Table([], map[])

  /** The dict's invariant: each key once, in the order list exactly when it has a span, every span good. */
  ghost predicate Valid(t: Table) {
    && Distinct(t.keys)
    && (forall k :: k in t.spans <==> k in t.keys)
    && (forall k :: k in t.spans ==> GoodSpan(t.spans[k]))
  }

  /** The test of merge.py:35-36: the ranges overlap or lie within a minute of each other. */
  predicate Touches(existing: Span, sp: Span) {
    sp.start <= existing.end + Tolerance && sp.end + Tolerance >= existing.start
  }

  function Min(a: nat, b: nat): nat {
    if a <= b then a else b
  }

  function Max(a: nat, b: nat): nat {
    if a <= b then b else a
  }

  function Hull(a: Span, b: Span): Span {
    Span(Min(a.start, b.start), Max(a.end, b.end))
  }

  /** What one entry does to the dict (merge.py:31-44): widen the stored span, or store the new one. */
  function Step(t: Table, k: SessionKey, sp: Span): Table {
    if k in t.spans && Touches(t.spans[k], sp) then Table(t.keys, t.spans[k := Hull(t.spans[k], sp)])
    else if k in t.spans then Table(t.keys, t.spans[k := sp])
    else Table(t.keys + [k], t.spans[k := sp])
  }

  /** One entry keeps the dict's invariant. */
  lemma StepValid(t: Table, k: SessionKey, sp: Span)
    ensures Valid(t) && GoodSpan(sp) ==> Valid(Step(t, k, sp))
  {
    var r := Step(t, k, sp);
    if Valid(t) && GoodSpan(sp) && k !in t.spans {
      assert k !in t.keys;
      forall i, j | 0 <= i < j < |r.keys| ensures r.keys[i] != r.keys[j] {
        if j == |t.keys| { assert r.keys[i] in t.keys; }
      }
    }
  }

  /** One module's sorted entries folded into the dict, in order. */
  function FoldModule(t: Table, m: string, es: seq<Entry>): (r: Table)
    requires AllWellFormed(es)
    ensures Valid(t) ==> Valid(r)
  {
    if es == [] then t
    else
      var last := es[|es| - 1];
      var before := FoldModule(t, m, es[..|es| - 1]);
      assert last in es;
      StepValid(before, KeyOf(m, last), EntrySpan(last).value);
      Step(before, KeyOf(m, last), EntrySpan(last).value)
  }

  /** One more well-formed entry is folded in as one more step. */
  lemma FoldModuleSnoc(t: Table, m: string, es: seq<Entry>, j: nat)
    requires j < |es| && AllWellFormed(es[..j]) && WellFormed(es[j])
    ensures AllWellFormed(es[..j + 1])
    ensures FoldModule(t, m, es[..j + 1]) == Step(FoldModule(t, m, es[..j]), KeyOf(m, es[j]), EntrySpan(es[j]).value)
  {
    assert es[..j + 1] == es[..j] + [es[j]];
    assert es[..j + 1][..j] == es[..j];
  }

  /** The `combined` dict after the whole input: each module's entries sorted, then folded in. */
  function Consolidate(data: seq<ModuleEntries>): (t: Table)
    requires AllModulesWellFormed(data)
    ensures Valid(t)
  {
    if data == [] then EmptyTable
    else
      var last := data[|data| - 1];
      var sorted := SortEntries(last.entries);
      assert forall e :: e in sorted ==> e in multiset(last.entries);
      FoldModule(Consolidate(data[..|data| - 1]), last.code, sorted)
  }

  /** One more module of well-formed entries is folded into the dict. */
  lemma ConsolidateSnoc(data: seq<ModuleEntries>, i: nat)
    requires i < |data| && AllModulesWellFormed(data[..i]) && AllWellFormed(data[i].entries)
    ensures AllModulesWellFormed(data[..i + 1])
    ensures AllWellFormed(SortEntries(data[i].entries))
    ensures Consolidate(data[..i + 1]) == FoldModule(Consolidate(data[..i]), data[i].code, SortEntries(data[i].entries))
  {
    assert data[..i + 1][..i] == data[..i];
    WellFormedPermutation(SortEntries(data[i].entries), data[i].entries);
  }

  // ---------------------------------------------------------------- formatting

  function RecordOf(k: SessionKey, sp: Span): Record {
    Record(k.location, k.day, k.details, Clock.FormatRange(sp.start, sp.end))
  }

  /** Where module `m` sits in the output being built, or -1. */
  function ModuleIndex(out: seq<ModuleRecords>, m: string): (i: int)
    ensures -1 <= i < |out|
    ensures i >= 0 ==> out[i].code == m
    ensures i < 0 ==> forall j :: 0 <= j < |out| ==> out[j].code != m
  {
    if out == [] then -1
    else if out[0].code == m then 0
    else
      var j := ModuleIndex(out[1..], m);
      if j < 0 then -1 else j + 1
  }

  /** `formatted_data[module].append(record)`, creating the module's list on first use (merge.py:49-56). */
  function AddRecord(out: seq<ModuleRecords>, m: string, rec: Record): seq<ModuleRecords> {
    var i := ModuleIndex(out, m);
    if i < 0 then out + [ModuleRecords(m, [rec])]
    else out[i := ModuleRecords(m, out[i].records + [rec])]
  }

  /** The formatting loop over `combined` in insertion order. */
  function FormatTable(keys: seq<SessionKey>, spans: map<SessionKey, Span>): seq<ModuleRecords>
    requires forall k :: k in keys ==> k in spans
  {
    if keys == [] then []
    else
      var k := keys[|keys| - 1];
      AddRecord(FormatTable(keys[..|keys| - 1], spans), k.code, RecordOf(k, spans[k]))
  }

  /** What `combine_entries(data)` returns. */
  function CombineSpec(data: seq<ModuleEntries>): seq<ModuleRecords>
    requires AllModulesWellFormed(data)
  {
    var t := Consolidate(data);
    FormatTable(t.keys, t.spans)
  }

  // ---------------------------------------------------------------- the procedure

  /**
   * The body of the entry loop (merge.py:31-44): scan the dict for the key,
   * widen its span when the new range touches it and stop; otherwise store
   * the new range under the key, in place if the key is already there.
   */
  method StoreRange(keys: seq<SessionKey>, spans: map<SessionKey, Span>, key: SessionKey, start: nat, end: nat)
    returns (keys': seq<SessionKey>, spans': map<SessionKey, Span>)
    requires Valid(Table(keys, spans))
    ensures Table(keys', spans') == Step(Table(keys, spans), key, Span(start, end))
  {
    keys', spans' := keys, spans;
    var merged := false;
    var n := 0;
    while n < |keys|
      invariant 0 <= n <= |keys|
      invariant forall p :: 0 <= p < n ==> keys[p] != key || !Touches(spans[key], Span(start, end))
    {
      if keys[n] == key {
        var existing := spans[key];
        if start <= existing.end + Tolerance && end + Tolerance >= existing.start {
          spans' := spans[key := Span(Min(existing.start, start), Max(existing.end, end))];
          merged := true;
          break;
        }
      }
      n := n + 1;
    }
    if !merged {
      if key !in spans {
        keys' := keys + [key];
      }
      spans' := spans[key := Span(start, end)];
    }
  }

  /** The formatting loop (merge.py:47-56): one record per stored key, grouped by module. */
  method FormatCombined(keys: seq<SessionKey>, spans: map<SessionKey, Span>) returns (out: seq<ModuleRecords>)
    requires forall k :: k in keys ==> k in spans
    ensures out == FormatTable(keys, spans)
  {
    out := [];
    for n := 0 to |keys|
      invariant out == FormatTable(keys[..n], spans)
    {
      assert keys[..n + 1][..n] == keys[..n];
      var key := keys[n];
      var times := spans[key];
      var record := Record(key.location, key.day, key.details, Clock.FormatRange(times.start, times.end));
      var idx := ModuleIndex(out, key.code);
      if idx < 0 {
        out := out + [ModuleRecords(key.code, [record])];
      } else {
        out := out[idx := ModuleRecords(key.code, out[idx].records + [record])];
      }
    }
    assert keys[..|keys|] == keys;
  }

  /**
   * Reads an entry's range as merge.py:22-28 does: split on '-', strptime
   * both halves, shift the end past midnight when needed. None where the
   * source raises: fewer than two pieces, or a piece strptime rejects.
   */
  method ReadRange(entry: Entry) returns (span: Option<Span>)
    ensures span == EntrySpan(entry)
    ensures var parts := Strings.Split(entry.time, '-');
      span.Some? <==> |parts| >= 2 && Clock.Strptime(parts[0]).Some? && Clock.Strptime(parts[1]).Some?
    ensures var parts := Strings.Split(entry.time, '-');
      span.Some? ==>
        && span.value.start == Clock.Strptime(parts[0]).value
        && span.value.start <= span.value.end < span.value.start + Clock.MinutesPerDay
        && span.value.end % Clock.MinutesPerDay == Clock.Strptime(parts[1]).value
  {
    var timeRange := Strings.Split(entry.time, '-');
    if |timeRange| < 2 {
      return None;
    }
    var startTime := Clock.Strptime(timeRange[0]);
    var endTime := Clock.Strptime(timeRange[1]);
    if startTime.None? || endTime.None? {
      return None;
    }
    var start, end := startTime.value, endTime.value;
    if end < start {
      end := end + Clock.MinutesPerDay;
    }
    span := Some(Span(start, end));
  }

  /**
   * One module of the outer loop (merge.py:18-44): sort its entries, then
   * store each in turn; `ok` is false where the source raises on a time it
   * cannot read.
   */
  method StoreModule(keys: seq<SessionKey>, spans: map<SessionKey, Span>, code: string, entries: seq<Entry>)
    returns (ok: bool, keys': seq<SessionKey>, spans': map<SessionKey, Span>)
    requires Valid(Table(keys, spans))
    ensures ok <==> AllWellFormed(entries)
    ensures ok ==> AllWellFormed(SortEntries(entries))
    ensures ok ==> Table(keys', spans') == FoldModule(Table(keys, spans), code, SortEntries(entries))
  {
    var sortedEntries := SortEntries(entries);
    WellFormedPermutation(sortedEntries, entries);
    keys', spans' := keys, spans;
    for j := 0 to |sortedEntries|
      invariant AllWellFormed(sortedEntries[..j])
      invariant Table(keys', spans') == FoldModule(Table(keys, spans), code, sortedEntries[..j])
    {
      var entry := sortedEntries[j];
      var key := SessionKey(code, entry.location, entry.day, entry.details);
      var span := ReadRange(entry);
      if span.None? {
        assert !WellFormed(sortedEntries[j]);
        return false, keys', spans';
      }
      FoldModuleSnoc(Table(keys, spans), code, sortedEntries, j);
      keys', spans' := StoreRange(keys', spans', key, span.value.start, span.value.end);
    }
    assert sortedEntries[..|sortedEntries|] == sortedEntries;
    ok := true;
  }

  /**
   * `combine_entries(data)`: every module's entries sorted and stored in
   * turn, then formatted; None where the source raises on a time it cannot
   * read.
   */
  method CombineEntries(data: seq<ModuleEntries>) returns (out: Option<seq<ModuleRecords>>)
    ensures out.Some? <==> AllModulesWellFormed(data)
    ensures out.Some? ==> out.value == CombineSpec(data)
  {
    var keys: seq<SessionKey> := [];
    var spans: map<SessionKey, Span> := map[];
    for i := 0 to |data|
      invariant AllModulesWellFormed(data[..i])
      invariant Table(keys, spans) == Consolidate(data[..i])
    {
      var ok;
      ok, keys, spans := StoreModule(keys, spans, data[i].code, data[i].entries);
      if !ok {
        assert !AllWellFormed(data[i].entries);
        return None;
      }
      ConsolidateSnoc(data, i);
    }
    assert data[..|data|] == data;
    var formatted := FormatCombined(keys, spans);
    out := Some(formatted);
  }
}
