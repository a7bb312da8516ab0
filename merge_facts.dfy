/**
 * What `combine_entries` (merge.py) guarantees, proved about the
 * specification `Merge.CombineSpec` that the method `Merge.CombineEntries`
 * is verified against.
 */
module MergeFacts {
  import opened Wrappers
  import opened Seqs
  import Strings
  import Clock
  import opened Merge

  // ---------------------------------------------------------------- which keys are stored

  /** Some entry of `entries`, listed under module `code`, has key `k`. */
  ghost predicate ObservedIn(code: string, entries: seq<Entry>, k: SessionKey) {
    exists e :: e in entries && KeyOf(code, e) == k
  }

  /** Some entry of some module of the input has key `k`. */
  ghost predicate Observed(data: seq<ModuleEntries>, k: SessionKey) {
    exists i :: 0 <= i < |data| && ObservedIn(data[i].code, data[i].entries, k)
  }

  lemma {:induction false} FoldModuleKeys(t: Table, m: string, es: seq<Entry>, k: SessionKey)
    requires AllWellFormed(es)
    ensures k in FoldModule(t, m, es).spans <==> k in t.spans || ObservedIn(m, es, k)
  {
    if es != [] {
      var init, last := es[..|es| - 1], es[|es| - 1];
      assert last in es;
      FoldModuleKeys(t, m, init, k);
      StepFacts(FoldModule(t, m, init), KeyOf(m, last), EntrySpan(last).value);
      ObservedInSnoc(m, es, k);
    }
  }

  lemma ObservedInSnoc(m: string, es: seq<Entry>, k: SessionKey)
    requires es != []
    ensures ObservedIn(m, es, k) <==> ObservedIn(m, es[..|es| - 1], k) || KeyOf(m, es[|es| - 1]) == k
  {
    var init, last := es[..|es| - 1], es[|es| - 1];
    assert es == init + [last];
    if ObservedIn(m, es, k) && KeyOf(m, last) != k {
      var e :| e in es && KeyOf(m, e) == k;
      assert e in init;
    }
  }

  /** One entry adds its key, and the span stored for it starts no later than the entry's range. */
  lemma StepFacts(t: Table, k: SessionKey, sp: Span)
    ensures forall x :: x in Step(t, k, sp).spans <==> x in t.spans || x == k
    ensures Step(t, k, sp).spans[k].start <= sp.start
    ensures Step(t, k, sp).spans[k].start == sp.start || (k in t.spans && Step(t, k, sp).spans[k].start == t.spans[k].start)
    ensures forall x :: x in t.spans && x != k ==> Step(t, k, sp).spans[x] == t.spans[x]
  {
  }

  lemma ObservedSnoc(data: seq<ModuleEntries>, k: SessionKey)
    requires data != []
    ensures Observed(data, k) <==> Observed(data[..|data| - 1], k) || ObservedIn(data[|data| - 1].code, data[|data| - 1].entries, k)
  {
    var init := data[..|data| - 1];
    if Observed(init, k) {
      var i :| 0 <= i < |init| && ObservedIn(init[i].code, init[i].entries, k);
      assert data[i] == init[i];
    }
    if Observed(data, k) {
      var i :| 0 <= i < |data| && ObservedIn(data[i].code, data[i].entries, k);
      if i < |init| {
        assert data[i] == init[i];
      }
    }
  }

  lemma ObservedInPermutation(code: string, a: seq<Entry>, b: seq<Entry>, k: SessionKey)
    requires multiset(a) == multiset(b)
    ensures ObservedIn(code, a, k) <==> ObservedIn(code, b, k)
  {
    if ObservedIn(code, a, k) {
      var e :| e in a && KeyOf(code, e) == k;
      assert e in multiset(b);
    }
    if ObservedIn(code, b, k) {
      var e :| e in b && KeyOf(code, e) == k;
      assert e in multiset(a);
    }
  }

  /** The dict ends up holding exactly the keys of the input's entries (merge.py:21, 44). */
  lemma {:induction false} ConsolidateKeys(data: seq<ModuleEntries>, k: SessionKey)
    requires AllModulesWellFormed(data)
    ensures k in Consolidate(data).spans <==> Observed(data, k)
  {
    if data != [] {
      var init, last := data[..|data| - 1], data[|data| - 1];
      assert AllModulesWellFormed(init);
      ConsolidateKeys(init, k);
      var sorted := SortEntries(last.entries);
      assert forall e :: e in sorted ==> e in multiset(last.entries);
      FoldModuleKeys(Consolidate(init), last.code, sorted, k);
      ObservedInPermutation(last.code, sorted, last.entries, k);
      ObservedSnoc(data, k);
    }
  }

  // ---------------------------------------------------------------- the shape of the output

  predicate DistinctModules(out: seq<ModuleRecords>) {
    forall i, j :: 0 <= i < j < |out| ==> out[i].code != out[j].code
  }

  predicate HasModule(out: seq<ModuleRecords>, m: string) {
    exists i :: 0 <= i < |out| && out[i].code == m
  }

  /** The records of module `m`'s stored keys, in insertion order: what its output list holds. */
  function RecordsOfModule(keys: seq<SessionKey>, spans: map<SessionKey, Span>, m: string): seq<Record>
    requires forall k :: k in keys ==> k in spans
  {
    if keys == [] then []
    else
      var k := keys[|keys| - 1];
      assert k in keys;
      RecordsOfModule(keys[..|keys| - 1], spans, m) + (if k.code == m then [RecordOf(k, spans[k])] else [])
  }

  lemma RecordsOfModuleSnoc(keys: seq<SessionKey>, spans: map<SessionKey, Span>, k: SessionKey, m: string)
    requires forall x :: x in keys + [k] ==> x in spans
    ensures RecordsOfModule(keys + [k], spans, m) ==
      RecordsOfModule(keys, spans, m) + (if k.code == m then [RecordOf(k, spans[k])] else [])
  {
    assert (keys + [k])[..|keys|] == keys;
  }

  lemma {:induction false} RecordsOfModuleNone(keys: seq<SessionKey>, spans: map<SessionKey, Span>, m: string)
    requires forall x :: x in keys ==> x in spans && x.code != m
    ensures RecordsOfModule(keys, spans, m) == []
  {
    if keys != [] {
      assert keys[|keys| - 1] in keys;
      RecordsOfModuleNone(keys[..|keys| - 1], spans, m);
    }
  }

  /** The records of one module never repeat a (location, day, details) triple. */
  predicate UniqueSessions(records: seq<Record>) {
    forall a, b :: 0 <= a < b < |records| ==>
      (records[a].location, records[a].day, records[a].details) != (records[b].location, records[b].day, records[b].details)
  }

  /** The session key a record of module `m` was written from. */
  function KeyOfRecord(m: string, r: Record): SessionKey {
    SessionKey(m, r.location, r.day, r.details)
  }

  /** Each record of a module's list is its key's formatted span, and with distinct keys no session repeats. */
  lemma {:induction false} RecordsOfModuleSound(keys: seq<SessionKey>, spans: map<SessionKey, Span>, m: string)
    requires forall k :: k in keys ==> k in spans
    requires Distinct(keys)
    ensures UniqueSessions(RecordsOfModule(keys, spans, m))
    ensures forall r :: r in RecordsOfModule(keys, spans, m) ==>
      KeyOfRecord(m, r) in keys && r == RecordOf(KeyOfRecord(m, r), spans[KeyOfRecord(m, r)])
  {
    if keys != [] {
      var init, last := keys[..|keys| - 1], keys[|keys| - 1];
      assert keys == init + [last];
      assert Distinct(init);
      RecordsOfModuleSound(init, spans, m);
      assert forall i :: 0 <= i < |init| ==> init[i] == keys[i] && keys[i] != last;
      assert last !in init;
      var rs0 := RecordsOfModule(init, spans, m);
      assert forall a :: 0 <= a < |rs0| ==> KeyOfRecord(m, rs0[a]) in init;
    }
  }

  /** Every stored key of module `m` has its record in `m`'s list. */
  lemma {:induction false} RecordsOfModuleComplete(keys: seq<SessionKey>, spans: map<SessionKey, Span>, k: SessionKey)
    requires forall x :: x in keys ==> x in spans
    requires k in keys
    ensures RecordOf(k, spans[k]) in RecordsOfModule(keys, spans, k.code)
  {
    var init, last := keys[..|keys| - 1], keys[|keys| - 1];
    assert keys == init + [last];
    if k != last {
      RecordsOfModuleComplete(init, spans, k);
    }
  }

  /** Each module's list holds the records of that module's keys, in order. */
  ghost predicate ListsMatch(out: seq<ModuleRecords>, keys: seq<SessionKey>, spans: map<SessionKey, Span>)
    requires forall k :: k in keys ==> k in spans
  {
    forall i :: 0 <= i < |out| ==> out[i].records == RecordsOfModule(keys, spans, out[i].code)
  }

  /** A module is listed exactly when it has a key. */
  ghost predicate ListedModules(out: seq<ModuleRecords>, keys: seq<SessionKey>) {
    forall m :: HasModule(out, m) <==> exists k :: k in keys && k.code == m
  }

  /**
   * `out` lists the keys of `keys` grouped by module: each module once,
   * each list holding that module's keys in order, and a list for exactly
   * the modules that have a key.
   */
  ghost predicate GroupedBy(out: seq<ModuleRecords>, keys: seq<SessionKey>, spans: map<SessionKey, Span>)
    requires forall k :: k in keys ==> k in spans
  {
    DistinctModules(out) && ListsMatch(out, keys, spans) && ListedModules(out, keys)
  }

  lemma NewModuleLists(out: seq<ModuleRecords>, keys: seq<SessionKey>, spans: map<SessionKey, Span>, k: SessionKey)
    requires forall x :: x in keys + [k] ==> x in spans
    requires ListsMatch(out, keys, spans) && ListedModules(out, keys)
    requires ModuleIndex(out, k.code) < 0
    ensures ListsMatch(AddRecord(out, k.code, RecordOf(k, spans[k])), keys + [k], spans)
  {
    var rec := RecordOf(k, spans[k]);
    var out' := AddRecord(out, k.code, rec);
    var keys' := keys + [k];
    assert out' == out + [ModuleRecords(k.code, [rec])];
    assert !HasModule(out, k.code);
    RecordsOfModuleNone(keys, spans, k.code);
    RecordsOfModuleSnoc(keys, spans, k, k.code);
    forall i | 0 <= i < |out|
      ensures out'[i].records == RecordsOfModule(keys', spans, out'[i].code)
    {
      assert out'[i] == out[i];
      RecordsOfModuleSnoc(keys, spans, k, out[i].code);
    }
  }

  lemma NewModuleListed(out: seq<ModuleRecords>, keys: seq<SessionKey>, rec: Record, k: SessionKey)
    requires ListedModules(out, keys)
    requires ModuleIndex(out, k.code) < 0
    ensures ListedModules(AddRecord(out, k.code, rec), keys + [k])
  {
    var out' := AddRecord(out, k.code, rec);
    var keys' := keys + [k];
    assert out' == out + [ModuleRecords(k.code, [rec])];
    forall m ensures HasModule(out', m) <==> exists x :: x in keys' && x.code == m {
      if HasModule(out, m) {
        var i :| 0 <= i < |out| && out[i].code == m;
        assert out'[i].code == m;
      }
      if HasModule(out', m) && m != k.code {
        var i :| 0 <= i < |out'| && out'[i].code == m;
        assert out[i].code == m;
      }
      assert out'[|out|].code == k.code;
    }
  }

  lemma KnownModuleLists(out: seq<ModuleRecords>, keys: seq<SessionKey>, spans: map<SessionKey, Span>, k: SessionKey)
    requires forall x :: x in keys + [k] ==> x in spans
    requires ListsMatch(out, keys, spans) && DistinctModules(out)
    requires ModuleIndex(out, k.code) >= 0
    ensures ListsMatch(AddRecord(out, k.code, RecordOf(k, spans[k])), keys + [k], spans)
  {
    var rec := RecordOf(k, spans[k]);
    var out' := AddRecord(out, k.code, rec);
    var keys' := keys + [k];
    var idx := ModuleIndex(out, k.code);
    assert out' == out[idx := ModuleRecords(k.code, out[idx].records + [rec])];
    RecordsOfModuleSnoc(keys, spans, k, k.code);
    forall i | 0 <= i < |out'| && i != idx
      ensures out'[i].records == RecordsOfModule(keys', spans, out'[i].code)
    {
      assert out'[i] == out[i];
      RecordsOfModuleSnoc(keys, spans, k, out[i].code);
    }
  }

  lemma KnownModuleListed(out: seq<ModuleRecords>, keys: seq<SessionKey>, rec: Record, k: SessionKey)
    requires ListedModules(out, keys)
    requires ModuleIndex(out, k.code) >= 0
    ensures ListedModules(AddRecord(out, k.code, rec), keys + [k])
  {
    var out' := AddRecord(out, k.code, rec);
    var keys' := keys + [k];
    var idx := ModuleIndex(out, k.code);
    assert out' == out[idx := ModuleRecords(k.code, out[idx].records + [rec])];
    forall m ensures HasModule(out', m) <==> exists x :: x in keys' && x.code == m {
      if HasModule(out, m) {
        var i :| 0 <= i < |out| && out[i].code == m;
        assert out'[i].code == m;
      }
      if HasModule(out', m) {
        var i :| 0 <= i < |out'| && out'[i].code == m;
        assert out[i].code == m;
      }
    }
  }

  /**
   * Modules are listed in the order their first key appears: whenever a
   * key of a later-listed module occurs, a key of each earlier-listed
   * module occurred before it.
   */
  ghost predicate FirstSeenOrder(out: seq<ModuleRecords>, keys: seq<SessionKey>) {
    forall i, j, q :: 0 <= i < j < |out| && 0 <= q < |keys| && keys[q].code == out[j].code ==>
      exists p :: 0 <= p < q && keys[p].code == out[i].code
  }

  /** Every listed module has a key at some position. */
  lemma ListedHasIndex(out: seq<ModuleRecords>, keys: seq<SessionKey>, i: nat)
    requires ListedModules(out, keys) && i < |out|
    ensures exists p :: 0 <= p < |keys| && keys[p].code == out[i].code
  {
    assert HasModule(out, out[i].code);
    var x :| x in keys && x.code == out[i].code;
  }

  lemma NewModuleOrder(out: seq<ModuleRecords>, keys: seq<SessionKey>, rec: Record, k: SessionKey)
    requires FirstSeenOrder(out, keys) && ListedModules(out, keys)
    requires ModuleIndex(out, k.code) < 0
    ensures FirstSeenOrder(AddRecord(out, k.code, rec), keys + [k])
  {
    var out' := AddRecord(out, k.code, rec);
    var keys' := keys + [k];
    assert out' == out + [ModuleRecords(k.code, [rec])];
    forall i, j, q | 0 <= i < j < |out'| && 0 <= q < |keys'| && keys'[q].code == out'[j].code
      ensures exists p :: 0 <= p < q && keys'[p].code == out'[i].code
    {
      assert out'[i] == out[i];
      if j < |out| {
        assert out'[j] == out[j];
        assert q < |keys|;
        assert keys'[q] == keys[q];
        var p :| 0 <= p < q && keys[p].code == out[i].code;
        assert keys'[p] == keys[p];
      } else {
        // no earlier key has the new module, or it would be listed already
        assert !HasModule(out, k.code);
        assert forall x :: x in keys ==> x.code != k.code;
        assert q == |keys|;
        ListedHasIndex(out, keys, i);
        var p :| 0 <= p < |keys| && keys[p].code == out[i].code;
        assert keys'[p] == keys[p];
      }
    }
    assert FirstSeenOrder(out', keys');
  }

  lemma KnownModuleOrder(out: seq<ModuleRecords>, keys: seq<SessionKey>, rec: Record, k: SessionKey)
    requires FirstSeenOrder(out, keys) && ListedModules(out, keys)
    requires ModuleIndex(out, k.code) >= 0
    ensures FirstSeenOrder(AddRecord(out, k.code, rec), keys + [k])
  {
    var out' := AddRecord(out, k.code, rec);
    var keys' := keys + [k];
    var idx := ModuleIndex(out, k.code);
    assert out' == out[idx := ModuleRecords(k.code, out[idx].records + [rec])];
    assert |out'| == |out| && forall i :: 0 <= i < |out| ==> out'[i].code == out[i].code;
    forall i, j, q | 0 <= i < j < |out'| && 0 <= q < |keys'| && keys'[q].code == out'[j].code
      ensures exists p :: 0 <= p < q && keys'[p].code == out'[i].code
    {
      var p: nat;
      if q < |keys| {
        assert keys'[q] == keys[q];
        p :| p < q && keys[p].code == out[i].code;
      } else {
        ListedHasIndex(out, keys, i);
        p :| p < |keys| && keys[p].code == out[i].code;
      }
      assert keys'[p] == keys[p];
    }
    assert FirstSeenOrder(out', keys');
  }

  /** A list is opened only for a module not listed yet, so no module is listed twice. */
  lemma AddRecordDistinct(out: seq<ModuleRecords>, m: string, rec: Record)
    requires DistinctModules(out)
    ensures DistinctModules(AddRecord(out, m, rec))
  {
  }

  /**
   * The formatting loop groups the stored keys by module: one list per
   * module, each module once, and each list holds that module's keys in
   * insertion order (merge.py:47-56).
   */
  lemma {:induction false} FormatTableShape(keys: seq<SessionKey>, spans: map<SessionKey, Span>)
    requires forall k :: k in keys ==> k in spans
    ensures GroupedBy(FormatTable(keys, spans), keys, spans)
    ensures FirstSeenOrder(FormatTable(keys, spans), keys)
  {
    if keys != [] {
      var init, k := keys[..|keys| - 1], keys[|keys| - 1];
      assert keys == init + [k];
      FormatTableShape(init, spans);
      var out0 := FormatTable(init, spans);
      var rec := RecordOf(k, spans[k]);
      AddRecordDistinct(out0, k.code, rec);
      if ModuleIndex(out0, k.code) < 0 {
        NewModuleLists(out0, init, spans, k);
        NewModuleListed(out0, init, rec, k);
        NewModuleOrder(out0, init, rec, k);
      } else {
        KnownModuleLists(out0, init, spans, k);
        KnownModuleListed(out0, init, rec, k);
        KnownModuleOrder(out0, init, rec, k);
      }
    }
  }

  /** A module with an entry contributes a key, and every stored key comes from an entry of its module. */
  lemma ObservedModule(data: seq<ModuleEntries>, m: string)
    ensures (exists k :: Observed(data, k) && k.code == m) <==>
      exists i :: 0 <= i < |data| && data[i].code == m && |data[i].entries| > 0
  {
    if exists k :: Observed(data, k) && k.code == m {
      var k :| Observed(data, k) && k.code == m;
      var i :| 0 <= i < |data| && ObservedIn(data[i].code, data[i].entries, k);
      var e :| e in data[i].entries && KeyOf(data[i].code, e) == k;
      assert data[i].code == m && |data[i].entries| > 0;
    }
    if exists i :: 0 <= i < |data| && data[i].code == m && |data[i].entries| > 0 {
      var i :| 0 <= i < |data| && data[i].code == m && |data[i].entries| > 0;
      var k := KeyOf(m, data[i].entries[0]);
      assert ObservedIn(data[i].code, data[i].entries, k);
      assert Observed(data, k);
    }
  }

  /**
   * Only modules with at least one entry appear in the output, each once
   * (merge.py:47-50).
   */
  lemma CombinedModules(data: seq<ModuleEntries>)
    requires AllModulesWellFormed(data)
    ensures DistinctModules(CombineSpec(data))
    ensures forall m :: HasModule(CombineSpec(data), m) <==>
      exists i :: 0 <= i < |data| && data[i].code == m && |data[i].entries| > 0
  {
    var t := Consolidate(data);
    var out := CombineSpec(data);
    FormatTableShape(t.keys, t.spans);
    forall m ensures HasModule(out, m) <==> exists i :: 0 <= i < |data| && data[i].code == m && |data[i].entries| > 0 {
      ObservedModule(data, m);
      forall k ensures k in t.keys <==> Observed(data, k) {
        ConsolidateKeys(data, k);
      }
    }
  }

  /**
   * Each output record is the formatted span stored for a key seen in the
   * input, with that key's location, day and details; no module lists the
   * same session twice (merge.py:21, 48-56).
   */
  lemma CombinedRecordsAreSessions(data: seq<ModuleEntries>)
    requires AllModulesWellFormed(data)
    ensures var t, out := Consolidate(data), CombineSpec(data);
      forall i :: 0 <= i < |out| ==>
        && UniqueSessions(out[i].records)
        && forall r :: r in out[i].records ==>
             && Observed(data, KeyOfRecord(out[i].code, r))
             && KeyOfRecord(out[i].code, r) in t.spans
             && r == RecordOf(KeyOfRecord(out[i].code, r), t.spans[KeyOfRecord(out[i].code, r)])
  {
    var t, out := Consolidate(data), CombineSpec(data);
    FormatTableShape(t.keys, t.spans);
    forall i | 0 <= i < |out|
      ensures UniqueSessions(out[i].records)
      ensures forall r :: r in out[i].records ==>
        && Observed(data, KeyOfRecord(out[i].code, r))
        && KeyOfRecord(out[i].code, r) in t.spans
        && r == RecordOf(KeyOfRecord(out[i].code, r), t.spans[KeyOfRecord(out[i].code, r)])
    {
      var m := out[i].code;
      RecordsOfModuleSound(t.keys, t.spans, m);
      forall r | r in out[i].records ensures Observed(data, KeyOfRecord(m, r)) {
        ConsolidateKeys(data, KeyOfRecord(m, r));
      }
    }
  }

  /** Every key seen in the input gives a record under its module (merge.py:47-56). */
  lemma CombinedCoversSessions(data: seq<ModuleEntries>, k: SessionKey)
    requires AllModulesWellFormed(data)
    requires Observed(data, k)
    ensures var t, out := Consolidate(data), CombineSpec(data);
      k in t.spans && exists i :: 0 <= i < |out| && out[i].code == k.code && RecordOf(k, t.spans[k]) in out[i].records
  {
    var t, out := Consolidate(data), CombineSpec(data);
    FormatTableShape(t.keys, t.spans);
    ConsolidateKeys(data, k);
    assert HasModule(out, k.code);
    var i :| 0 <= i < |out| && out[i].code == k.code;
    RecordsOfModuleComplete(t.keys, t.spans, k);
  }

  // ---------------------------------------------------------------- the effect of the sort

  /** Some entry among the first `n` has key `k` and starts exactly where the span stored for it starts. */
  ghost predicate StartWitnessed(t: Table, m: string, es: seq<Entry>, n: nat, k: SessionKey)
    requires n <= |es| && k in t.spans
  {
    exists j :: 0 <= j < n && KeyOf(m, es[j]) == k && SortStart(es[j]) == t.spans[k].start
  }

  lemma {:induction false} StartsWitnessed(t: Table, m: string, es: seq<Entry>, n: nat)
    requires AllWellFormed(es) && n <= |es|
    requires forall k :: k in t.spans ==> k.code != m
    ensures forall k :: k in FoldModule(t, m, es[..n]).spans && k.code == m ==>
      StartWitnessed(FoldModule(t, m, es[..n]), m, es, n, k)
  {
    if n > 0 {
      StartsWitnessed(t, m, es, n - 1);
      var prefix := es[..n];
      assert prefix[..n - 1] == es[..n - 1];
      var before := FoldModule(t, m, es[..n - 1]);
      var after := FoldModule(t, m, prefix);
      var e := es[n - 1];
      assert e in es;
      SortStartIsStart(e);
      assert after == Step(before, KeyOf(m, e), EntrySpan(e).value);
      StepFacts(before, KeyOf(m, e), EntrySpan(e).value);
      forall k | k in after.spans && k.code == m
        ensures StartWitnessed(after, m, es, n, k)
      {
        if k == KeyOf(m, e) && after.spans[k].start == SortStart(e) {
          assert KeyOf(m, es[n - 1]) == k;
        } else {
          // the stored start is the one kept from before this entry
          assert k in before.spans && after.spans[k].start == before.spans[k].start;
          assert StartWitnessed(before, m, es, n - 1, k);
          var j :| 0 <= j < n - 1 && KeyOf(m, es[j]) == k && SortStart(es[j]) == before.spans[k].start;
        }
      }
    }
  }

  /**
   * Because a module's entries are visited by day and then start time
   * (merge.py:18), a merge never moves the stored start: when an entry's
   * key is already stored, the stored start is no later than the entry's
   * start, so `min` of the two starts (merge.py:37) is the stored one.
   */
  lemma MergeKeepsStoredStart(t: Table, m: string, es: seq<Entry>, n: nat)
    requires AllWellFormed(es) && Sorted(es) && n < |es|
    requires forall k :: k in t.spans ==> k.code != m
    requires KeyOf(m, es[n]) in FoldModule(t, m, es[..n]).spans
    ensures FoldModule(t, m, es[..n]).spans[KeyOf(m, es[n])].start <= SortStart(es[n])
  {
    StartsWitnessed(t, m, es, n);
    var k := KeyOf(m, es[n]);
    var j :| 0 <= j < n && KeyOf(m, es[j]) == k && SortStart(es[j]) == FoldModule(t, m, es[..n]).spans[k].start;
    assert KeyLe(es[j], es[n]);
  }
}

module MergeExamples {
  import opened Wrappers
  import Strings
  import Clock
  import opened Merge

  /** Two entries of one day come out of the sort by start time, the first of equal starts first. */
  lemma SortPair(a: Entry, b: Entry)
    requires a.day == b.day
    ensures SortStart(a) <= SortStart(b) ==> SortEntries([a, b]) == [a, b]
    ensures SortStart(b) < SortStart(a) ==> SortEntries([a, b]) == [b, a]
  {
    assert [a, b][..1] == [a];
    assert SortEntries([a]) == [a];
  }

  lemma ConsolidateOne(code: string, es: seq<Entry>)
    requires AllWellFormed(es)
    ensures AllWellFormed(SortEntries(es))
    ensures Consolidate([ModuleEntries(code, es)]) == FoldModule(EmptyTable, code, SortEntries(es))
  {
    var data := [ModuleEntries(code, es)];
    assert data[..0] == [];
    assert forall e :: e in SortEntries(es) ==> e in multiset(es);
  }

  lemma FoldTwo(t: Table, code: string, a: Entry, b: Entry)
    requires WellFormed(a) && WellFormed(b)
    ensures FoldModule(t, code, [a, b]) == Step(Step(t, KeyOf(code, a), EntrySpan(a).value), KeyOf(code, b), EntrySpan(b).value)
  {
    assert [a, b][..1] == [a] && [a][..0] == [];
    assert [a, b][1] == b && [a][0] == a;
    assert FoldModule(t, code, [a]) == Step(t, KeyOf(code, a), EntrySpan(a).value);
  }

  lemma FormatOne(k: SessionKey, spans: map<SessionKey, Span>)
    requires k in spans
    ensures FormatTable([k], spans) == [ModuleRecords(k.code, [RecordOf(k, spans[k])])]
  {
    assert [k][..0] == [];
    assert FormatTable([], spans) == [];
    assert ModuleIndex([], k.code) == -1;
  }

  lemma FormatTwo(k1: SessionKey, k2: SessionKey, spans: map<SessionKey, Span>)
    requires k1 in spans && k2 in spans && k1.code == k2.code
    ensures FormatTable([k1, k2], spans) == [ModuleRecords(k1.code, [RecordOf(k1, spans[k1]), RecordOf(k2, spans[k2])])]
  {
    assert [k1, k2][..1] == [k1];
    FormatOne(k1, spans);
    var r1, r2 := RecordOf(k1, spans[k1]), RecordOf(k2, spans[k2]);
    var out1 := [ModuleRecords(k1.code, [r1])];
    assert ModuleIndex(out1, k2.code) == 0;
    assert FormatTable([k1, k2], spans) == AddRecord(out1, k2.code, r2);
    assert [r1] + [r2] == [r1, r2];
  }

  /** The dict after two ranges of one session: one key, holding the hull or the later range. */
  lemma SameSessionTable(code: string, a: Entry, b: Entry)
    requires WellFormed(a) && WellFormed(b)
    requires KeyOf(code, a) == KeyOf(code, b)
    ensures var first, second := EntrySpan(a).value, EntrySpan(b).value;
      FoldModule(EmptyTable, code, [a, b]) ==
        Table([KeyOf(code, a)], map[KeyOf(code, a) := if Touches(first, second) then Hull(first, second) else second])
  {
    FoldTwo(EmptyTable, code, a, b);
    StepTwiceSameKey(KeyOf(code, a), EntrySpan(a).value, EntrySpan(b).value);
  }

  lemma StepTwiceSameKey(k: SessionKey, first: Span, second: Span)
    ensures Step(Step(EmptyTable, k, first), k, second) ==
      Table([k], map[k := if Touches(first, second) then Hull(first, second) else second])
  {
    var t1 := Table([k], map[k := first]);
    assert Step(EmptyTable, k, first) == t1;
    var sp := if Touches(first, second) then Hull(first, second) else second;
    assert t1.spans[k := sp] == map[k := sp];
  }

  lemma StepTwiceTwoKeys(ka: SessionKey, kb: SessionKey, spa: Span, spb: Span)
    requires ka != kb
    ensures Step(Step(EmptyTable, ka, spa), kb, spb) == Table([ka, kb], map[ka := spa, kb := spb])
  {
    var t1 := Table([ka], map[ka := spa]);
    assert Step(EmptyTable, ka, spa) == t1;
    assert kb !in t1.spans;
  }

  /** One session whose two ranges are visited in the order `a`, `b`. */
  lemma SameSessionSorted(code: string, es: seq<Entry>, a: Entry, b: Entry)
    requires AllWellFormed(es) && WellFormed(a) && WellFormed(b)
    requires KeyOf(code, a) == KeyOf(code, b)
    requires SortEntries(es) == [a, b]
    ensures var first, second := EntrySpan(a).value, EntrySpan(b).value;
      CombineSpec([ModuleEntries(code, es)]) ==
        [ModuleRecords(code, [RecordOf(KeyOf(code, a), if Touches(first, second) then Hull(first, second) else second)])]
  {
    ConsolidateOne(code, es);
    SameSessionTable(code, a, b);
    var t := Consolidate([ModuleEntries(code, es)]);
    FormatOne(KeyOf(code, a), t.spans);
  }

  /**
   * Two ranges of one session (same module, location, day and details),
   * `a` starting no later than `b`: `b` is merged into `a` when the two
   * touch, and otherwise replaces it, so one record is written either way
   * and the earlier range can be lost (merge.py:31-44).
   */
  lemma SameSessionPair(code: string, a: Entry, b: Entry)
    requires WellFormed(a) && WellFormed(b)
    requires KeyOf(code, a) == KeyOf(code, b)
    requires SortStart(a) <= SortStart(b)
    ensures var first, second := EntrySpan(a).value, EntrySpan(b).value;
      && CombineSpec([ModuleEntries(code, [a, b])]) ==
           [ModuleRecords(code, [RecordOf(KeyOf(code, a), if Touches(first, second) then Hull(first, second) else second)])]
      && (SortStart(a) < SortStart(b) ==> CombineSpec([ModuleEntries(code, [b, a])]) == CombineSpec([ModuleEntries(code, [a, b])]))
  {
    SortPair(a, b);
    SameSessionSorted(code, [a, b], a, b);
    if SortStart(a) < SortStart(b) {
      SortPair(b, a);
      SameSessionSorted(code, [b, a], a, b);
    }
  }

  /** The dict after two ranges of different sessions: both keys, in visiting order. */
  lemma DistinctSessionsTable(code: string, a: Entry, b: Entry)
    requires WellFormed(a) && WellFormed(b)
    requires KeyOf(code, a) != KeyOf(code, b)
    ensures FoldModule(EmptyTable, code, [a, b]) ==
      Table([KeyOf(code, a), KeyOf(code, b)], map[KeyOf(code, a) := EntrySpan(a).value, KeyOf(code, b) := EntrySpan(b).value])
  {
    FoldTwo(EmptyTable, code, a, b);
    StepTwiceTwoKeys(KeyOf(code, a), KeyOf(code, b), EntrySpan(a).value, EntrySpan(b).value);
  }

  /** Two entries of one module on the same day but different sessions give two records, earlier start first. */
  lemma DistinctSessionsPair(code: string, a: Entry, b: Entry)
    requires WellFormed(a) && WellFormed(b)
    requires a.day == b.day && KeyOf(code, a) != KeyOf(code, b)
    requires SortStart(a) <= SortStart(b)
    ensures CombineSpec([ModuleEntries(code, [a, b])]) ==
      [ModuleRecords(code, [RecordOf(KeyOf(code, a), EntrySpan(a).value), RecordOf(KeyOf(code, b), EntrySpan(b).value)])]
  {
    SortPair(a, b);
    ConsolidateOne(code, [a, b]);
    DistinctSessionsTable(code, a, b);
    var t := Consolidate([ModuleEntries(code, [a, b])]);
    FormatTwo(KeyOf(code, a), KeyOf(code, b), t.spans);
  }

  /** A single entry written the canonical way comes back with its time unchanged, even across midnight. */
  lemma SingleEntryKeepsItsTime(code: string, e: Entry)
    requires Clock.IsCanonicalRange(e.time)
    ensures WellFormed(e)
    ensures CombineSpec([ModuleEntries(code, [e])]) == [ModuleRecords(code, [Record(e.location, e.day, e.details, e.time)])]
  {
    CanonicalEntrySpan(e);
    var sp := EntrySpan(e).value;
    ConsolidateOne(code, [e]);
    assert [e][..0] == [];
    assert SortEntries([e]) == [e];
    var k := KeyOf(code, e);
    assert FoldModule(EmptyTable, code, [e]) == Step(EmptyTable, k, sp);
    var t := Table([k], map[k := sp]);
    assert Step(EmptyTable, k, sp) == t;
    FormatOne(k, t.spans);
  }

  /** A canonical range is read as a span that is formatted back to the same text. */
  lemma CanonicalEntrySpan(e: Entry)
    requires Clock.IsCanonicalRange(e.time)
    ensures WellFormed(e)
    ensures Clock.FormatRange(EntrySpan(e).value.start, EntrySpan(e).value.end) == e.time
  {
    Clock.CanonicalRangeSplit(e.time);
    Clock.FormatOfCanonicalRange(e.time);
  }

  /** A range written as two strftime times is read back as those times, the end shifted past midnight when needed. */
  lemma WrittenRangeSpan(e: Entry, start: nat, end: nat)
    requires start < Clock.MinutesPerDay && end < Clock.MinutesPerDay
    requires e.time == Clock.Strftime(start) + "-" + Clock.Strftime(end)
    ensures EntrySpan(e) == Some(Shift(start, end))
    ensures SortStart(e) == start
  {
    var a, b := Clock.Strftime(start), Clock.Strftime(end);
    Clock.StrptimeOfStrftime(start);
    Clock.StrptimeOfStrftime(end);
    assert forall i :: 0 <= i < |a| ==> Clock.IsDigit(a[i]);
    assert forall i :: 0 <= i < |b| ==> Clock.IsDigit(b[i]);
    Strings.SplitTwo(a, b, '-');
  }

  const Lab := "BIUST - Lab 1"

  function Session(time: string): Entry {
    Entry(Lab, "Monday", time, "Lecture")
  }

  /** The times of the examples below as strftime writes them. */
  lemma ExampleTexts()
    ensures "0900-0950" == Clock.Strftime(540) + "-" + Clock.Strftime(590)
    ensures "1000-1050" == Clock.Strftime(600) + "-" + Clock.Strftime(650)
    ensures "0951-1040" == Clock.Strftime(591) + "-" + Clock.Strftime(640)
    ensures "0900-1040" == Clock.Strftime(540) + "-" + Clock.Strftime(640)
  {
    assert Clock.Strftime(540) == "0900" && Clock.Strftime(590) == "0950";
    assert Clock.Strftime(600) == "1000" && Clock.Strftime(650) == "1050";
    assert Clock.Strftime(591) == "0951" && Clock.Strftime(640) == "1040";
  }

  lemma MidnightTexts()
    ensures "2330-0030" == Clock.Strftime(1410) + "-" + Clock.Strftime(30)
    ensures "0030-0120" == Clock.Strftime(30) + "-" + Clock.Strftime(80)
  {
    assert Clock.Strftime(1410) == "2330" && Clock.Strftime(30) == "0030";
    assert Clock.Strftime(80) == "0120";
  }

  /** 0900-0950 then 1000-1050 of one session are ten minutes apart: only 1000-1050 is written. */
  lemma GapReplacesExample()
    ensures WellFormed(Session("0900-0950")) && WellFormed(Session("1000-1050"))
    ensures CombineSpec([ModuleEntries("CSI141", [Session("0900-0950"), Session("1000-1050")])])
      == [ModuleRecords("CSI141", [Record(Lab, "Monday", "Lecture", "1000-1050")])]
  {
    ExampleTexts();
    WrittenRangeSpan(Session("0900-0950"), 540, 590);
    WrittenRangeSpan(Session("1000-1050"), 600, 650);
    assert !Touches(Span(540, 590), Span(600, 650));
    SameSessionPair("CSI141", Session("0900-0950"), Session("1000-1050"));
  }

  /** 0900-0950 and 0951-1040 lie within the one-minute tolerance: they are written as 0900-1040. */
  lemma ToleranceMergesExample()
    ensures WellFormed(Session("0900-0950")) && WellFormed(Session("0951-1040"))
    ensures CombineSpec([ModuleEntries("CSI141", [Session("0900-0950"), Session("0951-1040")])])
      == [ModuleRecords("CSI141", [Record(Lab, "Monday", "Lecture", "0900-1040")])]
  {
    ExampleTexts();
    WrittenRangeSpan(Session("0900-0950"), 540, 590);
    WrittenRangeSpan(Session("0951-1040"), 591, 640);
    assert Touches(Span(540, 590), Span(591, 640));
    assert Hull(Span(540, 590), Span(591, 640)) == Span(540, 640);
    SameSessionPair("CSI141", Session("0900-0950"), Session("0951-1040"));
  }

  /**
   * 2330-0030 and 0030-0120 of one session: the sort puts 0030-0120 first,
   * 2330-0030 (kept as 23:30 to 00:30 the next day) does not touch it, so
   * it replaces it and 0030-0120 is lost.
   */
  lemma MidnightReplacesExample()
    ensures WellFormed(Session("2330-0030")) && WellFormed(Session("0030-0120"))
    ensures CombineSpec([ModuleEntries("CSI141", [Session("2330-0030"), Session("0030-0120")])])
      == [ModuleRecords("CSI141", [Record(Lab, "Monday", "Lecture", "2330-0030")])]
  {
    MidnightTexts();
    WrittenRangeSpan(Session("2330-0030"), 1410, 30);
    WrittenRangeSpan(Session("0030-0120"), 30, 80);
    assert !Touches(Span(30, 80), Span(1410, 1470));
    assert 1470 % Clock.MinutesPerDay == 30;
    SameSessionPair("CSI141", Session("0030-0120"), Session("2330-0030"));
  }
}
