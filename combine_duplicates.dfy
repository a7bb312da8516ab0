/**
 * `combine_schedules` (combine_json_duplicates.py) without its file I/O:
 * per module, events are grouped by (location, class, day) in order of
 * first appearance and each group collapses to one event spanning its
 * earliest start to its latest end, both read as times of day. Unlike
 * merge.py there is no midnight shift and no adjacency test.
 */
module CombineDuplicates {
  import opened Wrappers
  import opened Seqs
  import Strings
  import Clock

  /** One event of a module's list: `{"location", "class", "day", "time"}`. */
  datatype Event = Event(location: string, className: string, day: string, time: string)

  /** One item of `data['Module Schedules']`: a module code and its events. */
  datatype ModuleEvents = ModuleEvents(code: string, events: seq<Event>)

  /** The key of `event_groups`. */
  datatype GroupKey = GroupKey(location: string, className: string, day: string)

  function KeyOfEvent(e: Event): GroupKey {
    GroupKey(e.location, e.className, e.day)
  }

  // ---------------------------------------------------------------- parse_time / format_time_range

  /**
   * `parse_time`: the string must split on '-' into exactly two pieces
   * and strptime must accept both; None where the source raises.
   */
  function ParseTime(s: string): (r: Option<(nat, nat)>)
    ensures r.Some? ==> r.value.0 < Clock.MinutesPerDay && r.value.1 < Clock.MinutesPerDay
    ensures r.Some? ==> |Strings.Split(s, '-')| == 2
  {
    var parts := Strings.Split(s, '-');
    if |parts| != 2 then None
    else
      match (Clock.Strptime(parts[0]), Clock.Strptime(parts[1]))
      case (Some(a), Some(b)) => Some((a, b))
      case _ => None
  }

  /** `format_time_range`: both times as HHMM, joined by '-'. */
  function FormatTimeRange(start: nat, end: nat): string
    requires start < Clock.MinutesPerDay && end < Clock.MinutesPerDay
  {
    Clock.Strftime(start) + "-" + Clock.Strftime(end)
  }

  /** What `format_time_range` writes is a canonical `HHMM-HHMM` range. */
  lemma FormatTimeRangeCanonical(start: nat, end: nat)
    requires start < Clock.MinutesPerDay && end < Clock.MinutesPerDay
    ensures Clock.IsCanonicalRange(FormatTimeRange(start, end))
  {
    Clock.StrptimeOfStrftime(start);
    Clock.StrptimeOfStrftime(end);
    var r := FormatTimeRange(start, end);
    assert r[..4] == Clock.Strftime(start) && r[5..] == Clock.Strftime(end);
  }

  /** Every pair of times of day survives formatting and parsing. */
  lemma ParseOfFormat(start: nat, end: nat)
    requires start < Clock.MinutesPerDay && end < Clock.MinutesPerDay
    ensures ParseTime(FormatTimeRange(start, end)) == Some((start, end))
  {
    var s := FormatTimeRange(start, end);
    FormatTimeRangeCanonical(start, end);
    Clock.CanonicalRangeSplit(s);
    Clock.StrptimeOfStrftime(start);
    Clock.StrptimeOfStrftime(end);
    assert s[..4] == Clock.Strftime(start) && s[5..] == Clock.Strftime(end);
  }

  /** A canonical `HHMM-HHMM` string is parsed and formatted back to itself. */
  lemma FormatOfParse(s: string)
    requires Clock.IsCanonicalRange(s)
    ensures ParseTime(s).Some?
    ensures FormatTimeRange(ParseTime(s).value.0, ParseTime(s).value.1) == s
  {
    Clock.CanonicalRangeSplit(s);
    Clock.StrftimeOfStrptime(s[..4]);
    Clock.StrftimeOfStrptime(s[5..]);
    assert s == s[..4] + "-" + s[5..];
  }

  predicate Parses(e: Event) {
    ParseTime(e.time).Some?
  }

  predicate AllParse(events: seq<Event>) {
    forall e :: e in events ==> Parses(e)
  }

  function StartOf(e: Event): nat
    requires Parses(e)
  {
    ParseTime(e.time).value.0
  }

  function EndOf(e: Event): nat
    requires Parses(e)
  {
    ParseTime(e.time).value.1
  }

  // ---------------------------------------------------------------- the grouping

  /** The keys of `event_groups` in insertion order: each key at its first appearance. */
  function GroupKeys(events: seq<Event>): seq<GroupKey> {
    if events == [] then []
    else
      var keys := GroupKeys(events[..|events| - 1]);
      var k := KeyOfEvent(events[|events| - 1]);
      if k in keys then keys else keys + [k]
  }

  /** `event_groups[k]`: the events with key `k`, in input order. */
  function Members(events: seq<Event>, k: GroupKey): seq<Event> {
    if events == [] then []
    else
      var e := events[|events| - 1];
      Members(events[..|events| - 1], k) + (if KeyOfEvent(e) == k then [e] else [])
  }

  /** Some event has key `k`. */
  ghost predicate HasKey(events: seq<Event>, k: GroupKey) {
    exists e :: e in events && KeyOfEvent(e) == k
  }

  /** A group key is listed exactly when some event has it. */
  lemma {:induction false} GroupKeysMembers(events: seq<Event>)
    ensures forall k :: k in GroupKeys(events) <==> HasKey(events, k)
  {
    if events != [] {
      var init, last := events[..|events| - 1], events[|events| - 1];
      assert events == init + [last];
      GroupKeysMembers(init);
      forall k ensures HasKey(events, k) <==> HasKey(init, k) || KeyOfEvent(last) == k {
        if HasKey(events, k) && KeyOfEvent(last) != k {
          var e :| e in events && KeyOfEvent(e) == k;
          assert e in init;
        }
      }
    }
  }

  /** A key no event has has an empty group. */
  lemma {:induction false} MembersOfAbsentKey(events: seq<Event>, k: GroupKey)
    requires k !in GroupKeys(events)
    ensures Members(events, k) == []
  {
    if events != [] {
      var init := events[..|events| - 1];
      assert forall x :: x in GroupKeys(init) ==> x in GroupKeys(events);
      MembersOfAbsentKey(init, k);
    }
  }

  /** No key is listed twice. */
  lemma {:induction false} GroupKeysDistinct(events: seq<Event>)
    ensures Distinct(GroupKeys(events))
  {
    if events != [] {
      GroupKeysDistinct(events[..|events| - 1]);
    }
  }

  /**
   * Every event lands in the group of its own key, as often as it occurs
   * in the input, and in no other group (combine_json_duplicates.py:28-33).
   */
  lemma {:induction false} MembersCount(events: seq<Event>, k: GroupKey, x: Event)
    ensures Count(Members(events, k), x) == if KeyOfEvent(x) == k then Count(events, x) else 0
  {
    if events != [] {
      var init, last := events[..|events| - 1], events[|events| - 1];
      MembersCount(init, k, x);
      var m0 := Members(init, k);
      var extra := if KeyOfEvent(last) == k then [last] else [];
      assert Members(events, k) == m0 + extra;
      CountAppend(m0, extra, x);
      assert Count(events, x) == Count(init, x) + (if last == x then 1 else 0);
    }
  }

  lemma MembersAreKeyed(events: seq<Event>, k: GroupKey)
    ensures forall e :: e in Members(events, k) <==> e in events && KeyOfEvent(e) == k
  {
    forall e ensures e in Members(events, k) <==> e in events && KeyOfEvent(e) == k {
      MembersCount(events, k, e);
      CountPositive(Members(events, k), e);
      CountPositive(events, e);
    }
  }

  // ---------------------------------------------------------------- the hull

  /** `min(start_times)` over the parsed times of a group (combine_json_duplicates.py:38-42). */
  function EarliestStart(group: seq<Event>): nat
    requires |group| > 0 && AllParse(group)
  {
    var last := group[|group| - 1];
    assert last in group;
    if |group| == 1 then StartOf(last)
    else
      var init := group[..|group| - 1];
      assert forall e :: e in init ==> e in group;
      var m := EarliestStart(init);
      if StartOf(last) < m then StartOf(last) else m
  }

  /** `max(end_times)` over the parsed times of a group (combine_json_duplicates.py:38-43). */
  function LatestEnd(group: seq<Event>): nat
    requires |group| > 0 && AllParse(group)
  {
    var last := group[|group| - 1];
    assert last in group;
    if |group| == 1 then EndOf(last)
    else
      var init := group[..|group| - 1];
      assert forall e :: e in init ==> e in group;
      var m := LatestEnd(init);
      if EndOf(last) > m then EndOf(last) else m
  }

  /** The earliest start is no later than any event's start and is one of them. */
  lemma {:induction false} EarliestStartIsMin(group: seq<Event>)
    requires |group| > 0 && AllParse(group)
    ensures forall e :: e in group ==> EarliestStart(group) <= StartOf(e)
    ensures exists e :: e in group && StartOf(e) == EarliestStart(group)
  {
    var last := group[|group| - 1];
    assert last in group;
    if |group| > 1 {
      var init := group[..|group| - 1];
      assert group == init + [last];
      assert forall e :: e in init ==> e in group;
      EarliestStartIsMin(init);
      forall e | e in group ensures EarliestStart(group) <= StartOf(e) {
        if e != last {
          assert e in init;
        }
      }
      var w :| w in init && StartOf(w) == EarliestStart(init);
      assert w in group;
    }
  }

  /** The latest end is no earlier than any event's end and is one of them. */
  lemma {:induction false} LatestEndIsMax(group: seq<Event>)
    requires |group| > 0 && AllParse(group)
    ensures forall e :: e in group ==> EndOf(e) <= LatestEnd(group)
    ensures exists e :: e in group && EndOf(e) == LatestEnd(group)
  {
    var last := group[|group| - 1];
    assert last in group;
    if |group| > 1 {
      var init := group[..|group| - 1];
      assert group == init + [last];
      assert forall e :: e in init ==> e in group;
      LatestEndIsMax(init);
      forall e | e in group ensures EndOf(e) <= LatestEnd(group) {
        if e != last {
          assert e in init;
        }
      }
      var w :| w in init && EndOf(w) == LatestEnd(init);
      assert w in group;
    }
  }

  /** Both ends of the hull are times of day, as `format_time_range` needs. */
  lemma HullWithinDay(group: seq<Event>)
    requires |group| > 0 && AllParse(group)
    ensures EarliestStart(group) < Clock.MinutesPerDay && LatestEnd(group) < Clock.MinutesPerDay
  {
    EarliestStartIsMin(group);
    LatestEndIsMax(group);
  }

  /** The combined event of one group (combine_json_duplicates.py:38-51). */
  function CombineGroup(k: GroupKey, group: seq<Event>): Event
    requires |group| > 0 && AllParse(group)
  {
    HullWithinDay(group);
    Event(k.location, k.className, k.day, FormatTimeRange(EarliestStart(group), LatestEnd(group)))
  }

  /** Every key in `keys` has a non-empty group of parseable events. */
  ghost predicate GroupsReady(events: seq<Event>, keys: seq<GroupKey>) {
    forall k :: k in keys ==> |Members(events, k)| > 0 && AllParse(Members(events, k))
  }

  /** Each listed key has a non-empty group of parseable events. */
  lemma GroupsNonEmpty(events: seq<Event>)
    requires AllParse(events)
    ensures GroupsReady(events, GroupKeys(events))
  {
    GroupKeysMembers(events);
    forall k | k in GroupKeys(events)
      ensures |Members(events, k)| > 0 && AllParse(Members(events, k))
    {
      MembersAreKeyed(events, k);
      var e :| e in events && KeyOfEvent(e) == k;
      assert e in Members(events, k);
    }
  }

  /** The group of `k` is non-empty and every time in it parses. */
  ghost predicate GroupParses(events: seq<Event>, k: GroupKey) {
    |Members(events, k)| > 0 && AllParse(Members(events, k))
  }

  /** A listed group with a time that does not parse has that time in the input. */
  lemma GroupFailureRaises(events: seq<Event>, k: GroupKey)
    requires k in GroupKeys(events) && !GroupParses(events, k)
    ensures !AllParse(events)
  {
    GroupKeysMembers(events);
    MembersAreKeyed(events, k);
    var e :| e in events && KeyOfEvent(e) == k;
    assert e in Members(events, k);
    var x :| x in Members(events, k) && !Parses(x);
    assert x in events;
  }

  /**
   * `out` is the combined event of group `k`: it carries the key, a
   * canonical time that reads back as the earliest start and the latest
   * end of the group, each attained by one of its events.
   */
  ghost predicate IsHullOf(out: Event, k: GroupKey, group: seq<Event>)
    requires AllParse(group)
  {
    && KeyOfEvent(out) == k && Clock.IsCanonicalRange(out.time) && Parses(out)
    && (forall e :: e in group ==> StartOf(out) <= StartOf(e) && EndOf(e) <= EndOf(out))
    && (exists e :: e in group && StartOf(e) == StartOf(out))
    && (exists e :: e in group && EndOf(e) == EndOf(out))
  }

  /** The combined event of a group is its hull. */
  lemma CombineGroupIsHull(k: GroupKey, group: seq<Event>)
    requires |group| > 0 && AllParse(group)
    ensures IsHullOf(CombineGroup(k, group), k, group)
  {
    EarliestStartIsMin(group);
    LatestEndIsMax(group);
    HullWithinDay(group);
    var lo, hi := EarliestStart(group), LatestEnd(group);
    ParseOfFormat(lo, hi);
    FormatTimeRangeCanonical(lo, hi);
  }

  /** `combined_schedules[module]`: one combined event per group, in key order. */
  function CombineModule(events: seq<Event>): seq<Event>
    requires AllParse(events)
  {
    var keys := GroupKeys(events);
    GroupsNonEmpty(events);
    seq(|keys|, i requires 0 <= i < |keys| =>
      assert keys[i] in keys;
      CombineGroup(keys[i], Members(events, keys[i])))
  }

  predicate AllModulesParse(data: seq<ModuleEvents>) {
    forall i :: 0 <= i < |data| ==> AllParse(data[i].events)
  }

  /** `combined_schedules`: every module, in input order, with its combined events. */
  function CombineAll(data: seq<ModuleEvents>): seq<ModuleEvents>
    requires AllModulesParse(data)
  {
    seq(|data|, i requires 0 <= i < |data| => ModuleEvents(data[i].code, CombineModule(data[i].events)))
  }

  // ---------------------------------------------------------------- what the combined list holds

  /**
   * The i-th combined event carries the i-th group key and, read back, the
   * earliest start and the latest end among the module's events with that
   * key, each attained by one of them (combine_json_duplicates.py:36-52).
   */
  lemma CombinedEvent(events: seq<Event>, i: nat)
    requires AllParse(events) && i < |GroupKeys(events)|
    ensures |CombineModule(events)| == |GroupKeys(events)|
    ensures var out := CombineModule(events)[i];
      KeyOfEvent(out) == GroupKeys(events)[i] && Clock.IsCanonicalRange(out.time) && Parses(out)
    ensures var out := CombineModule(events)[i]; var k := GroupKeys(events)[i];
      (forall e :: e in events && KeyOfEvent(e) == k ==> StartOf(out) <= StartOf(e) && EndOf(e) <= EndOf(out))
      && (exists e :: e in events && KeyOfEvent(e) == k && StartOf(e) == StartOf(out))
      && (exists e :: e in events && KeyOfEvent(e) == k && EndOf(e) == EndOf(out))
  {
    var k := GroupKeys(events)[i];
    GroupsNonEmpty(events);
    var group := Members(events, k);
    MembersAreKeyed(events, k);
    EarliestStartIsMin(group);
    LatestEndIsMax(group);
    HullWithinDay(group);
    var lo, hi := EarliestStart(group), LatestEnd(group);
    ParseOfFormat(lo, hi);
    FormatTimeRangeCanonical(lo, hi);
  }

  /** The combined events carry the group keys, in the same order. */
  lemma CombinedKeyList(events: seq<Event>)
    requires AllParse(events)
    ensures |CombineModule(events)| == |GroupKeys(events)|
    ensures forall i :: 0 <= i < |GroupKeys(events)| ==> KeyOfEvent(CombineModule(events)[i]) == GroupKeys(events)[i]
  {
    GroupsNonEmpty(events);
    var keys := GroupKeys(events);
    if keys != [] {
      CombinedEvent(events, 0);
    }
    forall i | 0 <= i < |keys|
      ensures KeyOfEvent(CombineModule(events)[i]) == keys[i]
    {
      CombinedEvent(events, i);
    }
  }

  /**
   * The module's combined list has one event per distinct
   * (location, class, day) of its input, no two with the same key, and
   * every input event's key among them.
   */
  lemma CombinedKeys(events: seq<Event>)
    requires AllParse(events)
    ensures |CombineModule(events)| == |set e | e in events :: KeyOfEvent(e)|
    ensures forall i, j :: 0 <= i < j < |CombineModule(events)| ==>
      KeyOfEvent(CombineModule(events)[i]) != KeyOfEvent(CombineModule(events)[j])
    ensures forall e :: e in events ==> exists i :: 0 <= i < |CombineModule(events)| && KeyOfEvent(CombineModule(events)[i]) == KeyOfEvent(e)
  {
    var keys, out := GroupKeys(events), CombineModule(events);
    CombinedKeyList(events);
    GroupKeysMembers(events);
    GroupKeysDistinct(events);
    DistinctCardinality(keys);
    assert (set e | e in events :: KeyOfEvent(e)) == (set k | k in keys);
    forall e | e in events
      ensures exists i :: 0 <= i < |out| && KeyOfEvent(out[i]) == KeyOfEvent(e)
    {
      assert HasKey(events, KeyOfEvent(e));
      var i :| 0 <= i < |keys| && keys[i] == KeyOfEvent(e);
      assert KeyOfEvent(out[i]) == KeyOfEvent(e);
    }
  }

  /**
   * Groups come out in order of first appearance: before any event with the
   * key of group j there is an event with the key of every earlier group.
   */
  lemma {:induction false} GroupKeysFirstAppearance(events: seq<Event>, i: nat, j: nat, b: nat)
    requires i < j < |GroupKeys(events)| && b < |events| && KeyOfEvent(events[b]) == GroupKeys(events)[j]
    ensures exists a :: 0 <= a < b && KeyOfEvent(events[a]) == GroupKeys(events)[i]
  {
    var init, last := events[..|events| - 1], events[|events| - 1];
    var keys0 := GroupKeys(init);
    var ki, kj := GroupKeys(events)[i], GroupKeys(events)[j];
    GroupKeysMembers(init);
    GroupKeysDistinct(events);
    if j < |keys0| {
      assert kj in keys0;
      var e :| e in init && KeyOfEvent(e) == kj;
      var b0 :| 0 <= b0 < |init| && init[b0] == e;
      if b < |init| {
        b0 := b;
      }
      assert init[b0] == events[b0];
      GroupKeysFirstAppearance(init, i, j, b0);
      var a :| 0 <= a < b0 && KeyOfEvent(init[a]) == ki;
      assert events[a] == init[a];
    } else {
      assert ki in keys0;
      var e :| e in init && KeyOfEvent(e) == ki;
      var a :| 0 <= a < |init| && init[a] == e;
      assert events[a] == init[a];
      if b < |init| {
        InitKeyListed(events, b);
      }
    }
  }

  /** The key of every event but the last is already listed before the last is seen. */
  lemma InitKeyListed(events: seq<Event>, b: nat)
    requires b < |events| - 1
    ensures KeyOfEvent(events[b]) in GroupKeys(events[..|events| - 1])
  {
    var init := events[..|events| - 1];
    GroupKeysMembers(init);
    assert events[b] == init[b];
    assert HasKey(init, KeyOfEvent(events[b]));
  }

  /** No two events share a (location, class, day): what a combined list looks like. */
  predicate KeysDistinct(events: seq<Event>) {
    forall i, j :: 0 <= i < j < |events| ==> KeyOfEvent(events[i]) != KeyOfEvent(events[j])
  }

  /** Where keys are distinct, every event is a group of its own. */
  lemma {:induction false} GroupsOfDistinct(events: seq<Event>)
    requires KeysDistinct(events)
    ensures |GroupKeys(events)| == |events|
    ensures forall i :: 0 <= i < |events| ==> GroupKeys(events)[i] == KeyOfEvent(events[i])
    ensures forall i :: 0 <= i < |events| ==> Members(events, KeyOfEvent(events[i])) == [events[i]]
  {
    if events != [] {
      var init, last := events[..|events| - 1], events[|events| - 1];
      assert KeysDistinct(init) by {
        forall i, j | 0 <= i < j < |init| ensures KeyOfEvent(init[i]) != KeyOfEvent(init[j]) {
          assert init[i] == events[i] && init[j] == events[j];
        }
      }
      GroupsOfDistinct(init);
      var k := KeyOfEvent(last);
      assert k !in GroupKeys(init) by {
        forall i | 0 <= i < |init| ensures GroupKeys(init)[i] != k {
          assert init[i] == events[i];
        }
      }
      assert GroupKeys(events) == GroupKeys(init) + [k];
      MembersOfAbsentKey(init, k);
      assert Members(events, k) == [last];
      forall i | 0 <= i < |init|
        ensures Members(events, KeyOfEvent(events[i])) == [events[i]]
      {
        assert init[i] == events[i];
        assert KeyOfEvent(events[i]) != k;
        assert Members(events, KeyOfEvent(events[i])) == Members(init, KeyOfEvent(init[i]));
      }
    }
  }

  /** A lone event with a canonical time combines to itself. */
  lemma CombineSingle(x: Event)
    requires Clock.IsCanonicalRange(x.time)
    ensures AllParse([x])
    ensures CombineGroup(KeyOfEvent(x), [x]) == x
  {
    FormatOfParse(x.time);
  }

  /** A list of canonical events with distinct keys is left as it is by combining. */
  lemma CombineOfCombined(events: seq<Event>)
    requires KeysDistinct(events)
    requires forall i :: 0 <= i < |events| ==> Clock.IsCanonicalRange(events[i].time)
    ensures AllParse(events)
    ensures CombineModule(events) == events
  {
    forall e | e in events ensures Parses(e) {
      FormatOfParse(e.time);
    }
    GroupsOfDistinct(events);
    GroupsNonEmpty(events);
    var again := CombineModule(events);
    forall i | 0 <= i < |events|
      ensures again[i] == events[i]
    {
      CombineSingle(events[i]);
    }
  }

  /** Combining an already combined list changes nothing. */
  lemma CombineTwice(events: seq<Event>)
    requires AllParse(events)
    ensures AllParse(CombineModule(events))
    ensures CombineModule(CombineModule(events)) == CombineModule(events)
  {
    var out := CombineModule(events);
    CombinedKeyList(events);
    CombinedKeys(events);
    forall i | 0 <= i < |out|
      ensures Clock.IsCanonicalRange(out[i].time)
    {
      CombinedEvent(events, i);
    }
    CombineOfCombined(out);
  }

  // ---------------------------------------------------------------- the procedure

  /** The grouping loop (combine_json_duplicates.py:28-33). */
  method GroupEvents(events: seq<Event>) returns (keys: seq<GroupKey>, groups: map<GroupKey, seq<Event>>)
    ensures keys == GroupKeys(events)
    ensures forall k :: k in groups <==> k in keys
    ensures forall k :: k in groups ==> groups[k] == Members(events, k)
  {
    keys, groups := [], map[];
    for n := 0 to |events|
      invariant keys == GroupKeys(events[..n])
      invariant forall k :: k in groups <==> k in keys
      invariant forall k :: k in groups ==> groups[k] == Members(events[..n], k)
    {
      assert events[..n + 1][..n] == events[..n];
      var event := events[n];
      var key := KeyOfEvent(event);
      assert forall k :: Members(events[..n + 1], k) == Members(events[..n], k) + (if key == k then [event] else []);
      if key !in groups {
        MembersOfAbsentKey(events[..n], key);
        keys := keys + [key];
        groups := groups[key := []];
      }
      groups := groups[key := groups[key] + [event]];
    }
    assert events[..|events|] == events;
  }

  /**
   * The combined event of one group (combine_json_duplicates.py:38-51):
   * each event's time parsed, the earliest start and the latest end kept.
   * None where the source raises: an empty group, which `zip(*[])` cannot
   * unpack, or a time `parse_time` rejects.
   */
  method CombineGroupEvents(key: GroupKey, group: seq<Event>) returns (event: Option<Event>)
    ensures event.Some? <==> |group| > 0 && AllParse(group)
    ensures event.Some? ==> event.value == CombineGroup(key, group)
    ensures event.Some? ==> IsHullOf(event.value, key, group)
  {
    if |group| == 0 {
      return None;
    }
    var earliest, latest := 0, 0;
    for i := 0 to |group|
      invariant AllParse(group[..i])
      invariant i > 0 ==> earliest == EarliestStart(group[..i]) && latest == LatestEnd(group[..i])
    {
      assert group[..i + 1][..i] == group[..i];
      var times := ParseTime(group[i].time);
      if times.None? {
        assert group[i] in group && !Parses(group[i]);
        return None;
      }
      var (start, end) := times.value;
      assert AllParse(group[..i + 1]);
      if i == 0 || start < earliest {
        earliest := start;
      }
      if i == 0 || end > latest {
        latest := end;
      }
    }
    assert group[..|group|] == group;
    HullWithinDay(group);
    event := Some(Event(key.location, key.className, key.day, FormatTimeRange(earliest, latest)));
    CombineGroupIsHull(key, group);
  }

  /** Every event with key `k` has a time that parses. */
  ghost predicate KeyParses(events: seq<Event>, k: GroupKey) {
    forall e :: e in events && KeyOfEvent(e) == k ==> Parses(e)
  }

  /** Every event whose key is in `done` has a time that parses. */
  ghost predicate KeysParse(events: seq<Event>, done: set<GroupKey>) {
    forall e :: e in events && KeyOfEvent(e) in done ==> Parses(e)
  }

  lemma KeysParseAdd(events: seq<Event>, done: set<GroupKey>, k: GroupKey)
    requires KeysParse(events, done) && KeyParses(events, k)
    ensures KeysParse(events, done + {k})
  {
  }

  /** When the module parses, `out` is the start of its combined list. */
  ghost predicate CombinedSoFar(events: seq<Event>, out: seq<Event>) {
    AllParse(events) ==> |out| <= |GroupKeys(events)| && forall p :: 0 <= p < |out| ==> out[p] == CombineModule(events)[p]
  }

  lemma CombinedSoFarSnoc(events: seq<Event>, out: seq<Event>, event: Event)
    requires CombinedSoFar(events, out) && |out| < |GroupKeys(events)|
    requires AllParse(events) ==> event == CombineModule(events)[|out|]
    ensures CombinedSoFar(events, out + [event])
  {
    if AllParse(events) {
      var out' := out + [event];
      forall p | 0 <= p < |out'| ensures out'[p] == CombineModule(events)[p] {
        if p < |out| {
          assert out'[p] == out[p];
        }
      }
    }
  }

  /**
   * Once every group key is handled, every event's time has parsed and the
   * appended events are the combined module.
   */
  lemma ModuleFromGroups(events: seq<Event>, out: seq<Event>, done: set<GroupKey>)
    requires |out| == |GroupKeys(events)| && forall k :: k in GroupKeys(events) ==> k in done
    requires KeysParse(events, done) && CombinedSoFar(events, out)
    ensures AllParse(events) && out == CombineModule(events)
  {
    GroupKeysMembers(events);
    forall e | e in events ensures Parses(e) {
      assert HasKey(events, KeyOfEvent(e));
    }
  }

  /**
   * The `j`-th listed group of a module combined: a failure means some time
   * of the module does not parse; a success means every event with that key
   * parses and, when the whole module parses, gives its `j`-th combined event.
   */
  method CombineListedGroup(events: seq<Event>, keys: seq<GroupKey>, groups: map<GroupKey, seq<Event>>, j: nat)
    returns (event: Option<Event>)
    requires keys == GroupKeys(events) && j < |keys|
    requires keys[j] in groups && groups[keys[j]] == Members(events, keys[j])
    ensures event.None? ==> !AllParse(events)
    ensures event.Some? ==> KeyParses(events, keys[j])
    ensures event.Some? && AllParse(events) ==> event.value == CombineModule(events)[j]
  {
    var key := keys[j];
    assert key in keys;
    event := CombineGroupEvents(key, groups[key]);
    if event.None? {
      GroupFailureRaises(events, key);
    } else {
      MembersAreKeyed(events, key);
    }
  }

  /** The body of the module loop (combine_json_duplicates.py:25-52); None where the source raises. */
  method CombineModuleEvents(events: seq<Event>) returns (combined: Option<seq<Event>>)
    ensures combined.Some? <==> AllParse(events)
    ensures combined.Some? ==> combined.value == CombineModule(events)
  {
    var keys, groups := GroupEvents(events);
    var out: seq<Event> := [];
    ghost var done: set<GroupKey> := {};
    for j := 0 to |keys|
      invariant |out| == j && forall p :: 0 <= p < j ==> keys[p] in done
      invariant KeysParse(events, done) && CombinedSoFar(events, out)
    {
      assert keys[j] in keys;
      var event := CombineListedGroup(events, keys, groups, j);
      if event.None? {
        return None;
      }
      CombinedSoFarSnoc(events, out, event.value);
      KeysParseAdd(events, done, keys[j]);
      out := out + [event.value];
      done := done + {keys[j]};
    }
    ModuleFromGroups(events, out, done);
    combined := Some(out);
  }

  /** `combine_schedules` without the file I/O: the `combined_schedules` dict it writes, or None where it raises. */
  method CombineSchedules(data: seq<ModuleEvents>) returns (out: Option<seq<ModuleEvents>>)
    ensures out.Some? <==> AllModulesParse(data)
    ensures out.Some? ==> out.value == CombineAll(data)
  {
    var result: seq<ModuleEvents> := [];
    for i := 0 to |data|
      invariant |result| == i
      invariant forall p :: 0 <= p < i ==>
        AllParse(data[p].events) && result[p] == ModuleEvents(data[p].code, CombineModule(data[p].events))
    {
      var combined := CombineModuleEvents(data[i].events);
      if combined.None? {
        return None;
      }
      result := result + [ModuleEvents(data[i].code, combined.value)];
    }
    out := Some(result);
  }
}

/** Worked cases of `combine_schedules` on two events of one group. */
module CombineExamples {
  import opened Wrappers
  import Clock
  import opened CombineDuplicates

  /** Two events with the same key become one event spanning both. */
  lemma SameKeyPair(a: Event, b: Event)
    requires Parses(a) && Parses(b) && KeyOfEvent(a) == KeyOfEvent(b)
    ensures AllParse([a, b])
    ensures var lo := if StartOf(b) < StartOf(a) then StartOf(b) else StartOf(a);
      var hi := if EndOf(b) > EndOf(a) then EndOf(b) else EndOf(a);
      CombineModule([a, b]) == [Event(a.location, a.className, a.day, FormatTimeRange(lo, hi))]
  {
    var k := KeyOfEvent(a);
    var events := [a, b];
    assert events[..1] == [a];
    assert GroupKeys([a]) == [k];
    assert GroupKeys(events) == [k];
    assert Members([a], k) == [a];
    assert Members(events, k) == [a, b];
    assert [a, b][..1] == [a];
    assert AllParse([a]);
    assert EarliestStart([a]) == StartOf(a) && LatestEnd([a]) == EndOf(a);
    GroupsNonEmpty(events);
    assert CombineModule(events)[0] == CombineGroup(k, [a, b]);
  }

  function Lab(time: string): Event {
    Event("BIUST - Lab 1", "Lecture", "Monday", time)
  }

  lemma GapTexts()
    ensures "0900-0950" == FormatTimeRange(540, 590) && "1000-1050" == FormatTimeRange(600, 650)
    ensures "0900-1050" == FormatTimeRange(540, 650)
  {
    assert Clock.Strftime(540) == "0900" && Clock.Strftime(590) == "0950";
    assert Clock.Strftime(600) == "1000" && Clock.Strftime(650) == "1050";
  }

  lemma MidnightTexts()
    ensures "2330-0030" == FormatTimeRange(1410, 30) && "0030-0120" == FormatTimeRange(30, 80)
  {
    assert Clock.Strftime(1410) == "2330" && Clock.Strftime(30) == "0030";
    assert Clock.Strftime(80) == "0120";
  }

  /** Unlike merge.py, a gap between two events of a group does not matter: 0900-0950 and 1000-1050 give 0900-1050. */
  lemma GapSpannedExample()
    ensures AllParse([Lab("0900-0950"), Lab("1000-1050")])
    ensures CombineModule([Lab("0900-0950"), Lab("1000-1050")]) == [Lab("0900-1050")]
  {
    GapTexts();
    ParseOfFormat(540, 590);
    ParseOfFormat(600, 650);
    SameKeyPair(Lab("0900-0950"), Lab("1000-1050"));
  }

  /**
   * Times are compared as times of day, with no midnight shift: 2330-0030
   * and 0030-0120 give 0030-0120, the earliest start and the latest end.
   */
  lemma MidnightExample()
    ensures AllParse([Lab("2330-0030"), Lab("0030-0120")])
    ensures CombineModule([Lab("2330-0030"), Lab("0030-0120")]) == [Lab("0030-0120")]
  {
    MidnightTexts();
    ParseOfFormat(1410, 30);
    ParseOfFormat(30, 80);
    SameKeyPair(Lab("2330-0030"), Lab("0030-0120"));
  }
}
