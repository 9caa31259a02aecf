/**
 The aggregator of app.js (the counting parts of `analyzeAndDisplayData`): from the
 parsed history it computes the per-channel counts and the top channels, the
 per-weekday counts and the most active weekday, the 24-slot hour histogram, and the
 per-month counts in ascending key order. What is handed to the charts and to the page
 is collected in `Summary`; the charts and the page themselves are not modelled.
 */
module Analysis {
  import opened JsStrings
  import opened Counters
  import opened Sorting
  import opened WatchHistory

  const TopChannelsLimit: nat := 10
  const HoursPerDay: nat := 24
  const NoActiveDay: string := "N/A"

  // ---------------------------------------------------------------------------
  // bucket keys
  // ---------------------------------------------------------------------------

  /** `toLocaleDateString('en-US', { weekday: 'long' })` */
  function WeekdayName(w: Weekday): string {
    match w
    case Sunday => "Sunday"
    case Monday => "Monday"
    case Tuesday => "Tuesday"
    case Wednesday => "Wednesday"
    case Thursday => "Thursday"
    case Friday => "Friday"
    case Saturday => "Saturday"
  }

  /** No weekday name is as short as the `'N/A'` placeholder. */
  lemma WeekdayNameLength(w: Weekday)
    ensures |WeekdayName(w)| >= 6 && WeekdayName(w) != NoActiveDay
  {
  }

  /** The year-month bucket key: the full year, a dash, and the ZERO-based month padded to
      two digits, so January 2024 is `"2024-00"`. */
  function MonthKey(t: Timestamp): string {
    IntToString(t.year) + "-" + PadStart(NatToString(t.month0), 2, '0')
  }

  function ChannelNames(history: seq<WatchEvent>): (names: seq<string>)
    ensures |names| == |history|
    ensures forall i :: 0 <= i < |history| ==> names[i] == history[i].channelName
  {
    seq(|history|, i requires 0 <= i < |history| => history[i].channelName)
  }

  function DayNames(history: seq<WatchEvent>): (names: seq<string>)
    ensures |names| == |history|
    ensures forall i :: 0 <= i < |history| ==> names[i] == WeekdayName(history[i].timestamp.weekday)
  {
    seq(|history|, i requires 0 <= i < |history| => WeekdayName(history[i].timestamp.weekday))
  }

  function MonthKeys(history: seq<WatchEvent>): (keys: seq<string>)
    ensures |keys| == |history|
    ensures forall i :: 0 <= i < |history| ==> keys[i] == MonthKey(history[i].timestamp)
  {
    seq(|history|, i requires 0 <= i < |history| => MonthKey(history[i].timestamp))
  }

  /** The distinct channel names of the history. */
  function DistinctChannels(history: seq<WatchEvent>): set<string> {
    set n | n in ChannelNames(history)
  }

  // ---------------------------------------------------------------------------
  // the three object counters
  // ---------------------------------------------------------------------------

  /** `channelCounts`: one `reduce` over the history, bumping the event's channel name. */
  method CountChannels(history: seq<WatchEvent>) returns (counts: Entries)
    ensures counts == Tally(ChannelNames(history))
    ensures forall k :: Lookup(counts, k) == multiset(ChannelNames(history))[k]
    ensures forall k :: k in Keys(counts) <==> k in ChannelNames(history)
    ensures WellFormed(counts) && Total(counts) == |history|
    ensures |counts| == |DistinctChannels(history)|
  {
    ghost var names := ChannelNames(history);
    counts := [];
    for i := 0 to |history|
      invariant counts == Tally(names[..i])
    {
      TallyStep(names, i);
      counts := Bump(counts, history[i].channelName);
    }
    assert names[..|history|] == names;
    TallySpec(names);
    TallySize(names);
  }

  /** `dayCounts`: one `reduce` over the history, bumping the event's weekday name. */
  method CountDays(history: seq<WatchEvent>) returns (counts: Entries)
    ensures counts == Tally(DayNames(history))
    ensures forall k :: Lookup(counts, k) == multiset(DayNames(history))[k]
    ensures WellFormed(counts) && Total(counts) == |history|
  {
    ghost var names := DayNames(history);
    counts := [];
    for i := 0 to |history|
      invariant counts == Tally(names[..i])
    {
      TallyStep(names, i);
      counts := Bump(counts, WeekdayName(history[i].timestamp.weekday));
    }
    assert names[..|history|] == names;
    TallySpec(names);
  }

  /** `monthlyCounts`: one `forEach` over the history, bumping the event's month key. */
  method CountMonths(history: seq<WatchEvent>) returns (counts: Entries)
    ensures counts == Tally(MonthKeys(history))
    ensures forall k :: Lookup(counts, k) == multiset(MonthKeys(history))[k]
    ensures WellFormed(counts) && Total(counts) == |history|
  {
    ghost var keys := MonthKeys(history);
    counts := [];
    for i := 0 to |history|
      invariant counts == Tally(keys[..i])
    {
      TallyStep(keys, i);
      counts := Bump(counts, MonthKey(history[i].timestamp));
    }
    assert keys[..|history|] == keys;
    TallySpec(keys);
  }

  // ---------------------------------------------------------------------------
  // top channels
  // ---------------------------------------------------------------------------

  function Min(a: nat, b: nat): nat {
    if a < b then a else b
  }

  /** `Object.entries(channelCounts).sort(([,a],[,b]) => b - a).slice(0, 10)` */
  function TopChannels(channelCounts: Entries): Entries {
    var sorted := SortByCount(channelCounts);
    sorted[..Min(TopChannelsLimit, |sorted|)]
  }

  /** Every entry of a rearranged counter is an entry of the counter, so it holds the count
      the counter has for its key. */
  lemma PermutedEntry(counts: Entries, sorted: Entries, i: nat)
    requires NoDuplicates(Keys(counts)) && multiset(sorted) == multiset(counts) && i < |sorted|
    ensures sorted[i] in counts
    ensures sorted[i].1 == Lookup(counts, sorted[i].0)
  {
    assert sorted[i] in multiset(sorted);
    LookupMember(counts, sorted[i]);
  }

  /** Every key of the counter appears, with its count, somewhere in the sorted counter. */
  lemma SortedPosition(counts: Entries, k: string) returns (j: nat)
    requires k in Keys(counts)
    ensures j < |counts| && SortByCount(counts)[j] == (k, Lookup(counts, k))
  {
    var sorted := SortByCount(counts);
    MemberOfKey(counts, k);
    assert (k, Lookup(counts, k)) in multiset(sorted);
    j :| 0 <= j < |sorted| && sorted[j] == (k, Lookup(counts, k));
  }

  /** The sorted counter names no key twice. */
  lemma SortedKeysDistinct(counts: Entries)
    requires NoDuplicates(Keys(counts))
    ensures NoDuplicates(Keys(SortByCount(counts)))
  {
    var sorted := SortByCount(counts);
    forall i, j | 0 <= i < j < |sorted| ensures sorted[i].0 != sorted[j].0 {
      PermutedEntry(counts, SortByCount(counts), i);
      PermutedEntry(counts, SortByCount(counts), j);
      TwoOccurrences(sorted, i, j);
      EntriesMultiplicity(counts, sorted[i]);
    }
  }

  lemma PrefixNonIncreasing(e: Entries, n: nat)
    requires NonIncreasing(e) && n <= |e|
    ensures NonIncreasing(e[..n])
  {
  }

  /** The top entries are the first `min(10, size)` of the sorted counter, counts non-increasing. */
  lemma TopShape(counts: Entries)
    ensures |TopChannels(counts)| == Min(TopChannelsLimit, |counts|)
    ensures NonIncreasing(TopChannels(counts))
  {
    var sorted := SortByCount(counts);
    PrefixNonIncreasing(sorted, Min(TopChannelsLimit, |sorted|));
  }

  /** Every top entry is an entry of the counter. */
  lemma TopEntries(counts: Entries)
    requires NoDuplicates(Keys(counts))
    ensures var top := TopChannels(counts);
      forall i :: 0 <= i < |top| ==> top[i] in counts && top[i].1 == Lookup(counts, top[i].0)
  {
    var top := TopChannels(counts);
    forall i | 0 <= i < |top|
      ensures top[i] in counts && top[i].1 == Lookup(counts, top[i].0)
    {
      PermutedEntry(counts, SortByCount(counts), i);
    }
  }

  /** No key is listed twice among the top entries. */
  lemma TopKeysDistinct(counts: Entries)
    requires NoDuplicates(Keys(counts))
    ensures NoDuplicates(Keys(TopChannels(counts)))
  {
    var sorted := SortByCount(counts);
    var top := TopChannels(counts);
    SortedKeysDistinct(counts);
    assert forall i :: 0 <= i < |top| ==> Keys(top)[i] == Keys(sorted)[i];
  }

  /** A key left out of the top entries has no larger count than any listed one. */
  lemma TopDominates(counts: Entries)
    requires NoDuplicates(Keys(counts))
    ensures var top := TopChannels(counts);
      forall k, i :: k in Keys(counts) && k !in Keys(top) && 0 <= i < |top| ==>
        Lookup(counts, k) <= top[i].1
  {
    var top := TopChannels(counts);
    forall k, i | k in Keys(counts) && k !in Keys(top) && 0 <= i < |top|
      ensures Lookup(counts, k) <= top[i].1
    {
      var j := SortedPosition(counts, k);
      assert forall m :: 0 <= m < |top| ==> Keys(top)[m] == SortByCount(counts)[m].0;
    }
  }

  /** The top channels are `min(10, distinct channels)` entries of the channel counts in
      non-increasing count order, each agreeing with the counts and no two for one channel,
      and no channel left out was watched more often than any channel listed. */
  lemma TopChannelsSpec(history: seq<WatchEvent>)
    ensures var counts := Tally(ChannelNames(history));
      var top := TopChannels(counts);
      && |top| == Min(TopChannelsLimit, |DistinctChannels(history)|)
      && NonIncreasing(top)
      && NoDuplicates(Keys(top))
      && (forall i :: 0 <= i < |top| ==>
            top[i].0 in ChannelNames(history) && top[i].1 == Lookup(counts, top[i].0) >= 1)
      && (forall k, i :: k in ChannelNames(history) && k !in Keys(top) && 0 <= i < |top| ==>
            Lookup(counts, k) <= top[i].1)
  {
    var names := ChannelNames(history);
    var counts := Tally(names);
    TallySpec(names);
    TallySize(names);
    TopShape(counts);
    TopEntries(counts);
    TopKeysDistinct(counts);
    TopDominates(counts);
    var top := TopChannels(counts);
    forall i | 0 <= i < |top| ensures top[i].0 in names && top[i].1 >= 1 {
      var j :| 0 <= j < |counts| && counts[j] == top[i];
      assert Keys(counts)[j] == top[i].0;
    }
  }

  // ---------------------------------------------------------------------------
  // most active day
  // ---------------------------------------------------------------------------

  /** `dayEntries.length > 0 ? dayEntries.sort(([, a], [, b]) => b - a)[0][0] : 'N/A'` */
  function MostActiveDay(dayCounts: Entries): string {
    if |dayCounts| > 0 then SortByCount(dayCounts)[0].0 else NoActiveDay
  }

  /** On a non-empty counter with unique keys the most active key is one of its keys and
      no key has a larger count. */
  lemma MostActiveOfCounter(counts: Entries)
    requires NoDuplicates(Keys(counts)) && counts != []
    ensures MostActiveDay(counts) in Keys(counts)
    ensures forall k :: Lookup(counts, k) <= Lookup(counts, MostActiveDay(counts))
  {
    var sorted := SortByCount(counts);
    var day := MostActiveDay(counts);
    PermutedEntry(counts, SortByCount(counts), 0);
    var j0 :| 0 <= j0 < |counts| && counts[j0] == sorted[0];
    assert Keys(counts)[j0] == day;
    forall k ensures Lookup(counts, k) <= Lookup(counts, day) {
      if k in Keys(counts) {
        var j := SortedPosition(counts, k);
        assert j == 0 || sorted[0].1 >= sorted[j].1;
      } else {
        LookupAbsent(counts, k);
      }
    }
  }

  /** A key counted strictly more often than every other key is the most active one. */
  lemma MostActiveUnique(counts: Entries, w: string)
    requires NoDuplicates(Keys(counts))
    requires forall k :: k != w ==> Lookup(counts, k) < Lookup(counts, w)
    ensures MostActiveDay(counts) == w
  {
    assert Lookup(counts, "") < Lookup(counts, w) || Lookup(counts, "N/A") < Lookup(counts, w);
    assert counts != [];
    MostActiveOfCounter(counts);
    assert MostActiveDay(counts) != w ==> Lookup(counts, MostActiveDay(counts)) < Lookup(counts, w);
  }

  /** The most active day is `'N/A'` exactly for an empty history; otherwise it is the
      weekday of some event and no weekday has a larger count. */
  lemma MostActiveDaySpec(history: seq<WatchEvent>)
    ensures var counts := Tally(DayNames(history));
      var day := MostActiveDay(counts);
      && (day == NoActiveDay <==> history == [])
      && (history != [] ==> day in DayNames(history))
      && (forall k :: Lookup(counts, k) <= Lookup(counts, day))
  {
    var names := DayNames(history);
    var counts := Tally(names);
    TallySpec(names);
    TallyEmpty(names);
    if history != [] {
      MostActiveOfCounter(counts);
      var day := MostActiveDay(counts);
      var i :| 0 <= i < |names| && names[i] == day;
      WeekdayNameLength(history[i].timestamp.weekday);
    } else {
      forall k ensures Lookup(counts, k) == 0 {
        LookupAbsent(counts, k);
      }
    }
  }

  // ---------------------------------------------------------------------------
  // hour histogram
  // ---------------------------------------------------------------------------

  function Sum(s: seq<nat>): nat {
    if s == [] then 0 else s[0] + Sum(s[1..])
  }

  /** The number of events whose hour is `h`. */
  function HourCount(history: seq<WatchEvent>, h: int): nat {
    if history == [] then 0
    else
      var n := |history| - 1;
      HourCount(history[..n], h) + (if history[n].timestamp.hour == h then 1 else 0)
  }

  /** The 24 slots, slot `h` counting the events at hour `h`. */
  function HourHistogram(history: seq<WatchEvent>): (slots: seq<nat>)
    ensures |slots| == HoursPerDay
  {
    seq(HoursPerDay, h requires 0 <= h < HoursPerDay => HourCount(history, h))
  }

  /** One more event adds one to the slot at its hour and to no other slot. */
  lemma HourHistogramStep(history: seq<WatchEvent>, e: WatchEvent)
    ensures var before := HourHistogram(history);
      HourHistogram(history + [e]) == before[e.timestamp.hour := before[e.timestamp.hour] + 1]
  {
    assert (history + [e])[..|history|] == history;
  }

  lemma {:induction false} SumIncrement(s: seq<nat>, i: nat)
    requires i < |s|
    ensures Sum(s[i := s[i] + 1]) == Sum(s) + 1
    decreases |s|
  {
    if i > 0 {
      SumIncrement(s[1..], i - 1);
      assert s[i := s[i] + 1][1..] == s[1..][i - 1 := s[i] + 1];
    }
  }

  /** The slots sum to the number of events. */
  lemma {:induction false} HourHistogramSum(history: seq<WatchEvent>)
    ensures Sum(HourHistogram(history)) == |history|
    decreases |history|
  {
    if history == [] {
      var zeros := HourHistogram(history);
      assert forall h :: 0 <= h < HoursPerDay ==> zeros[h] == 0;
      ZeroSum(zeros);
    } else {
      var n := |history| - 1;
      HourHistogramSum(history[..n]);
      assert history == history[..n] + [history[n]];
      HourHistogramStep(history[..n], history[n]);
      SumIncrement(HourHistogram(history[..n]), history[n].timestamp.hour);
    }
  }

  lemma {:induction false} ZeroSum(s: seq<nat>)
    requires forall i :: 0 <= i < |s| ==> s[i] == 0
    ensures Sum(s) == 0
    decreases |s|
  {
    if s != [] {
      ZeroSum(s[1..]);
    }
  }

  /** `hourlyCounts`: `Array(24).fill(0)`, then one increment per event at its hour. */
  method HourlyCounts(history: seq<WatchEvent>) returns (slots: seq<nat>)
    ensures slots == HourHistogram(history)
    ensures |slots| == HoursPerDay && Sum(slots) == |history|
  {
    var counts := new nat[HoursPerDay](_ => 0);
    for i := 0 to |history|
      invariant counts[..] == HourHistogram(history[..i])
    {
      var h := history[i].timestamp.hour;
      HourHistogramStep(history[..i], history[i]);
      assert history[..i + 1] == history[..i] + [history[i]];
      counts[h] := counts[h] + 1;
    }
    assert history[..|history|] == history;
    slots := counts[..];
    HourHistogramSum(history);
  }

  // ---------------------------------------------------------------------------
  // month series
  // ---------------------------------------------------------------------------

  /** `Object.keys(monthlyCounts).sort()` */
  function SortedMonthKeys(monthlyCounts: Entries): seq<string> {
    SortStrings(Keys(monthlyCounts))
  }

  /** The counts stored under `keys`, in order; `keys.map(key => monthlyCounts[key])` is this
      on the month counter. */
  function LookupAll(counts: Entries, keys: seq<string>): (data: seq<nat>)
    ensures |data| == |keys|
    ensures forall i :: 0 <= i < |keys| ==> data[i] == Lookup(counts, keys[i])
  {
    if keys == [] then [] else [Lookup(counts, keys[0])] + LookupAll(counts, keys[1..])
  }

  lemma {:induction false} SumAppend(a: seq<nat>, b: seq<nat>)
    ensures Sum(a + b) == Sum(a) + Sum(b)
    decreases |a|
  {
    if a == [] {
      assert a + b == b;
    } else {
      SumAppend(a[1..], b);
      assert (a + b)[1..] == a[1..] + b;
    }
  }

  lemma LookupAllAppend(e: Entries, a: seq<string>, b: seq<string>)
    ensures LookupAll(e, a + b) == LookupAll(e, a) + LookupAll(e, b)
  {
  }

  /** Taking one key out of the list takes its count out of the sum. */
  lemma SumRemove(e: Entries, ks: seq<string>, j: nat)
    requires j < |ks|
    ensures Sum(LookupAll(e, ks)) == Lookup(e, ks[j]) + Sum(LookupAll(e, ks[..j] + ks[j + 1..]))
  {
    var a, b := LookupAll(e, ks[..j]), LookupAll(e, ks[j + 1..]);
    assert ks == ks[..j] + ([ks[j]] + ks[j + 1..]);
    LookupAllAppend(e, ks[..j], [ks[j]] + ks[j + 1..]);
    LookupAllAppend(e, [ks[j]], ks[j + 1..]);
    LookupAllAppend(e, ks[..j], ks[j + 1..]);
    SumAppend(a, [Lookup(e, ks[j])] + b);
    SumAppend(a, b);
  }

  /** Taking the first key of the counter out of a rearrangement of its keys leaves a
      rearrangement of the remaining keys. */
  lemma RemoveFirstKey(e: Entries, ks: seq<string>, j: nat)
    requires e != [] && multiset(ks) == multiset(Keys(e)) && j < |ks| && ks[j] == e[0].0
    ensures multiset(ks[..j] + ks[j + 1..]) == multiset(Keys(e[1..]))
  {
    var k0 := e[0].0;
    assert Keys(e) == [k0] + Keys(e[1..]);
    assert multiset(Keys(e[1..])) == multiset(Keys(e)) - multiset{k0};
    DropOne(ks, j);
  }

  lemma DropOne(s: seq<string>, j: nat)
    requires j < |s|
    ensures multiset(s[..j] + s[j + 1..]) == multiset(s) - multiset{s[j]}
  {
    assert s == s[..j] + [s[j]] + s[j + 1..];
    assert multiset(s) == multiset(s[..j]) + multiset{s[j]} + multiset(s[j + 1..]);
  }

  /** Below the first entry, a counter with unique keys looks every other key up the same. */
  lemma TailLookups(e: Entries, ks: seq<string>)
    requires e != [] && NoDuplicates(Keys(e)) && multiset(ks) == multiset(Keys(e[1..]))
    ensures forall x :: x in ks ==> Lookup(e, x) == Lookup(e[1..], x)
  {
    forall i | 0 <= i < |e| - 1 ensures Keys(e[1..])[i] != e[0].0 {
      assert Keys(e)[i + 1] != Keys(e)[0];
    }
    forall x | x in ks ensures Lookup(e, x) == Lookup(e[1..], x) {
      assert x in multiset(Keys(e[1..]));
    }
  }

  /** Looking up a rearrangement of a counter's keys adds up to the counter's total. */
  lemma {:induction false} SumOverKeys(e: Entries, ks: seq<string>)
    requires NoDuplicates(Keys(e)) && multiset(ks) == multiset(Keys(e))
    ensures Sum(LookupAll(e, ks)) == Total(e)
    decreases |e|
  {
    if e == [] {
      assert |ks| == |multiset(ks)| == 0;
    } else {
      assert Keys(e)[0] in multiset(ks);
      var j :| 0 <= j < |ks| && ks[j] == e[0].0;
      var rest := ks[..j] + ks[j + 1..];
      RemoveFirstKey(e, ks, j);
      DuplicatesTail(e);
      SumOverKeys(e[1..], rest);
      TailLookups(e, rest);
      LookupsAgree(e, e[1..], rest);
      SumRemove(e, ks, j);
    }
  }

  lemma {:induction false} LookupsAgree(e: Entries, e': Entries, ks: seq<string>)
    requires forall x :: x in ks ==> Lookup(e, x) == Lookup(e', x)
    ensures LookupAll(e, ks) == LookupAll(e', ks)
    decreases |ks|
  {
    if ks != [] {
      LookupsAgree(e, e', ks[1..]);
    }
  }

  /** The month series lists every month key of the history once, in strictly ascending key
      order; each data point is the number of events in that month, at least one, and the
      data points add up to the number of events. */
  lemma MonthSeriesSpec(history: seq<WatchEvent>)
    ensures var counts := Tally(MonthKeys(history));
      var keys := SortedMonthKeys(counts);
      var data := LookupAll(counts, keys);
      && (forall k :: k in keys <==> k in MonthKeys(history))
      && (forall i, j :: 0 <= i < j < |keys| ==> LexLess(keys[i], keys[j]))
      && |data| == |keys|
      && (forall i :: 0 <= i < |keys| ==> data[i] == multiset(MonthKeys(history))[keys[i]] >= 1)
      && Sum(data) == |history|
  {
    SeriesOfTally(MonthKeys(history));
  }

  /** The series for the counter of any list of keys: its keys once each, ascending, with their
      numbers of occurrences, adding up to the length of the list. */
  lemma SeriesOfTally(xs: seq<string>)
    ensures var counts := Tally(xs);
      var keys := SortedMonthKeys(counts);
      var data := LookupAll(counts, keys);
      && (forall k :: k in keys <==> k in xs)
      && (forall i, j :: 0 <= i < j < |keys| ==> LexLess(keys[i], keys[j]))
      && |data| == |keys|
      && (forall i :: 0 <= i < |keys| ==> data[i] == multiset(xs)[keys[i]] >= 1)
      && Sum(data) == |xs|
  {
    var counts := Tally(xs);
    TallySpec(xs);
    SeriesKeys(counts);
    SeriesData(counts);
  }

  /** The sorted keys of a counter with unique keys are its keys, strictly ascending. */
  lemma SeriesKeys(counts: Entries)
    requires NoDuplicates(Keys(counts))
    ensures var keys := SortedMonthKeys(counts);
      && (forall k :: k in keys <==> k in Keys(counts))
      && (forall i, j :: 0 <= i < j < |keys| ==> LexLess(keys[i], keys[j]))
  {
    var keys := SortedMonthKeys(counts);
    SortStringsStrict(Keys(counts));
    forall k ensures k in keys <==> k in Keys(counts) {
      assert k in keys <==> k in multiset(Keys(counts));
    }
  }

  /** Looking the sorted keys up gives positive counts adding up to the total. */
  lemma SeriesData(counts: Entries)
    requires WellFormed(counts)
    ensures var data := LookupAll(counts, SortedMonthKeys(counts));
      && (forall i :: 0 <= i < |data| ==> data[i] >= 1)
      && Sum(data) == Total(counts)
  {
    var keys := SortedMonthKeys(counts);
    SumOverKeys(counts, keys);
    forall i | 0 <= i < |keys| ensures Lookup(counts, keys[i]) >= 1 {
      assert keys[i] in multiset(Keys(counts));
      MemberOfKey(counts, keys[i]);
      var j :| 0 <= j < |counts| && counts[j] == (keys[i], Lookup(counts, keys[i]));
    }
  }

  /** Different calendar months get different keys. */
  lemma MonthKeyInjective(s: Timestamp, t: Timestamp)
    ensures MonthKey(s) == MonthKey(t) <==> s.year == t.year && s.month0 == t.month0
  {
    var ms := PadStart(NatToString(s.month0), 2, '0');
    var mt := PadStart(NatToString(t.month0), 2, '0');
    PaddedMonth(s.month0);
    PaddedMonth(t.month0);
    ConcatCancel(IntToString(s.year) + "-", ms, IntToString(t.year) + "-", mt);
    ConcatCancel(IntToString(s.year), "-", IntToString(t.year), "-");
    IntToStringInjective(s.year, t.year);
    DigitsValueInjective(ms, mt);
  }

  /** Two concatenations with equally long second halves are equal only half by half. */
  lemma ConcatCancel(a: string, c: string, b: string, d: string)
    requires |c| == |d|
    ensures a + c == b + d ==> a == b && c == d
  {
    if a + c == b + d {
      assert a == (a + c)[..|a|];
      assert b == (b + d)[..|b|];
      assert c == (a + c)[|a|..];
      assert d == (b + d)[|b|..];
    }
  }

  /** A zero-based month is written as two digits denoting it. */
  lemma PaddedMonth(m: Month0)
    ensures var p := PadStart(NatToString(m), 2, '0');
      |p| == 2 && AllDigits(p) && DigitsValue(p) == m
  {
    NatToStringValue(m);
    var p := PadStart(NatToString(m), 2, '0');
    if m < 10 {
      assert p == ['0', DigitChar(m)];
      assert p[..1] == ['0'];
    } else {
      assert NatToString(m) == NatToString(m / 10) + [DigitChar(m % 10)];
    }
  }

  /** With four-digit years, the key order is the chronological order of calendar months. */
  lemma MonthKeyChronological(s: Timestamp, t: Timestamp)
    requires 1000 <= s.year <= 9999 && 1000 <= t.year <= 9999
    ensures LexLess(MonthKey(s), MonthKey(t))
      <==> s.year < t.year || (s.year == t.year && s.month0 < t.month0)
  {
    var ys := NatToString(s.year);
    var yt := NatToString(t.year);
    FourDigits(s.year);
    FourDigits(t.year);
    NatToStringValue(s.year);
    NatToStringValue(t.year);
    var ms := PadStart(NatToString(s.month0), 2, '0');
    var mt := PadStart(NatToString(t.month0), 2, '0');
    PaddedMonth(s.month0);
    PaddedMonth(t.month0);
    assert MonthKey(s) == (ys + "-") + ms;
    assert MonthKey(t) == (yt + "-") + mt;
    LexLessConcat(ys + "-", ms, yt + "-", mt);
    LexLessConcat(ys, "-", yt, "-");
    LexLessIrreflexive("-");
    LexLessDigits(ys, yt);
    LexLessDigits(ms, mt);
    DigitsValueInjective(ys, yt);
    assert ys + "-" == yt + "-" <==> ys == yt by {
      if ys + "-" == yt + "-" {
        assert ys == (ys + "-")[..4];
      }
    }
  }

  // ---------------------------------------------------------------------------
  // everything the page shows
  // ---------------------------------------------------------------------------

  /** The figures and series `analyzeAndDisplayData` hands to the page and the charts. */
  datatype Summary = Summary(
    totalVideos: nat,
    totalSubscriptions: nat,
    channelCounts: Entries,
    uniqueChannels: nat,
    dayCounts: Entries,
    mostActiveDay: string,
    topChannels: Entries,
    hourlyCounts: seq<nat>,
    monthKeys: seq<string>,
    monthData: seq<nat>)

  /** The counting parts of `analyzeAndDisplayData`, in the source's order. */
  method Analyze(history: seq<WatchEvent>, subscriptions: seq<map<string, string>>) returns (r: Summary)
    ensures r.totalVideos == |history| && r.totalSubscriptions == |subscriptions|
    ensures r.channelCounts == Tally(ChannelNames(history))
    ensures r.uniqueChannels == |DistinctChannels(history)|
    ensures Total(r.channelCounts) == |history| && WellFormed(r.channelCounts)
    ensures r.dayCounts == Tally(DayNames(history)) && Total(r.dayCounts) == |history|
    ensures r.mostActiveDay == MostActiveDay(r.dayCounts)
    ensures (r.mostActiveDay == NoActiveDay) == (history == [])
    ensures r.topChannels == TopChannels(r.channelCounts)
    ensures |r.topChannels| == Min(TopChannelsLimit, r.uniqueChannels) && NonIncreasing(r.topChannels)
    ensures r.hourlyCounts == HourHistogram(history) && Sum(r.hourlyCounts) == |history|
    ensures r.monthKeys == SortedMonthKeys(Tally(MonthKeys(history)))
    ensures r.monthData == LookupAll(Tally(MonthKeys(history)), r.monthKeys)
    ensures |r.monthData| == |r.monthKeys|
    ensures forall i, j :: 0 <= i < j < |r.monthKeys| ==> LexLess(r.monthKeys[i], r.monthKeys[j])
    ensures Sum(r.monthData) == |history|
  {
    var channelCounts := CountChannels(history);
    var uniqueChannels := |channelCounts|;
    var dayCounts := CountDays(history);
    var mostActiveDay := MostActiveDay(dayCounts);
    var topChannels := TopChannels(channelCounts);
    var hourlyCounts := HourlyCounts(history);
    var monthlyCounts := CountMonths(history);
    var monthKeys := SortedMonthKeys(monthlyCounts);
    var monthData := LookupAll(monthlyCounts, monthKeys);
    TopChannelsSpec(history);
    MostActiveDaySpec(history);
    MonthSeriesSpec(history);
    r := Summary(|history|, |subscriptions|, channelCounts, uniqueChannels, dayCounts,
      mostActiveDay, topChannels, hourlyCounts, monthKeys, monthData);
  }

  // ---------------------------------------------------------------------------
  // worked scenarios
  // ---------------------------------------------------------------------------

  /** Three events at hours 9, 9 and 23 fill slot 9 with 2, slot 23 with 1, and nothing else. */
  lemma HourScenario(a: WatchEvent, b: WatchEvent, c: WatchEvent)
    requires a.timestamp.hour == 9 && b.timestamp.hour == 9 && c.timestamp.hour == 23
    ensures var slots := HourHistogram([a, b, c]);
      && slots[9] == 2 && slots[23] == 1
      && forall h :: 0 <= h < HoursPerDay && h != 9 && h != 23 ==> slots[h] == 0
  {
    assert [a, b, c][..2] == [a, b];
    assert [a, b][..1] == [a];
    assert [a][..0] == [];
    forall h | 0 <= h < HoursPerDay
      ensures HourCount([a, b, c], h) == (if h == 9 then 2 else 0) + (if h == 23 then 1 else 0)
    {
      assert HourCount([a], h) == if h == 9 then 1 else 0;
      assert HourCount([a, b], h) == if h == 9 then 2 else 0;
    }
  }

  /** Counting the names of one Monday and two Tuesdays gives Monday 1, Tuesday 2 and
      nothing else. */
  lemma DayTallyScenario(names: seq<string>)
    requires names == ["Monday", "Tuesday", "Tuesday"]
    ensures var counts := Tally(names);
      && Lookup(counts, "Monday") == 1 && Lookup(counts, "Tuesday") == 2
      && (forall k :: k != "Monday" && k != "Tuesday" ==> Lookup(counts, k) == 0)
  {
    TallyCounts(names);
    assert multiset(names) == multiset{"Monday", "Tuesday", "Tuesday"};
  }

  /** One Monday and two Tuesdays count as such, and Tuesday is the most active day. */
  lemma DayScenario(a: WatchEvent, b: WatchEvent, c: WatchEvent)
    requires a.timestamp.weekday == Monday && b.timestamp.weekday == Tuesday && c.timestamp.weekday == Tuesday
    ensures var counts := Tally(DayNames([a, b, c]));
      && Lookup(counts, "Monday") == 1 && Lookup(counts, "Tuesday") == 2
      && (forall k :: k != "Monday" && k != "Tuesday" ==> Lookup(counts, k) == 0)
      && MostActiveDay(counts) == "Tuesday"
  {
    var names := DayNames([a, b, c]);
    assert names == ["Monday", "Tuesday", "Tuesday"];
    DayTallyScenario(names);
    TallyWellFormed(names);
    MostActiveUnique(Tally(names), "Tuesday");
  }
}
